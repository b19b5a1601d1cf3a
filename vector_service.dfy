/** VectorService.cs: the loops that build G and H, encode, send, compute syndromes,
    enumerate all binary vectors, build the reduced standard table, look weights up,
    decode in place, and compare sent and received vectors. Each method is proved
    against the functions of Codes, StandardTable and Decoding. */
module VectorService {
  import opened Bits
  import opened Collections
  import opened Codes
  import opened StandardTable
  import opened Decoding

  /** A list reference that may be null. */
  datatype Option<T> = None | Some(value: T)

  /** EncodeVector(n, k, vector, G): entry j is the C# remainder by 2 of
      vector[0]*G[0][j] + ... + vector[k-1]*G[k-1][j]. */
  method EncodeVector(n: nat, k: nat, vector: seq<int>, g: Matrix) returns (encoded: seq<int>)
    requires EncodeDefined(vector, g, n, k)
    ensures encoded == Encode(vector, g, n, k)
  {
    var enc := new int[n];
    var j := 0;
    while j < n
      invariant 0 <= j <= n
      invariant forall q :: 0 <= q < j ==> enc[q] == Encode(vector, g, n, k)[q]
    {
      var sum := 0;
      var i := 0;
      while i < k
        invariant 0 <= i <= k
        invariant sum == DotRange(vector, Column(g, j, k), 0, i)
      {
        sum := sum + vector[i] * g[i][j];
        i := i + 1;
      }
      enc[j] := Rem2(sum);
      j := j + 1;
    }
    encoded := enc[..];
  }

  /** SendVector(n, pe, encoded) with the draws `NextDouble() <= pe` given as flips:
      entry i is flipped (1 becomes 0, anything else 1) exactly where flips[i] holds. */
  method SendVector(n: nat, encoded: seq<int>, flips: seq<bool>) returns (received: seq<int>)
    requires n <= |encoded| && n <= |flips|
    ensures received == Transmit(encoded, flips, n)
  {
    var rec := new int[n];
    var i := 0;
    while i < n
      invariant 0 <= i <= n
      invariant forall q :: 0 <= q < i ==> rec[q] == Transmit(encoded, flips, n)[q]
    {
      rec[i] := if flips[i] then (if encoded[i] == 1 then 0 else 1) else encoded[i];
      i := i + 1;
    }
    received := rec[..];
  }

  /** CalculateSyndrome(vector, H): entry i is the C# remainder by 2 of the dot product of
      the vector with row i of H. */
  method CalculateSyndrome(vector: seq<int>, h: Matrix) returns (syndrome: seq<int>)
    requires RowsWithin(h, |vector|)
    ensures syndrome == Syndrome(vector, h)
  {
    var syn := new int[|h|];
    var i := 0;
    while i < |h|
      invariant 0 <= i <= |h|
      invariant forall q :: 0 <= q < i ==> syn[q] == Syndrome(vector, h)[q]
    {
      var sum := 0;
      var j := 0;
      while j < |h[i]|
        invariant 0 <= j <= |h[i]|
        invariant sum == DotRange(vector, h[i], 0, j)
      {
        sum := sum + vector[j] * h[i][j];
        j := j + 1;
      }
      syn[i] := Rem2(sum);
      i := i + 1;
    }
    syndrome := syn[..];
  }

  /** GenerateAllBinaryVectors(n): vector i holds the bits (i >> j) & 1 for j = n-1 down to 0,
      which lists every binary vector of length n exactly once. */
  method GenerateAllBinaryVectors(n: nat) returns (vectors: seq<seq<int>>)
    requires n < 31
    ensures vectors == AllVectors(n)
    ensures |vectors| == Pow2(n)
    ensures forall i, j :: 0 <= i < |vectors| && 0 <= j < n ==> vectors[i][j] == (i / Pow2(n - 1 - j)) % 2
    ensures forall v :: v in vectors <==> |v| == n && IsBinary(v)
    ensures forall i, j :: 0 <= i < j < |vectors| ==> vectors[i] != vectors[j]
  {
    var numOfVectors := Pow2(n);
    vectors := [];
    var i := 0;
    while i < numOfVectors
      invariant 0 <= i <= numOfVectors
      invariant |vectors| == i && forall q :: 0 <= q < i ==> vectors[q] == ToBits(q, n)
    {
      var vector: seq<int> := [];
      var j: int := n - 1;
      while j >= 0
        invariant -1 <= j <= n - 1
        invariant vector == ToBits(i, n)[..n - 1 - j]
      {
        ToBitsPrefix(i, n, j);
        vector := vector + [(i / Pow2(j)) % 2];
        j := j - 1;
      }
      assert vector == ToBits(i, n);
      vectors := vectors + [vector];
      i := i + 1;
    }
    assert vectors == AllVectors(n);
    AllVectorsExactly(n);
    forall i, j | 0 <= i < |vectors| && 0 <= j < n ensures vectors[i][j] == (i / Pow2(n - 1 - j)) % 2 {
      ToBitsAt(i, n, j);
    }
  }

  /** GenerateMatrixG(n, k) with the random block given as a: k rows of n zeros with a 1 on
      the diagonal, then columns k .. n-1 of row i taken from row i of a. */
  method GenerateMatrixG(n: nat, k: nat, a: Matrix) returns (g: Matrix)
    requires k <= n && IsMatrix(a, k, n - k) && IsBinaryMatrix(a)
    ensures IsStandardForm(g, k, n)
    ensures forall i, j :: 0 <= i < k && k <= j < n ==> g[i][j] == a[i][j - k]
  {
    g := [];
    var i := 0;
    while i < k
      invariant 0 <= i <= k
      invariant |g| == i
      invariant forall r :: 0 <= r < i ==> g[r] == Zeros(n)[r := 1]
    {
      g := g + [Zeros(n)[i := 1]];
      i := i + 1;
    }
    i := 0;
    while i < k
      invariant 0 <= i <= k
      invariant |g| == k
      invariant forall r :: 0 <= r < k ==> |g[r]| == n
      invariant forall r, j :: 0 <= r < k && 0 <= j < k ==> g[r][j] == (if r == j then 1 else 0)
      invariant forall r, j :: 0 <= r < k && k <= j < n ==> g[r][j] == (if r < i then a[r][j - k] else 0)
    {
      var j := k;
      while j < n
        invariant k <= j <= n
        invariant |g| == k
        invariant forall r :: 0 <= r < k ==> |g[r]| == n
        invariant forall r, c :: 0 <= r < k && 0 <= c < k ==> g[r][c] == (if r == c then 1 else 0)
        invariant forall r, c :: 0 <= r < k && k <= c < n ==>
          g[r][c] == (if r < i || (r == i && c < j) then a[r][c - k] else 0)
      {
        g := g[i := g[i][j := a[i][j - k]]];
        j := j + 1;
      }
      i := i + 1;
    }
    assert forall r :: 0 <= r < k ==> IsBinary(g[r]) by {
      forall r | 0 <= r < k ensures IsBinary(g[r]) {
        forall c | 0 <= c < n ensures IsBit(g[r][c]) {
          if k <= c {
            assert IsBinary(a[r]);
          }
        }
      }
    }
  }

  /** `Skip(k)`: the entries after the first k, or none when there are fewer. */
  function Skip(k: nat, v: seq<int>): (r: seq<int>)
    ensures |r| == if k <= |v| then |v| - k else 0
    ensures forall j :: 0 <= j < |r| ==> r[j] == v[k + j]
  {
    if k <= |v| then v[k..] else []
  }

  /** GenerateMatrixH(G): with n = |G[0]| and k = |G|, row i < n-k is column k+i of A
      (the block of G right of column k) followed by row i of I_(n-k). */
  method GenerateMatrixH(g: Matrix) returns (h: Matrix)
    requires |g| > 0 && IsMatrix(g, |g|, |g[0]|)
    ensures h == ParityCheck(g)
  {
    var n := |g[0]|;
    var k := |g|;
    h := [];
    var a: Matrix := [];
    var i := 0;
    while i < k
      invariant 0 <= i <= k
      invariant |a| == i && forall r :: 0 <= r < i ==> a[r] == Skip(k, g[r])
    {
      a := a + [Skip(k, g[i])];
      i := i + 1;
    }
    var spec := ParityCheck(g);
    var rows := if k <= n then n - k else 0;
    i := 0;
    while i < rows
      invariant 0 <= i <= rows
      invariant h == spec[..i]
    {
      var hRow: seq<int> := [];
      var j := 0;
      while j < k
        invariant 0 <= j <= k
        invariant hRow == spec[i][..j]
      {
        hRow := hRow + [a[j][i]];
        j := j + 1;
      }
      j := 0;
      while j < n - k
        invariant 0 <= j <= n - k
        invariant hRow == spec[i][..k + j]
      {
        hRow := hRow + [if i == j then 1 else 0];
        j := j + 1;
      }
      assert hRow == spec[i];
      h := h + [hRow];
      i := i + 1;
    }
  }

  /** FindWeightFromSindrome(table, syndrome): the weight of the first entry whose syndrome
      equals the query, or -1 when none does. */
  method FindWeightFromSindrome(table: seq<Entry>, syndrome: seq<int>) returns (w: int)
    ensures w == Lookup(table, syndrome)
  {
    w := -1;
    var idx := 0;
    while idx < |table|
      invariant 0 <= idx <= |table|
      invariant forall q :: 0 <= q < idx ==> table[q].syndrome != syndrome
    {
      if table[idx].syndrome == syndrome {
        w := table[idx].w;
        LookupFirst(table, syndrome, idx);
        return;
      }
      idx := idx + 1;
    }
    assert forall q :: 0 <= q < |table| ==> Keys(table)[q] != syndrome;
    LookupMiss(table, syndrome);
  }

  /** GenerateReducedStandardTable(n, k, H): all binary vectors of length n sorted by weight,
      walked in order, recording each new syndrome with the weight of its vector, until
      2^(n-k) syndromes are recorded. */
  method GenerateReducedStandardTable(n: nat, k: nat, h: Matrix) returns (table: seq<Entry>)
    requires k <= n < 31 && RowsWithin(h, n)
    ensures table == ReducedTable(n, k, h)
  {
    table := [];
    var allVectors := GenerateAllBinaryVectors(n);
    allVectors := SortByWeight(allVectors);
    assert allVectors == SortedVectors(n);
    var usedSyndromes: set<seq<int>> := {};
    var limit := Pow2(n - k);
    var idx := 0;
    while idx < |allVectors|
      invariant 0 <= idx <= |allVectors|
      invariant usedSyndromes == Elements(Keys(table))
      invariant |table| != limit
      invariant CollectLeaders(allVectors, h, n, limit, idx, table) == ReducedTable(n, k, h)
    {
      var vector := allVectors[idx];
      var syndrome := CalculateSyndrome(vector, h);
      VisitRecords(table, vector, h);
      if syndrome !in usedSyndromes {
        table := table + [Entry(syndrome, CalculateWeight(vector))];
        usedSyndromes := usedSyndromes + {syndrome};
      }
      if |table| == limit {
        break;
      }
      idx := idx + 1;
    }
  }

  /** DecodeVector(received, G, H): decodes the caller's vector in place and returns that
      same vector. n = |G[0]| and k = |G|; the table is built from (n, k, H). */
  method DecodeVector(received: array<int>, g: Matrix, h: Matrix) returns (decoded: array<int>)
    requires |g| > 0 && |g| <= |g[0]| < 31
    requires |g[0]| <= received.Length && RowsWithin(h, |g[0]|)
    modifies received
    ensures decoded == received
    ensures received[..] == GreedyDecode(old(received[..]), h, ReducedTable(|g[0]|, |g|, h), |g[0]|)
  {
    var table := GenerateReducedStandardTable(|g[0]|, |g|, h);
    decoded := DecodeWithTable(received, h, table, |g[0]|);
  }

  /** The steps of DecodeVector once the table is built: look up the weight of the received
      syndrome, keep the vector when it is 0, otherwise scan the first n bits once. */
  method DecodeWithTable(received: array<int>, h: Matrix, table: seq<Entry>, n: nat) returns (decoded: array<int>)
    requires n <= received.Length && RowsWithin(h, received.Length)
    modifies received
    ensures decoded == received
    ensures received[..] == GreedyDecode(old(received[..]), h, table, n)
  {
    decoded := received;
    var syndrome := CalculateSyndrome(received[..], h);
    var w := FindWeightFromSindrome(table, syndrome);
    if w == 0 {
      return;
    }
    var i := 0;
    while i < n
      invariant 0 <= i <= n
      invariant GreedyPass(received[..], h, table, n, i, w) == GreedyDecode(old(received[..]), h, table, n)
    {
      received[i] := Flip(received[i]);
      syndrome := CalculateSyndrome(received[..], h);
      var wNew := FindWeightFromSindrome(table, syndrome);
      if wNew == 0 {
        return;
      } else if wNew < w {
        w := wNew;
      } else {
        received[i] := Flip(received[i]);
      }
      i := i + 1;
    }
  }

  /** CountErrors(encoded, received): 0 when either is null or their lengths differ,
      otherwise the number of positions where they differ. */
  method CountErrors(encoded: Option<seq<int>>, received: Option<seq<int>>) returns (errorCount: nat)
    ensures encoded.None? || received.None? || |encoded.value| != |received.value| ==> errorCount == 0
    ensures encoded.Some? && received.Some? && |encoded.value| == |received.value| ==>
      errorCount == Distance(encoded.value, received.value)
  {
    if encoded.None? || received.None? || |encoded.value| != |received.value| {
      return 0;
    }
    var a, b := encoded.value, received.value;
    errorCount := 0;
    var i := 0;
    while i < |a|
      invariant 0 <= i <= |a|
      invariant errorCount == Distance(a[..i], b[..i])
    {
      assert a[..i + 1][..i] == a[..i] && b[..i + 1][..i] == b[..i];
      if a[i] != b[i] {
        errorCount := errorCount + 1;
      }
      i := i + 1;
    }
    assert a[..i] == a && b[..i] == b;
  }

  /** GetErrorPositions(encoded, received): empty when either is null or their lengths
      differ, otherwise the positions where they differ, in increasing order. */
  method GetErrorPositions(encoded: Option<seq<int>>, received: Option<seq<int>>) returns (errorPositions: seq<nat>)
    ensures encoded.None? || received.None? || |encoded.value| != |received.value| ==> errorPositions == []
    ensures encoded.Some? && received.Some? && |encoded.value| == |received.value| ==>
      errorPositions == Mismatches(encoded.value, received.value)
  {
    if encoded.None? || received.None? || |encoded.value| != |received.value| {
      return [];
    }
    var a, b := encoded.value, received.value;
    errorPositions := [];
    var i := 0;
    while i < |a|
      invariant 0 <= i <= |a|
      invariant errorPositions == Mismatches(a[..i], b[..i])
    {
      assert a[..i + 1][..i] == a[..i] && b[..i + 1][..i] == b[..i];
      if a[i] != b[i] {
        errorPositions := errorPositions + [i];
      }
      i := i + 1;
    }
    assert a[..i] == a && b[..i] == b;
  }
}
