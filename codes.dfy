/** The GF(2) linear algebra behind VectorService.cs, as functions on integer lists:
    the generator matrix in standard form G = [I_k | A], the parity-check matrix
    H = [Aᵗ | I_(n-k)], encoding m·G, syndromes H·v, weights, the channel and the
    error analysis. The services' loops are proved against these functions. */
module Codes {
  import opened Bits

  type Matrix = seq<seq<int>>

  predicate IsMatrix(m: Matrix, rows: nat, cols: nat) {
    |m| == rows && forall i :: 0 <= i < rows ==> |m[i]| == cols
  }

  predicate IsBinaryMatrix(m: Matrix) {
    forall i :: 0 <= i < |m| ==> IsBinary(m[i])
  }

  /** Every row has at most n entries, so H·v is defined for every v of length n. */
  predicate RowsWithin(h: Matrix, n: nat) {
    forall i :: 0 <= i < |h| ==> |h[i]| <= n
  }

  /** C#'s `x % 2`, which truncates toward zero: a negative sum leaves 0 or -1. */
  function Rem2(x: int): (r: int)
    ensures -1 <= r <= 1 && (x - r) % 2 == 0
    ensures x >= 0 ==> IsBit(r)
  {
    if x >= 0 then x % 2 else -((-x) % 2)
  }

  /** The partial dot product a[lo]*b[lo] + ... + a[hi-1]*b[hi-1]. */
  function DotRange(a: seq<int>, b: seq<int>, lo: nat, hi: nat): int
    requires lo <= hi <= |a| && hi <= |b|
    decreases hi - lo
  {
    if lo == hi then 0 else DotRange(a, b, lo, hi - 1) + a[hi - 1] * b[hi - 1]
  }

  /** Column j of the first k rows of g. */
  function Column(g: Matrix, j: nat, k: nat): (c: seq<int>)
    requires k <= |g| && forall i :: 0 <= i < k ==> j < |g[i]|
    ensures |c| == k && forall i :: 0 <= i < k ==> c[i] == g[i][j]
  {
    seq(k, i requires 0 <= i < k => g[i][j])
  }

  /** What EncodeVector indexes: m[i] and g[i][j] for i < k, j < n. */
  predicate EncodeDefined(m: seq<int>, g: Matrix, n: nat, k: nat) {
    k <= |m| && k <= |g| && forall i :: 0 <= i < k ==> n <= |g[i]|
  }

  /** m·G mod 2: entry j is the C# remainder of m[0]*G[0][j] + ... + m[k-1]*G[k-1][j] by 2. */
  function Encode(m: seq<int>, g: Matrix, n: nat, k: nat): (c: seq<int>)
    requires EncodeDefined(m, g, n, k)
    ensures |c| == n
  {
    seq(n, j requires 0 <= j < n => Rem2(DotRange(m, Column(g, j, k), 0, k)))
  }

  /** H·v mod 2: entry i is the C# remainder of the dot product of v with row i of H. */
  function Syndrome(v: seq<int>, h: Matrix): (s: seq<int>)
    requires RowsWithin(h, |v|)
    ensures |s| == |h|
  {
    seq(|h|, i requires 0 <= i < |h| => Rem2(DotRange(v, h[i], 0, |h[i]|)))
  }

  /** Column p of H, reading a missing entry of a short row as 0. */
  function HColumn(h: Matrix, p: nat): (c: seq<int>)
    ensures |c| == |h|
  {
    seq(|h|, i requires 0 <= i < |h| => if p < |h[i]| then h[i][p] else 0)
  }

  /** Entrywise sum mod 2 of two bit strings of the same length. */
  function Xor(a: seq<int>, b: seq<int>): (c: seq<int>)
    requires |a| == |b|
    ensures |c| == |a| && IsBinary(c)
    ensures forall i :: 0 <= i < |a| ==> (c[i] == 0 <==> a[i] == b[i])
  {
    seq(|a|, i requires 0 <= i < |a| => if a[i] == b[i] then 0 else 1)
  }

  /** The number of entries equal to 1. */
  function CalculateWeight(v: seq<int>): (w: nat)
    ensures w <= |v|
  {
    if v == [] then 0 else CalculateWeight(v[..|v| - 1]) + (if v[|v| - 1] == 1 then 1 else 0)
  }

  /** `Take(k)`: the first k entries, or all of them when there are fewer. */
  function GetPrimaryVector(k: nat, v: seq<int>): (p: seq<int>)
    ensures |p| == (if k <= |v| then k else |v|)
    ensures forall i :: 0 <= i < |p| ==> p[i] == v[i]
  {
    if k <= |v| then v[..k] else v
  }

  /** G = [I_k | A] with a binary A: k rows of length n, identity on the first k columns. */
  predicate IsStandardForm(g: Matrix, k: nat, n: nat) {
    && k <= n
    && IsMatrix(g, k, n)
    && IsBinaryMatrix(g)
    && forall i, j :: 0 <= i < k && 0 <= j < k ==> g[i][j] == (if i == j then 1 else 0)
  }

  /** The matrix GenerateMatrixH derives from G: with n = |G[0]| and k = |G|, row i < n-k
      is column k+i of G over its first k positions followed by row i of I_(n-k). Only the
      block right of column k is read; nothing checks that the left block is I_k. */
  function ParityCheck(g: Matrix): (h: Matrix)
    requires |g| > 0 && IsMatrix(g, |g|, |g[0]|)
    ensures IsMatrix(h, if |g| <= |g[0]| then |g[0]| - |g| else 0, |g[0]|)
    ensures forall i, j :: 0 <= i < |h| && 0 <= j < |g| ==> h[i][j] == g[j][|g| + i]
    ensures forall i, j :: 0 <= i < |h| && |g| <= j < |g[0]| ==> h[i][j] == (if j - |g| == i then 1 else 0)
  {
    var n, k := |g[0]|, |g|;
    var m := if k <= n then n - k else 0;
    seq(m, i requires 0 <= i < m =>
      seq(n, j requires 0 <= j < n => if j < k then g[j][k + i] else if j - k == i then 1 else 0))
  }

  /** SendVector with the random draws replaced by a flip mask: position i is flipped
      exactly when flips[i] holds (the draw fell at or below the error probability). */
  function Transmit(c: seq<int>, flips: seq<bool>, n: nat): (r: seq<int>)
    requires n <= |c| && n <= |flips|
    ensures |r| == n
  {
    seq(n, i requires 0 <= i < n => if flips[i] then Flip(c[i]) else c[i])
  }

  /** The Hamming distance of two lists of the same length. */
  function Distance(a: seq<int>, b: seq<int>): nat
    requires |a| == |b|
  {
    if a == [] then 0
    else Distance(a[..|a| - 1], b[..|b| - 1]) + (if a[|a| - 1] != b[|b| - 1] then 1 else 0)
  }

  /** The positions where two lists of the same length differ, in increasing order. */
  function Mismatches(a: seq<int>, b: seq<int>): (ps: seq<nat>)
    requires |a| == |b|
    ensures |ps| == Distance(a, b)
    ensures forall i, j :: 0 <= i < j < |ps| ==> ps[i] < ps[j]
    ensures forall p :: p in ps <==> 0 <= p < |a| && a[p] != b[p]
  {
    if a == [] then []
    else
      var last := |a| - 1;
      var rest := Mismatches(a[..last], b[..last]);
      assert forall i :: 0 <= i < |rest| ==> rest[i] < last by {
        forall i | 0 <= i < |rest| ensures rest[i] < last {
          assert rest[i] in rest;
        }
      }
      if a[last] != b[last] then rest + [last] else rest
  }

  // ----- sums -----

  lemma {:induction false} DotSplit(a: seq<int>, b: seq<int>, lo: nat, mid: nat, hi: nat)
    requires lo <= mid <= hi <= |a| && hi <= |b|
    ensures DotRange(a, b, lo, hi) == DotRange(a, b, lo, mid) + DotRange(a, b, mid, hi)
    decreases hi - mid
  {
    if mid < hi {
      DotSplit(a, b, lo, mid, hi - 1);
    }
  }

  /** Two partial dot products whose terms agree one by one are equal. */
  lemma {:induction false} DotTermwise(a: seq<int>, b: seq<int>, c: seq<int>, d: seq<int>, lo: nat, hi: nat)
    requires lo <= hi <= |a| && hi <= |b| && hi <= |c| && hi <= |d|
    requires forall j :: lo <= j < hi ==> a[j] * b[j] == c[j] * d[j]
    ensures DotRange(a, b, lo, hi) == DotRange(c, d, lo, hi)
    decreases hi - lo
  {
    if lo < hi {
      DotTermwise(a, b, c, d, lo, hi - 1);
    }
  }

  lemma {:induction false} DotNonNegative(a: seq<int>, b: seq<int>, lo: nat, hi: nat)
    requires lo <= hi <= |a| && hi <= |b|
    requires forall j :: lo <= j < hi ==> a[j] >= 0 && b[j] >= 0
    ensures DotRange(a, b, lo, hi) >= 0
    decreases hi - lo
  {
    if lo < hi {
      DotNonNegative(a, b, lo, hi - 1);
    }
  }

  /** Against a unit vector at position p, the dot product picks out a[p]. */
  lemma {:induction false} DotUnitRight(a: seq<int>, b: seq<int>, lo: nat, hi: nat, p: nat)
    requires lo <= hi <= |a| && hi <= |b|
    requires forall j :: lo <= j < hi ==> b[j] == (if j == p then 1 else 0)
    ensures DotRange(a, b, lo, hi) == if lo <= p < hi then a[p] else 0
    decreases hi - lo
  {
    if lo < hi {
      DotUnitRight(a, b, lo, hi - 1, p);
    }
  }

  lemma {:induction false} DotUnitLeft(a: seq<int>, b: seq<int>, lo: nat, hi: nat, p: nat)
    requires lo <= hi <= |a| && hi <= |b|
    requires forall j :: lo <= j < hi ==> a[j] == (if j == p then 1 else 0)
    ensures DotRange(a, b, lo, hi) == if lo <= p < hi then b[p] else 0
    decreases hi - lo
  {
    if lo < hi {
      DotUnitLeft(a, b, lo, hi - 1, p);
    }
  }

  lemma {:induction false} DotZeroLeft(a: seq<int>, b: seq<int>, lo: nat, hi: nat)
    requires lo <= hi <= |a| && hi <= |b|
    requires forall j :: lo <= j < hi ==> a[j] == 0
    ensures DotRange(a, b, lo, hi) == 0
    decreases hi - lo
  {
    if lo < hi {
      DotZeroLeft(a, b, lo, hi - 1);
    }
  }

  /** Changing a[p] to x moves the partial dot product by (x - a[p]) * b[p]. */
  lemma {:induction false} DotUpdate(a: seq<int>, b: seq<int>, lo: nat, hi: nat, p: nat, x: int)
    requires lo <= hi <= |a| && hi <= |b| && p < |a|
    ensures DotRange(a[p := x], b, lo, hi) ==
      DotRange(a, b, lo, hi) + (if lo <= p < hi then (x - a[p]) * b[p] else 0)
    decreases hi - lo
  {
    if lo < hi {
      DotUpdate(a, b, lo, hi - 1, p, x);
    }
  }

  // ----- encoding -----

  /** Binary messages and matrices give binary codewords. */
  lemma EncodeBinary(m: seq<int>, g: Matrix, n: nat, k: nat)
    requires EncodeDefined(m, g, n, k) && IsBinary(m) && IsBinaryMatrix(g)
    ensures IsBinary(Encode(m, g, n, k))
  {
    forall j | 0 <= j < n ensures IsBit(Encode(m, g, n, k)[j]) {
      DotNonNegative(m, Column(g, j, k), 0, k);
    }
  }

  /** mG = m(I|A) = (m|mA): with G in standard form the first k bits of the codeword
      are the message itself. */
  lemma EncodeSystematic(m: seq<int>, g: Matrix, n: nat, k: nat)
    requires IsStandardForm(g, k, n) && |m| == k && IsBinary(m)
    ensures Encode(m, g, n, k)[..k] == m
  {
    var c := Encode(m, g, n, k);
    forall j | 0 <= j < k ensures c[j] == m[j] {
      DotUnitRight(m, Column(g, j, k), 0, k, j);
    }
  }

  /** Encoding the unit message e_r reproduces row r of a binary G. */
  lemma EncodeUnit(g: Matrix, n: nat, k: nat, r: nat)
    requires IsMatrix(g, k, n) && IsBinaryMatrix(g) && r < k
    ensures Encode(seq(k, i => if i == r then 1 else 0), g, n, k) == g[r]
  {
    var e := seq(k, i => if i == r then 1 else 0);
    var c := Encode(e, g, n, k);
    forall j | 0 <= j < n ensures c[j] == g[r][j] {
      DotUnitLeft(e, Column(g, j, k), 0, k, r);
    }
  }

  // ----- syndromes -----

  lemma SyndromeOfZero(n: nat, h: Matrix)
    requires RowsWithin(h, n)
    ensures Syndrome(Zeros(n), h) == Zeros(|h|)
  {
    forall i | 0 <= i < |h| ensures Syndrome(Zeros(n), h)[i] == 0 {
      DotZeroLeft(Zeros(n), h[i], 0, |h[i]|);
    }
  }

  lemma SyndromeBinary(v: seq<int>, h: Matrix)
    requires RowsWithin(h, |v|) && IsBinary(v) && IsBinaryMatrix(h)
    ensures IsBinary(Syndrome(v, h))
  {
    forall i | 0 <= i < |h| ensures IsBit(Syndrome(v, h)[i]) {
      DotNonNegative(v, h[i], 0, |h[i]|);
    }
  }

  /** For G = [I_k | A] and H = [Aᵗ | I_(n-k)], every codeword m·G has the zero syndrome. */
  lemma CodewordSyndrome(m: seq<int>, g: Matrix, n: nat, k: nat)
    requires IsStandardForm(g, k, n) && k > 0 && |m| == k && IsBinary(m)
    ensures Syndrome(Encode(m, g, n, k), ParityCheck(g)) == Zeros(n - k)
  {
    var c := Encode(m, g, n, k);
    var h := ParityCheck(g);
    EncodeSystematic(m, g, n, k);
    forall i | 0 <= i < n - k ensures Syndrome(c, h)[i] == 0 {
      var col := Column(g, k + i, k);
      assert forall j :: 0 <= j < k ==> c[j] == c[..k][j];
      EvenParityRow(m, col, c, h[i], n, k, i);
    }
  }

  /** Row i of H·(m·G): the dot product is x + (x mod 2) for x = Σ m[j]·A[j][i], which is even. */
  lemma EvenParityRow(m: seq<int>, col: seq<int>, c: seq<int>, row: seq<int>, n: nat, k: nat, i: nat)
    requires k + i < n && |m| == k && |col| == k && |c| == n && |row| == n
    requires IsBinary(m) && IsBinary(col)
    requires forall j :: 0 <= j < k ==> c[j] == m[j] && row[j] == col[j]
    requires forall j :: k <= j < n ==> row[j] == (if j == k + i then 1 else 0)
    requires c[k + i] == Rem2(DotRange(m, col, 0, k))
    ensures Rem2(DotRange(c, row, 0, n)) == 0
  {
    var x := DotRange(m, col, 0, k);
    DotNonNegative(m, col, 0, k);
    DotSplit(c, row, 0, k, n);
    DotTermwise(c, row, m, col, 0, k);
    DotUnitRight(c, row, k, n, k + i);
    var sum := DotRange(c, row, 0, n);
    assert sum == x + x % 2;
    assert sum % 2 == 0 by {
      var q := x / 2;
      assert x == 2 * q + x % 2;
      assert sum == 2 * (q + x % 2);
    }
  }

  /** Null-space invariant G·Hᵗ ≡ 0: every row of G has the zero syndrome under H. */
  lemma GeneratorRowsInNullSpace(g: Matrix, n: nat, k: nat)
    requires IsStandardForm(g, k, n) && k > 0
    ensures forall r :: 0 <= r < k ==> Syndrome(g[r], ParityCheck(g)) == Zeros(n - k)
  {
    forall r | 0 <= r < k ensures Syndrome(g[r], ParityCheck(g)) == Zeros(n - k) {
      var e := seq(k, i => if i == r then 1 else 0);
      EncodeUnit(g, n, k, r);
      CodewordSyndrome(e, g, n, k);
    }
  }

  /** The vector (0…0, s) has syndrome s: every binary syndrome occurs. */
  lemma SyndromeOfParityPart(g: Matrix, n: nat, k: nat, s: seq<int>)
    requires IsStandardForm(g, k, n) && k > 0 && |s| == n - k && IsBinary(s)
    ensures Syndrome(Zeros(k) + s, ParityCheck(g)) == s
  {
    var v := Zeros(k) + s;
    var h := ParityCheck(g);
    forall i | 0 <= i < n - k ensures Syndrome(v, h)[i] == s[i] {
      DotSplit(v, h[i], 0, k, n);
      DotZeroLeft(v, h[i], 0, k);
      DotUnitRight(v, h[i], k, n, k + i);
    }
  }

  /** Flipping bit p of a binary vector adds column p of H to its syndrome: H·(v + e_p) = H·v + H·e_p. */
  lemma SyndromeFlip(v: seq<int>, h: Matrix, p: nat)
    requires RowsWithin(h, |v|) && IsBinary(v) && IsBinaryMatrix(h) && p < |v|
    ensures Syndrome(v[p := Flip(v[p])], h) == Xor(Syndrome(v, h), HColumn(h, p))
  {
    var f := v[p := Flip(v[p])];
    SyndromeBinary(v, h);
    forall i | 0 <= i < |h| ensures Syndrome(f, h)[i] == Xor(Syndrome(v, h), HColumn(h, p))[i] {
      var len := |h[i]|;
      DotUpdate(v, h[i], 0, len, p, Flip(v[p]));
      DotNonNegative(v, h[i], 0, len);
      DotNonNegative(f, h[i], 0, len);
    }
  }

  /** Adding a binary string to the zero string leaves it as it is. */
  lemma XorZeros(b: seq<int>)
    requires IsBinary(b)
    ensures Xor(Zeros(|b|), b) == b
  {
  }

  /** The unit vector e_p has the syndrome H·e_p, column p of H. */
  lemma SyndromeOfUnit(n: nat, h: Matrix, p: nat)
    requires RowsWithin(h, n) && IsBinaryMatrix(h) && p < n
    ensures Syndrome(Zeros(n)[p := 1], h) == HColumn(h, p)
  {
    SyndromeOfZero(n, h);
    SyndromeFlip(Zeros(n), h, p);
    XorZeros(HColumn(h, p));
  }

  // ----- weights -----

  lemma {:induction false} WeightZeroIsZeros(v: seq<int>)
    requires IsBinary(v) && CalculateWeight(v) == 0
    ensures v == Zeros(|v|)
  {
    if v != [] {
      WeightZeroIsZeros(v[..|v| - 1]);
    }
  }

  lemma {:induction false} WeightOfZeros(n: nat)
    ensures CalculateWeight(Zeros(n)) == 0
  {
    if n > 0 {
      assert Zeros(n)[..n - 1] == Zeros(n - 1);
      WeightOfZeros(n - 1);
    }
  }

  /** Changing one entry from a non-1 value to 1 adds one to the weight. */
  lemma {:induction false} WeightSetOne(v: seq<int>, p: nat)
    requires p < |v| && v[p] != 1
    ensures CalculateWeight(v[p := 1]) == CalculateWeight(v) + 1
  {
    var last := |v| - 1;
    assert v[p := 1][..last] == if p < last then v[..last][p := 1] else v[..last];
    if p < last {
      WeightSetOne(v[..last], p);
    }
  }

  lemma WeightOfUnit(n: nat, p: nat)
    requires p < n
    ensures CalculateWeight(Zeros(n)[p := 1]) == 1
  {
    WeightOfZeros(n);
    WeightSetOne(Zeros(n), p);
  }

  // ----- channel and error analysis -----

  /** The positions where the channel output differs from its input are exactly the
      flipped ones, whatever the input values. */
  lemma TransmitErrors(c: seq<int>, flips: seq<bool>)
    requires |c| == |flips|
    ensures forall p :: p in Mismatches(c, Transmit(c, flips, |c|)) <==> 0 <= p < |c| && flips[p]
    ensures flips == seq(|c|, _ => false) ==> Transmit(c, flips, |c|) == c
  {
    var r := Transmit(c, flips, |c|);
    forall p | 0 <= p < |c| ensures c[p] != r[p] <==> flips[p] {
    }
  }
}
