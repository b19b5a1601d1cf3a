/** The decision procedure of DecodeVector, and of DecodeVectorChunks, which runs the same
    procedure with a table it is handed: look up the weight w of the received syndrome;
    if it is 0 keep the vector, otherwise scan i = 0 .. n-1 once, flipping bit i, stopping
    as soon as the new syndrome's weight is 0, keeping the flip when it lowers w and
    undoing it otherwise. */
module Decoding {
  import opened Bits
  import opened Codes
  import opened StandardTable

  /** The scan from position i with tracked weight w. */
  function GreedyPass(v: seq<int>, h: Matrix, table: seq<Entry>, n: nat, i: nat, w: int): (r: seq<int>)
    requires i <= n <= |v| && RowsWithin(h, |v|)
    ensures |r| == |v|
    ensures forall j :: 0 <= j < |v| && !(i <= j < n) ==> r[j] == v[j]
    ensures IsBinary(v) ==> IsBinary(r)
    decreases n - i
  {
    if i == n then v
    else
      var f := v[i := Flip(v[i])];
      var wNew := Lookup(table, Syndrome(f, h));
      if wNew == 0 then f
      else if wNew < w then GreedyPass(f, h, table, n, i + 1, wNew)
      else GreedyPass(f[i := Flip(f[i])], h, table, n, i + 1, w)
  }

  /** DecodeVector(v, G, H) with the table of (n, k, H) given: only the first n positions
      may change, and a vector whose syndrome has weight 0 comes back as it is. */
  function GreedyDecode(v: seq<int>, h: Matrix, table: seq<Entry>, n: nat): (r: seq<int>)
    requires n <= |v| && RowsWithin(h, |v|)
    ensures |r| == |v|
    ensures forall j :: n <= j < |v| ==> r[j] == v[j]
    ensures IsBinary(v) ==> IsBinary(r)
    ensures Lookup(table, Syndrome(v, h)) == 0 ==> r == v
  {
    var w := Lookup(table, Syndrome(v, h));
    if w == 0 then v else GreedyPass(v, h, table, n, 0, w)
  }

  /** The tracked weight never increases: on a binary vector whose syndrome weighs w, the
      scan ends on a vector whose syndrome weighs 0 or at most w. */
  lemma {:induction false} GreedyPassWeight(v: seq<int>, h: Matrix, table: seq<Entry>, n: nat, i: nat, w: int)
    requires i <= n <= |v| && RowsWithin(h, |v|)
    requires IsBinary(v) && Lookup(table, Syndrome(v, h)) == w
    ensures var r := GreedyPass(v, h, table, n, i, w);
      Lookup(table, Syndrome(r, h)) == 0 || Lookup(table, Syndrome(r, h)) <= w
    decreases n - i
  {
    if i < n {
      var f := v[i := Flip(v[i])];
      var wNew := Lookup(table, Syndrome(f, h));
      if wNew != 0 {
        if wNew < w {
          GreedyPassWeight(f, h, table, n, i + 1, wNew);
        } else {
          assert f[i := Flip(f[i])] == v;
          GreedyPassWeight(v, h, table, n, i + 1, w);
        }
      }
    }
  }

  /** Decoding a binary vector never ends on a syndrome that weighs more than the received one. */
  lemma GreedyDecodeWeight(v: seq<int>, h: Matrix, table: seq<Entry>, n: nat)
    requires n <= |v| && RowsWithin(h, |v|) && IsBinary(v)
    ensures var r := GreedyDecode(v, h, table, n);
      Lookup(table, Syndrome(r, h)) == 0 ||
      Lookup(table, Syndrome(r, h)) <= Lookup(table, Syndrome(v, h))
  {
    var w := Lookup(table, Syndrome(v, h));
    if w != 0 {
      GreedyPassWeight(v, h, table, n, 0, w);
    }
  }

  /** A table whose lookup of the syndrome of every binary vector of length n returns the
      least weight in that vector's coset: what the reduced table of a standard-form code
      provides (StandardMinimalTable), and all the decoder relies on. */
  ghost predicate MinimalTable(table: seq<Entry>, h: Matrix, n: nat)
    requires RowsWithin(h, n)
  {
    forall v {:trigger Syndrome(v, h)} :: |v| == n && IsBinary(v) ==>
      IsCosetMinimum(h, n, Syndrome(v, h), Lookup(table, Syndrome(v, h)))
  }

  /** The reduced table of H derived from a standard-form G is a minimal table. */
  lemma StandardMinimalTable(g: Matrix, n: nat, k: nat)
    requires IsStandardForm(g, k, n) && k > 0
    ensures RowsWithin(ParityCheck(g), n)
    ensures MinimalTable(ReducedTable(n, k, ParityCheck(g)), ParityCheck(g), n)
  {
    ParityCheckShape(g, n, k);
    var h := ParityCheck(g);
    forall v | |v| == n && IsBinary(v)
      ensures IsCosetMinimum(h, n, Syndrome(v, h), Lookup(ReducedTable(n, k, h), Syndrome(v, h)))
    {
      StandardLookup(g, n, k, v);
    }
  }

  /** With a minimal table, a binary vector's syndrome is looked up as weight 0 exactly when
      the syndrome is zero, i.e. the vector is a codeword; no syndrome is missing. */
  lemma LookupZero(h: Matrix, n: nat, table: seq<Entry>, v: seq<int>)
    requires RowsWithin(h, n) && MinimalTable(table, h, n) && |v| == n && IsBinary(v)
    ensures var w := Lookup(table, Syndrome(v, h));
      && w >= 0
      && (w == 0 <==> Syndrome(v, h) == Zeros(|h|))
  {
    var s := Syndrome(v, h);
    var w := Lookup(table, s);
    assert IsCosetMinimum(h, n, s, w);
    var u :| |u| == n && IsBinary(u) && Syndrome(u, h) == s && CalculateWeight(u) == w;
    SyndromeOfZero(n, h);
    if s == Zeros(|h|) {
      WeightOfZeros(n);
      assert w <= CalculateWeight(Zeros(n));
    }
    if w == 0 {
      WeightZeroIsZeros(u);
    }
  }

  /** H derived from a standard-form G is a binary (n-k) x n matrix. */
  lemma ParityCheckShape(g: Matrix, n: nat, k: nat)
    requires IsStandardForm(g, k, n) && k > 0
    ensures IsMatrix(ParityCheck(g), n - k, n) && IsBinaryMatrix(ParityCheck(g))
  {
    var h := ParityCheck(g);
    forall i, j | 0 <= i < n - k && 0 <= j < n ensures IsBit(h[i][j]) {
      if j < k {
        assert IsBinary(g[j]);
      }
    }
  }

  /** The noiseless round trip: decoding a codeword m·G leaves it as it is, so its first k
      bits give m back (G = [I_k | A] is systematic). */
  lemma NoiselessRoundTrip(g: Matrix, n: nat, k: nat, m: seq<int>)
    requires IsStandardForm(g, k, n) && k > 0 && |m| == k && IsBinary(m)
    ensures var h := ParityCheck(g);
      var c := Encode(m, g, n, k);
      && GreedyDecode(c, h, ReducedTable(n, k, h), n) == c
      && GetPrimaryVector(k, GreedyDecode(c, h, ReducedTable(n, k, h), n)) == m
  {
    var h := ParityCheck(g);
    var c := Encode(m, g, n, k);
    ParityCheckShape(g, n, k);
    StandardMinimalTable(g, n, k);
    EncodeBinary(m, g, n, k);
    CodewordSyndrome(m, g, n, k);
    LookupZero(h, n, ReducedTable(n, k, h), c);
    EncodeSystematic(m, g, n, k);
  }

  /** Columns of H are pairwise distinct and nonzero (the Hamming condition: every single
      error has its own nonzero syndrome). */
  ghost predicate DistinctNonzeroColumns(h: Matrix, n: nat) {
    && (forall a :: 0 <= a < n ==> HColumn(h, a) != Zeros(|h|))
    && (forall a, b :: 0 <= a < b < n ==> HColumn(h, a) != HColumn(h, b))
  }

  /** Scanning positions i .. p-1 of the codeword c with bit p flipped: every flip there leaves
      a syndrome of weight at least 1, so it is undone, and the flip at p reaches weight 0. */
  lemma {:induction false} ScanToError(c: seq<int>, v: seq<int>, h: Matrix, table: seq<Entry>, n: nat, p: nat, i: nat)
    requires |c| == n && p < n && i <= p && RowsWithin(h, n)
    requires IsBinary(c) && v == c[p := Flip(c[p])]
    requires Lookup(table, Syndrome(c, h)) == 0
    requires forall j :: i <= j < p ==> Lookup(table, Syndrome(v[j := Flip(v[j])], h)) >= 1
    ensures GreedyPass(v, h, table, n, i, 1) == c
    decreases p - i
  {
    if i < p {
      assert v[i := Flip(v[i])][i := Flip(Flip(v[i]))] == v;
      ScanToError(c, v, h, table, n, p, i + 1);
    } else {
      assert v[p := Flip(v[p])] == c;
    }
  }

  /** A nonzero syndrome equal to column p of H has coset minimum 1: e_p lies in its coset. */
  lemma CosetOfColumn(h: Matrix, n: nat, s: seq<int>, w: int, p: nat)
    requires RowsWithin(h, n) && IsBinaryMatrix(h) && p < n
    requires IsCosetMinimum(h, n, s, w)
    requires s == HColumn(h, p) && s != Zeros(|h|)
    ensures w == 1
  {
    var u :| |u| == n && IsBinary(u) && Syndrome(u, h) == s && CalculateWeight(u) == w;
    SyndromeOfUnit(n, h, p);
    WeightOfUnit(n, p);
    assert w <= CalculateWeight(Zeros(n)[p := 1]);
    if w == 0 {
      WeightZeroIsZeros(u);
      SyndromeOfZero(n, h);
    }
  }

  /** In a codeword with bit p flipped, the syndrome is column p of H and weighs exactly 1. */
  lemma SingleErrorWeight(h: Matrix, n: nat, table: seq<Entry>, c: seq<int>, p: nat)
    requires RowsWithin(h, n) && IsBinaryMatrix(h) && MinimalTable(table, h, n)
    requires |c| == n && IsBinary(c) && p < n
    requires Syndrome(c, h) == Zeros(|h|) && HColumn(h, p) != Zeros(|h|)
    ensures Syndrome(c[p := Flip(c[p])], h) == HColumn(h, p)
    ensures Lookup(table, Syndrome(c[p := Flip(c[p])], h)) == 1
  {
    var v := c[p := Flip(c[p])];
    SyndromeFlip(c, h, p);
    XorZeros(HColumn(h, p));
    assert IsBinary(v);
    assert IsCosetMinimum(h, n, Syndrome(v, h), Lookup(table, Syndrome(v, h)));
    CosetOfColumn(h, n, Syndrome(v, h), Lookup(table, Syndrome(v, h)), p);
  }

  /** Flipping a second bit j != p leaves column p plus column j, which is not zero when the
      two columns differ, so its weight is at least 1. */
  lemma SecondFlipWeight(h: Matrix, n: nat, table: seq<Entry>, v: seq<int>, p: nat, j: nat)
    requires RowsWithin(h, n) && IsBinaryMatrix(h) && MinimalTable(table, h, n)
    requires |v| == n && IsBinary(v) && p < n && j < n
    requires Syndrome(v, h) == HColumn(h, p) && HColumn(h, j) != HColumn(h, p)
    ensures Lookup(table, Syndrome(v[j := Flip(v[j])], h)) >= 1
  {
    var x := Syndrome(v[j := Flip(v[j])], h);
    SyndromeFlip(v, h, j);
    var q :| 0 <= q < |h| && HColumn(h, j)[q] != HColumn(h, p)[q];
    assert x[q] != 0;
    LookupZero(h, n, table, v[j := Flip(v[j])]);
  }

  /** With distinct columns, every flip of a bit j before the error position p leaves a
      syndrome of weight at least 1. */
  lemma EarlierFlipsWeigh(h: Matrix, n: nat, table: seq<Entry>, v: seq<int>, p: nat)
    requires RowsWithin(h, n) && IsBinaryMatrix(h) && MinimalTable(table, h, n)
    requires |v| == n && IsBinary(v) && p < n
    requires Syndrome(v, h) == HColumn(h, p) && DistinctNonzeroColumns(h, n)
    ensures forall j :: 0 <= j < p ==> Lookup(table, Syndrome(v[j := Flip(v[j])], h)) >= 1
  {
    forall j | 0 <= j < p ensures Lookup(table, Syndrome(v[j := Flip(v[j])], h)) >= 1 {
      assert HColumn(h, j) != HColumn(h, p);
      SecondFlipWeight(h, n, table, v, p, j);
    }
  }

  /** With a minimal table, any binary word with the zero syndrome, with bit p flipped,
      decodes back to the word. */
  lemma SingleErrorInCodeword(h: Matrix, n: nat, table: seq<Entry>, c: seq<int>, p: nat)
    requires RowsWithin(h, n) && IsBinaryMatrix(h) && MinimalTable(table, h, n)
    requires |c| == n && IsBinary(c) && p < n
    requires Syndrome(c, h) == Zeros(|h|) && DistinctNonzeroColumns(h, n)
    ensures GreedyDecode(c[p := Flip(c[p])], h, table, n) == c
  {
    var v := c[p := Flip(c[p])];
    LookupZero(h, n, table, c);
    assert HColumn(h, p) != Zeros(|h|);
    SingleErrorWeight(h, n, table, c, p);
    assert IsBinary(v);
    EarlierFlipsWeigh(h, n, table, v, p);
    ScanToError(c, v, h, table, n, p, 0);
  }

  /** With H derived from a standard-form G and its reduced table, any binary word with the
      zero syndrome, with bit p flipped, decodes back to the word when the columns of H are
      distinct and nonzero. */
  lemma StandardSingleError(g: Matrix, n: nat, k: nat, c: seq<int>, p: nat)
    requires IsStandardForm(g, k, n) && k > 0 && |c| == n && IsBinary(c) && p < n
    requires Syndrome(c, ParityCheck(g)) == Zeros(n - k)
    requires DistinctNonzeroColumns(ParityCheck(g), n)
    ensures var h := ParityCheck(g);
      GreedyDecode(c[p := Flip(c[p])], h, ReducedTable(n, k, h), n) == c
  {
    var h := ParityCheck(g);
    ParityCheckShape(g, n, k);
    StandardMinimalTable(g, n, k);
    SingleErrorInCodeword(h, n, ReducedTable(n, k, h), c, p);
  }

  /** When the columns of H are distinct and nonzero, the decoder corrects any single error in
      a codeword: flipping bit p of m·G and decoding gives m·G back. */
  lemma SingleErrorCorrected(g: Matrix, n: nat, k: nat, m: seq<int>, p: nat)
    requires IsStandardForm(g, k, n) && k > 0 && |m| == k && IsBinary(m) && p < n
    requires DistinctNonzeroColumns(ParityCheck(g), n)
    ensures var h := ParityCheck(g);
      var c := Encode(m, g, n, k);
      GreedyDecode(c[p := Flip(c[p])], h, ReducedTable(n, k, h), n) == c
  {
    EncodeBinary(m, g, n, k);
    CodewordSyndrome(m, g, n, k);
    StandardSingleError(g, n, k, Encode(m, g, n, k), p);
  }
}
