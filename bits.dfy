/** Bit strings as the services see them: lists of ints that are meant to hold 0 and 1,
    read most significant bit first. */
module Bits {

  function Pow2(e: nat): (r: nat)
    ensures r >= 1
  {
    if e == 0 then 1 else 2 * Pow2(e - 1)
  }

  predicate IsBit(x: int) {
    x == 0 || x == 1
  }

  predicate IsBinary(v: seq<int>) {
    forall i :: 0 <= i < |v| ==> IsBit(v[i])
  }

  /** `x == 1 ? 0 : 1`: the bit flip used by the channel and the decoder.
      Any value other than 1 becomes 1. */
  function Flip(x: int): (r: int)
    ensures IsBit(r) && r != x
  {
    if x == 1 then 0 else 1
  }

  function Zeros(n: nat): (r: seq<int>)
    ensures |r| == n && forall i :: 0 <= i < n ==> r[i] == 0
  {
    seq(n, _ => 0)
  }

  /** The n-bit rendering of x, most significant bit first. */
  function ToBits(x: nat, n: nat): (r: seq<int>)
    ensures |r| == n && IsBinary(r)
  {
    if n == 0 then [] else ToBits(x / 2, n - 1) + [x % 2]
  }

  /** The value of a bit string read most significant bit first. */
  function FromBits(v: seq<int>): int
  {
    if v == [] then 0 else 2 * FromBits(v[..|v| - 1]) + v[|v| - 1]
  }

  lemma DivUnique(x: int, a: int, q: int, r: int)
    requires a > 0 && 0 <= r < a && x == a * q + r
    ensures x / a == q && x % a == r
  {
    var q', r' := x / a, x % a;
    assert a * (q - q') == r' - r;
    if q > q' {
      MulAtLeast(a, q - q');
    } else if q < q' {
      MulAtLeast(a, q' - q);
    }
  }

  lemma MulAtLeast(a: int, d: int)
    requires a > 0 && d >= 1
    ensures a * d >= a
  {
  }

  /** Halving and then dividing by 2^m is dividing by 2^(m+1). */
  lemma {:induction false} HalfThenDiv(x: nat, m: nat)
    ensures x / 2 / Pow2(m) == x / Pow2(m + 1)
  {
    var p := Pow2(m);
    var q := x / 2 / p;
    var r := x / 2 % p;
    assert x / 2 == p * q + r;
    assert x == 2 * (x / 2) + x % 2;
    assert x == (2 * p) * q + (2 * r + x % 2);
    DivUnique(x, 2 * p, q, 2 * r + x % 2);
  }

  /** Bit j of the n-bit rendering of x is `(x >> (n-1-j)) & 1`. */
  lemma {:induction false} ToBitsAt(x: nat, n: nat, j: nat)
    requires j < n
    ensures ToBits(x, n)[j] == (x / Pow2(n - 1 - j)) % 2
  {
    if j < n - 1 {
      ToBitsAt(x / 2, n - 1, j);
      HalfThenDiv(x, n - 2 - j);
    }
  }

  /** The first n - j bits of the rendering are the first n - 1 - j bits followed by
      `(x >> j) & 1`. */
  lemma ToBitsPrefix(x: nat, n: nat, j: nat)
    requires j < n
    ensures ToBits(x, n)[..n - j] == ToBits(x, n)[..n - 1 - j] + [(x / Pow2(j)) % 2]
  {
    ToBitsAt(x, n, n - 1 - j);
    assert n - 1 - (n - 1 - j) == j;
  }

  lemma {:induction false} FromBitsToBits(x: nat, n: nat)
    requires x < Pow2(n)
    ensures FromBits(ToBits(x, n)) == x
  {
    if n > 0 {
      var v := ToBits(x, n);
      assert v[..n - 1] == ToBits(x / 2, n - 1);
      FromBitsToBits(x / 2, n - 1);
    }
  }

  lemma {:induction false} ToBitsFromBits(v: seq<int>)
    requires IsBinary(v)
    ensures 0 <= FromBits(v) < Pow2(|v|)
    ensures ToBits(FromBits(v), |v|) == v
  {
    if v != [] {
      var init := v[..|v| - 1];
      ToBitsFromBits(init);
      var x := FromBits(v);
      assert x == 2 * FromBits(init) + v[|v| - 1];
      DivUnique(x, 2, FromBits(init), v[|v| - 1]);
      assert v == init + [v[|v| - 1]];
    }
  }

  /** The 2^n bit strings of length n, in the order of the integers they render. */
  function AllVectors(n: nat): (r: seq<seq<int>>)
    ensures |r| == Pow2(n)
  {
    seq(Pow2(n), i requires 0 <= i < Pow2(n) => ToBits(i, n))
  }

  /** AllVectors(n) lists every binary vector of length n, and nothing else, exactly once. */
  lemma AllVectorsExactly(n: nat)
    ensures forall v :: v in AllVectors(n) <==> |v| == n && IsBinary(v)
    ensures forall i, j :: 0 <= i < j < Pow2(n) ==> AllVectors(n)[i] != AllVectors(n)[j]
  {
    var all := AllVectors(n);
    forall v | |v| == n && IsBinary(v) ensures v in all {
      ToBitsFromBits(v);
      assert all[FromBits(v)] == v;
    }
    forall i, j | 0 <= i < j < Pow2(n) ensures all[i] != all[j] {
      FromBitsToBits(i, n);
      FromBitsToBits(j, n);
    }
  }
}
