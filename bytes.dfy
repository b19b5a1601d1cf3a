/** Bytes and their 8-bit renderings, as TextService converts them: ConvertByteToBinary
    writes a byte most significant bit first, ConvertBinaryToByte ORs `(byte)(bit << (7-i))`
    into an accumulator, and the text pipeline expands a byte string into bits and packs a
    bit string back into bytes. */
module Bytes {
  import opened Bits

  newtype byte = x: int | 0 <= x < 256

  /** A value, or the message of the exception thrown instead. */
  datatype Result<T> = Success(value: T) | Failure(error: string)

  /** Bitwise OR of two naturals. */
  function BitOr(a: nat, b: nat): nat
    decreases a + b
  {
    if a == 0 && b == 0 then 0
    else 2 * BitOr(a / 2, b / 2) + (if a % 2 == 1 || b % 2 == 1 then 1 else 0)
  }

  lemma {:induction false} BitOrZero(a: nat)
    ensures BitOr(a, 0) == a
    decreases a
  {
    if a != 0 {
      BitOrZero(a / 2);
    }
  }

  /** OR never sets a bit above the highest bit of its operands. */
  lemma {:induction false} BitOrBound(a: nat, b: nat, m: nat)
    requires a < Pow2(m) && b < Pow2(m)
    ensures BitOr(a, b) < Pow2(m)
    decreases m
  {
    if m > 0 && !(a == 0 && b == 0) {
      BitOrBound(a / 2, b / 2, m - 1);
    }
  }

  /** Doubling both operands doubles their OR. */
  lemma BitOrDouble(a: nat, c: nat)
    ensures BitOr(2 * a, 2 * c) == 2 * BitOr(a, c)
  {
    assert (2 * a) / 2 == a && (2 * c) / 2 == c && (2 * a) % 2 == 0 && (2 * c) % 2 == 0;
  }

  /** x shifted left by t places, that is x * 2^t, written without a product. */
  function Shl(x: int, t: nat): (r: int)
    ensures x >= 0 ==> r >= 0
  {
    if t == 0 then x else 2 * Shl(x, t - 1)
  }

  /** Appending bit b to x and shifting by t puts x at t + 1 and b at t. */
  lemma {:induction false} ShlAppend(x: int, b: int, t: nat)
    ensures Shl(2 * x + b, t) == Shl(x, t + 1) + Shl(b, t)
    decreases t
  {
    if t > 0 {
      ShlAppend(x, b, t - 1);
    }
  }

  lemma {:induction false} ShlBit(b: int, t: nat)
    requires IsBit(b)
    ensures Shl(b, t) == if b == 0 then 0 else Pow2(t)
    decreases t
  {
    if t > 0 {
      ShlBit(b, t - 1);
    }
  }

  /** ORing a 0 or 1 into an even number is adding it. */
  lemma BitOrLowBit(a: nat, b: nat)
    requires a % 2 == 0 && b <= 1
    ensures BitOr(a, b) == a + b
  {
    if a != 0 || b != 0 {
      assert b / 2 == 0 && b % 2 == b;
      assert BitOr(a, b) == 2 * BitOr(a / 2, 0) + b;
      BitOrZero(a / 2);
    }
  }

  /** ORing bit b into position t of a value whose bits are all above t is adding it. */
  lemma {:induction false} BitOrDisjoint(x: nat, b: nat, t: nat)
    requires b <= 1
    ensures BitOr(Shl(x, t + 1), Shl(b, t)) == Shl(x, t + 1) + Shl(b, t)
    decreases t
  {
    var hi, lo := Shl(x, t + 1), Shl(b, t);
    if t == 0 {
      assert hi == 2 * x && lo == b;
      BitOrLowBit(hi, lo);
    } else {
      assert hi == 2 * Shl(x, t) && lo == 2 * Shl(b, t - 1);
      BitOrDisjoint(x, b, t - 1);
      BitOrDouble(Shl(x, t), Shl(b, t - 1));
    }
  }

  /** An accumulator holding x above position t, ORed with bit b at position t, holds the
      number x followed by b, above position t - 1. */
  lemma PackStep(acc: nat, part: nat, x: nat, b: nat, t: nat)
    requires b <= 1 && acc == Shl(x, t + 1) && part == Shl(b, t)
    ensures BitOr(acc, part) == Shl(2 * x + b, t)
  {
    BitOrDisjoint(x, b, t);
    ShlAppend(x, b, t);
  }

  /** `(byte)(x << s)`: the low 8 bits of x * 2^s, whatever the sign of x. */
  function ShiftToByte(x: int, s: nat): byte
  {
    (Shl(x, s) % 256) as byte
  }

  /** Shifting a 0 or 1 by less than 8 loses nothing. */
  lemma ShiftBit(x: int, s: nat)
    requires IsBit(x) && s < 8
    ensures ShiftToByte(x, s) as int == Shl(x, s)
  {
    ShlBit(x, s);
    PowMonotone(s, 7);
    assert Pow2(7) == 128;
  }

  lemma {:induction false} PowMonotone(a: nat, b: nat)
    requires a <= b
    ensures Pow2(a) <= Pow2(b)
    decreases b
  {
    if a < b {
      PowMonotone(a, b - 1);
    }
  }

  /** The accumulator of ConvertBinaryToByte after the first i steps. */
  function PackPrefix(bits: seq<int>, i: nat): byte
    requires i <= |bits| && i <= 8
  {
    if i == 0 then 0
    else
      var acc := PackPrefix(bits, i - 1) as nat;
      var part := ShiftToByte(bits[i - 1], 8 - i) as nat;
      assert Pow2(8) == 256;
      BitOrBound(acc, part, 8);
      BitOr(acc, part) as byte
  }

  /** On binary input the accumulator after i steps holds the first i bits, shifted into the
      top of the byte. */
  lemma {:induction false} PackPrefixValue(bits: seq<int>, i: nat)
    requires i <= |bits| && i <= 8 && IsBinary(bits)
    ensures PackPrefix(bits, i) as int == Shl(FromBits(bits[..i]), 8 - i)
  {
    if i > 0 {
      PackPrefixValue(bits, i - 1);
      var t := 8 - i;
      var b := bits[i - 1];
      var x := FromBits(bits[..i - 1]);
      FromBitsPrefix(bits, i);
      PackPrefixStep(bits, i - 1);
      ShiftBit(b, t);
      PackStep(PackPrefix(bits, i - 1) as nat, ShiftToByte(b, t) as nat, x, b, t);
    }
  }

  /** The number rendered by the first i bits: that of the first i - 1, then bit i - 1. */
  lemma FromBitsPrefix(bits: seq<int>, i: nat)
    requires 0 < i <= |bits| && IsBinary(bits)
    ensures FromBits(bits[..i - 1]) >= 0
    ensures FromBits(bits[..i]) == 2 * FromBits(bits[..i - 1]) + bits[i - 1]
  {
    ToBitsFromBits(bits[..i - 1]);
    assert bits[..i][..i - 1] == bits[..i - 1];
  }

  /** One more step of the accumulator: OR in bit i shifted to position 7 - i. */
  lemma PackPrefixStep(bits: seq<int>, i: nat)
    requires i < |bits| && i < 8
    ensures PackPrefix(bits, i + 1) as int == BitOr(PackPrefix(bits, i) as nat, ShiftToByte(bits[i], 7 - i) as nat)
  {
  }

  /** Eight bits that are all 0 or 1 pack into the number they render. */
  lemma PackedValue(bits: seq<int>)
    requires |bits| == 8 && IsBinary(bits)
    ensures PackPrefix(bits, 8) as int == FromBits(bits)
  {
    PackPrefixValue(bits, 8);
    assert bits[..8] == bits;
  }

  /** Packing the 8-bit rendering of a byte gives the byte back. */
  lemma ByteRoundTrip(b: byte)
    ensures PackPrefix(ToBits(b as nat, 8), 8) == b
  {
    var bits := ToBits(b as nat, 8);
    assert Pow2(8) == 256;
    FromBitsToBits(b as nat, 8);
    PackedValue(bits);
  }

  /** Rendering a packed 8-bit binary list gives the list back. */
  lemma BitsRoundTrip(bits: seq<int>)
    requires |bits| == 8 && IsBinary(bits)
    ensures ToBits(PackPrefix(bits, 8) as nat, 8) == bits
  {
    PackedValue(bits);
    ToBitsFromBits(bits);
  }

  /** The bits of a byte string: each byte's 8-bit rendering, in order. */
  function BytesToBits(bytes: seq<byte>): (r: seq<int>)
    ensures |r| == 8 * |bytes| && IsBinary(r)
  {
    if bytes == [] then [] else BytesToBits(bytes[..|bytes| - 1]) + ToBits(bytes[|bytes| - 1] as nat, 8)
  }

  lemma BytesToBitsSnoc(bytes: seq<byte>, b: nat)
    requires b < |bytes|
    ensures BytesToBits(bytes[..b + 1]) == BytesToBits(bytes[..b]) + ToBits(bytes[b] as nat, 8)
  {
    assert bytes[..b + 1][..b] == bytes[..b];
  }

  lemma {:induction false} BytesToBitsAt(bytes: seq<byte>, j: nat)
    requires j < |bytes|
    ensures BytesToBits(bytes)[8 * j..8 * j + 8] == ToBits(bytes[j] as nat, 8)
  {
    var init := bytes[..|bytes| - 1];
    if j < |bytes| - 1 {
      BytesToBitsAt(init, j);
      assert init[j] == bytes[j];
    }
  }

  /** Whole bytes packed from a bit string, 8 bits at a time; a trailing group of fewer
      than 8 bits is dropped. */
  function PackBytes(data: seq<int>): (r: seq<byte>)
    ensures |r| == |data| / 8
  {
    seq(|data| / 8, j requires 0 <= j < |data| / 8 => PackPrefix(data[8 * j..8 * j + 8], 8))
  }

  /** Byte j of the packed bits of a byte string is byte j of the string. */
  lemma PackBytesAt(bytes: seq<byte>, j: nat)
    requires j < |bytes|
    ensures |PackBytes(BytesToBits(bytes))| == |bytes|
    ensures PackBytes(BytesToBits(bytes))[j] == bytes[j]
  {
    var data := BytesToBits(bytes);
    DivUnique(|data|, 8, |bytes|, 0);
    BytesToBitsAt(bytes, j);
    ByteRoundTrip(bytes[j]);
  }

  /** Expanding bytes into bits and packing them again gives the bytes back. */
  lemma PackBytesToBits(bytes: seq<byte>)
    ensures PackBytes(BytesToBits(bytes)) == bytes
  {
    var r := PackBytes(BytesToBits(bytes));
    DivUnique(|BytesToBits(bytes)|, 8, |bytes|, 0);
    forall j | 0 <= j < |bytes| ensures r[j] == bytes[j] {
      PackBytesAt(bytes, j);
    }
  }
}
