/** TextService.cs: the text pipeline around VectorService. Text becomes bytes, bytes become
    bits (most significant first), the bits are cut into k-bit chunks plus a shorter
    remainder, every chunk is encoded, sent through the channel and decoded in place, the
    first k bits of every chunk are kept, the remainder is appended, and the bits are packed
    back into bytes. Each method is proved against the functions of Bytes, Chunks, Codes
    and Decoding; the last lemmas follow a whole text through the pipeline. */
module TextService {
  import opened Bits
  import opened Bytes
  import opened Chunks
  import opened Codes
  import opened StandardTable
  import opened Decoding
  import VectorService

  /** GetEncodedChunks(n, k, G, chunks): EncodeVector applied to every chunk, in order. */
  method GetEncodedChunks(n: nat, k: nat, g: Matrix, binaryChunks: seq<seq<int>>) returns (encodedChunks: seq<seq<int>>)
    requires forall j :: 0 <= j < |binaryChunks| ==> EncodeDefined(binaryChunks[j], g, n, k)
    ensures |encodedChunks| == |binaryChunks|
    ensures forall j :: 0 <= j < |binaryChunks| ==> encodedChunks[j] == Encode(binaryChunks[j], g, n, k)
  {
    encodedChunks := [];
    var i := 0;
    while i < |binaryChunks|
      invariant 0 <= i <= |binaryChunks|
      invariant |encodedChunks| == i
      invariant forall j :: 0 <= j < i ==> encodedChunks[j] == Encode(binaryChunks[j], g, n, k)
    {
      var encodedChunk := VectorService.EncodeVector(n, k, binaryChunks[i], g);
      encodedChunks := encodedChunks + [encodedChunk];
      i := i + 1;
    }
  }

  /** GetDecodedChunks(G, H, chunks): builds the reduced table for n = |G[0]|, k = |G| once,
      then decodes every chunk in place with it and returns the same chunks. */
  method GetDecodedChunks(g: Matrix, h: Matrix, receivedChunks: seq<array<int>>) returns (decodedChunks: seq<array<int>>)
    requires |g| > 0 && |g| <= |g[0]| < 31 && RowsWithin(h, |g[0]|)
    requires forall j :: 0 <= j < |receivedChunks| ==> |g[0]| <= receivedChunks[j].Length
    requires forall a, b :: 0 <= a < |receivedChunks| && 0 <= b < |receivedChunks| && a != b ==>
      receivedChunks[a] != receivedChunks[b]
    modifies set a | a in receivedChunks
    ensures decodedChunks == receivedChunks
    ensures forall j :: 0 <= j < |receivedChunks| ==>
      receivedChunks[j][..] == GreedyDecode(old(receivedChunks[j][..]), h, ReducedTable(|g[0]|, |g|, h), |g[0]|)
  {
    var reducedTable := VectorService.GenerateReducedStandardTable(|g[0]|, |g|, h);
    decodedChunks := DecodeEachChunk(g, h, receivedChunks, reducedTable);
  }

  /** The loop of GetDecodedChunks: DecodeVectorChunks on every chunk, in order, with the one
      table. The chunks are distinct lists, so decoding one leaves the others alone. */
  method DecodeEachChunk(g: Matrix, h: Matrix, receivedChunks: seq<array<int>>, reducedTable: seq<Entry>)
    returns (decodedChunks: seq<array<int>>)
    requires |g| > 0
    requires forall j :: 0 <= j < |receivedChunks| ==>
      |g[0]| <= receivedChunks[j].Length && RowsWithin(h, receivedChunks[j].Length)
    requires forall a, b :: 0 <= a < |receivedChunks| && 0 <= b < |receivedChunks| && a != b ==>
      receivedChunks[a] != receivedChunks[b]
    modifies set a | a in receivedChunks
    ensures decodedChunks == receivedChunks
    ensures forall j :: 0 <= j < |receivedChunks| ==>
      receivedChunks[j][..] == GreedyDecode(old(receivedChunks[j][..]), h, reducedTable, |g[0]|)
  {
    var n := |g[0]|;
    decodedChunks := [];
    var i := 0;
    while i < |receivedChunks|
      invariant 0 <= i <= |receivedChunks|
      invariant decodedChunks == receivedChunks[..i]
      invariant forall j :: 0 <= j < i ==>
        receivedChunks[j][..] == GreedyDecode(old(receivedChunks[j][..]), h, reducedTable, n)
      invariant forall j :: i <= j < |receivedChunks| ==> receivedChunks[j][..] == old(receivedChunks[j][..])
    {
      label before:
      var decodedChunk := DecodeVectorChunks(receivedChunks[i], g, h, reducedTable);
      forall j | 0 <= j < |receivedChunks| && j != i
        ensures receivedChunks[j][..] == old@before(receivedChunks[j][..])
      {
        assert receivedChunks[j] != receivedChunks[i];
      }
      decodedChunks := decodedChunks + [decodedChunk];
      i := i + 1;
    }
  }

  /** DecodeVectorChunks(received, G, H, table): the decoder of DecodeVector with the table
      passed in; decodes the caller's vector in place and returns that same vector. */
  method DecodeVectorChunks(receivedVector: array<int>, g: Matrix, h: Matrix, reducedTable: seq<Entry>)
    returns (decoded: array<int>)
    requires |g| > 0 && |g[0]| <= receivedVector.Length && RowsWithin(h, receivedVector.Length)
    modifies receivedVector
    ensures decoded == receivedVector
    ensures receivedVector[..] == GreedyDecode(old(receivedVector[..]), h, reducedTable, |g[0]|)
  {
    var n := |g[0]|;
    decoded := receivedVector;
    var syndrome := VectorService.CalculateSyndrome(receivedVector[..], h);
    var w := VectorService.FindWeightFromSindrome(reducedTable, syndrome);
    if w == 0 {
      return;
    }
    var i := 0;
    while i < n
      invariant 0 <= i <= n
      invariant GreedyPass(receivedVector[..], h, reducedTable, n, i, w) ==
        GreedyDecode(old(receivedVector[..]), h, reducedTable, n)
    {
      receivedVector[i] := if receivedVector[i] == 1 then 0 else 1;
      syndrome := VectorService.CalculateSyndrome(receivedVector[..], h);
      var wNew := VectorService.FindWeightFromSindrome(reducedTable, syndrome);
      if wNew == 0 {
        return;
      } else if wNew < w {
        w := wNew;
      } else {
        receivedVector[i] := if receivedVector[i] == 1 then 0 else 1;
      }
      i := i + 1;
    }
  }

  /** ConvertTextToBinaryChunks on the UTF-8 bytes of the text: the bytes rendered as bits,
      then cut into chunks of k bits; a last piece shorter than k becomes the remainder. */
  method ConvertTextToBinaryChunks(textBytes: seq<byte>, k: nat) returns (binaryChunks: seq<seq<int>>, remainingBits: seq<int>)
    requires k > 0
    ensures (binaryChunks, remainingBits) == SplitChunks(BytesToBits(textBytes), k)
    ensures Flatten(binaryChunks) + remainingBits == BytesToBits(textBytes)
  {
    var binaryData: seq<int> := [];
    var b := 0;
    while b < |textBytes|
      invariant 0 <= b <= |textBytes|
      invariant binaryData == BytesToBits(textBytes[..b])
    {
      var bits := ConvertByteToBinary(textBytes[b]);
      BytesToBitsSnoc(textBytes, b);
      binaryData := binaryData + bits;
      b := b + 1;
    }
    assert textBytes[..b] == textBytes;
    binaryChunks := [];
    remainingBits := [];
    var i := 0;
    while i < |binaryData|
      invariant 0 <= i <= |binaryData|
      invariant remainingBits == []
      invariant binaryChunks + SplitChunks(binaryData[i..], k).0 == SplitChunks(binaryData, k).0
      invariant SplitChunks(binaryData[i..], k).1 == SplitChunks(binaryData, k).1
    {
      var chunk := binaryData[i..if i + k <= |binaryData| then i + k else |binaryData|];
      if |chunk| < k {
        remainingBits := chunk;
        break;
      }
      assert chunk == binaryData[i..i + k];
      SplitChunksStep(binaryData, i, k);
      assert binaryChunks + [chunk] + SplitChunks(binaryData[i + k..], k).0 ==
        binaryChunks + ([chunk] + SplitChunks(binaryData[i + k..], k).0);
      binaryChunks := binaryChunks + [chunk];
      i := i + k;
    }
    assert remainingBits == binaryData[i..];
    SplitChunksShort(binaryData, i, k);
    assert binaryChunks + [] == binaryChunks;
    SplitChunksJoin(binaryData, k);
  }

  /** GetReceivedChunks(n, pe, chunks) with the draws of the shared generator given as one
      flip mask per chunk: every chunk sent through SendVectorChunks, in order. */
  method GetReceivedChunks(n: nat, encodedChunks: seq<seq<int>>, masks: seq<seq<bool>>) returns (receivedChunks: seq<seq<int>>)
    requires |masks| == |encodedChunks|
    requires forall j :: 0 <= j < |encodedChunks| ==> n <= |encodedChunks[j]| && n <= |masks[j]|
    ensures |receivedChunks| == |encodedChunks|
    ensures forall j :: 0 <= j < |encodedChunks| ==> receivedChunks[j] == Transmit(encodedChunks[j], masks[j], n)
  {
    receivedChunks := [];
    var i := 0;
    while i < |encodedChunks|
      invariant 0 <= i <= |encodedChunks|
      invariant |receivedChunks| == i
      invariant forall j :: 0 <= j < i ==> receivedChunks[j] == Transmit(encodedChunks[j], masks[j], n)
    {
      var receivedChunk := SendVectorChunks(n, encodedChunks[i], masks[i]);
      receivedChunks := receivedChunks + [receivedChunk];
      i := i + 1;
    }
  }

  /** SendVectorChunks(n, pe, encoded, random) with the draws `NextDouble() <= pe` given as
      flips: entry i differs from the sent one exactly where flips[i] holds. */
  method SendVectorChunks(n: nat, encodedVector: seq<int>, flips: seq<bool>) returns (receivedVector: seq<int>)
    requires n <= |encodedVector| && n <= |flips|
    ensures receivedVector == Transmit(encodedVector, flips, n)
    ensures forall i :: 0 <= i < n ==> (receivedVector[i] != encodedVector[i] <==> flips[i])
  {
    var received := new int[n];
    var i := 0;
    while i < n
      invariant 0 <= i <= n
      invariant forall q :: 0 <= q < i ==> received[q] == Transmit(encodedVector, flips, n)[q]
    {
      received[i] := if flips[i] then (if encodedVector[i] == 1 then 0 else 1) else encodedVector[i];
      i := i + 1;
    }
    receivedVector := received[..];
  }

  /** GetPrimaryChunks(k, chunks, remaining): GetPrimaryVector of every chunk, in order, then
      the remainder when it is not empty. */
  method GetPrimaryChunks(k: nat, chunks: seq<seq<int>>, remainingChunks: seq<int>) returns (primaryChunks: seq<seq<int>>)
    ensures primaryChunks == PrimaryChunks(k, chunks, remainingChunks)
  {
    primaryChunks := [];
    var i := 0;
    while i < |chunks|
      invariant 0 <= i <= |chunks|
      invariant primaryChunks == PrimaryChunks(k, chunks[..i], [])
    {
      primaryChunks := primaryChunks + [GetPrimaryVector(k, chunks[i])];
      i := i + 1;
    }
    if |remainingChunks| > 0 {
      primaryChunks := primaryChunks + [remainingChunks];
    }
  }

  /** ConvertChunksToText before UTF-8 decoding: the chunks joined, then packed into bytes
      8 bits at a time; trailing bits that do not fill a byte are dropped. */
  method ConvertChunksToText(chunks: seq<seq<int>>) returns (textBytes: seq<byte>)
    ensures textBytes == PackBytes(Flatten(chunks))
  {
    var binaryData := Flatten(chunks);
    textBytes := [];
    var i := 0;
    while i < |binaryData|
      invariant 0 <= i <= |binaryData|
      invariant i == 8 * |textBytes|
      invariant forall j :: 0 <= j < |textBytes| ==> textBytes[j] == PackPrefix(binaryData[8 * j..8 * j + 8], 8)
    {
      if i + 8 > |binaryData| {
        break;
      }
      var binaryChunk := binaryData[i..i + 8];
      var b := ConvertBinaryToByte(binaryChunk);
      textBytes := textBytes + [b.value];
      i := i + 8;
    }
    DivUnique(|binaryData|, 8, |textBytes|, |binaryData| - i);
  }

  /** ConvertByteToBinary(value): the bits (value >> i) & 1 for i = 7 down to 0, which is
      the 8-bit rendering of the byte, most significant bit first. */
  method ConvertByteToBinary(value: byte) returns (binary: seq<int>)
    ensures binary == ToBits(value as nat, 8)
    ensures |binary| == 8 && IsBinary(binary) && FromBits(binary) == value as int
  {
    binary := [];
    var i: int := 7;
    while i >= 0
      invariant -1 <= i <= 7
      invariant binary == ToBits(value as nat, 8)[..7 - i]
    {
      ToBitsAt(value as nat, 8, 7 - i);
      binary := binary + [(value as nat / Pow2(i)) % 2];
      i := i - 1;
    }
    assert Pow2(8) == 256;
    FromBitsToBits(value as nat, 8);
  }

  /** ConvertBinaryToByte(binary): fails unless there are exactly 8 entries; otherwise ORs
      `(byte)(binary[i] << (7 - i))` into an accumulator starting at 0. On 8 bits that are
      all 0 or 1 the result is the number they render. */
  method ConvertBinaryToByte(binary: seq<int>) returns (r: Result<byte>)
    ensures |binary| != 8 <==> r.Failure?
    ensures |binary| == 8 ==> r == Success(PackPrefix(binary, 8))
    ensures |binary| == 8 && IsBinary(binary) ==> r.Success? && r.value as int == FromBits(binary)
  {
    if |binary| != 8 {
      return Failure("Binary list must contain exactly 8 bits.");
    }
    var value: byte := 0;
    var i := 0;
    while i < 8
      invariant 0 <= i <= 8
      invariant value == PackPrefix(binary, i)
    {
      var part := ShiftToByte(binary[i], 7 - i);
      assert Pow2(8) == 256;
      BitOrBound(value as nat, part as nat, 8);
      PackPrefixStep(binary, i);
      value := BitOr(value as nat, part as nat) as byte;
      i := i + 1;
    }
    r := Success(value);
    if IsBinary(binary) {
      PackedValue(binary);
    }
  }

  /** When every chunk, once decoded, starts with the chunk it came from, the pipeline gives
      the original bytes back. */
  lemma PipelineRoundTrip(bytes: seq<byte>, k: nat, decoded: seq<seq<int>>)
    requires k > 0
    requires |decoded| == |SplitChunks(BytesToBits(bytes), k).0|
    requires forall j :: 0 <= j < |decoded| ==>
      GetPrimaryVector(k, decoded[j]) == SplitChunks(BytesToBits(bytes), k).0[j]
    ensures PackBytes(Flatten(PrimaryChunks(k, decoded, SplitChunks(BytesToBits(bytes), k).1))) == bytes
  {
    var split := SplitChunks(BytesToBits(bytes), k);
    PrimaryChunksJoin(k, decoded, split.0, split.1);
    SplitChunksJoin(BytesToBits(bytes), k);
    PackBytesToBits(bytes);
  }

  /** Over a noiseless channel a text survives the whole pipeline: split, encode with a
      standard-form G, decode with the reduced table of H = ParityCheck(G), keep the primary
      chunks and the remainder, pack. */
  lemma NoiselessTextRoundTrip(bytes: seq<byte>, g: Matrix, n: nat, k: nat, decoded: seq<seq<int>>)
    requires IsStandardForm(g, k, n) && k > 0
    requires |decoded| == |SplitChunks(BytesToBits(bytes), k).0|
    requires forall j :: 0 <= j < |decoded| ==>
      decoded[j] == GreedyDecode(Encode(SplitChunks(BytesToBits(bytes), k).0[j], g, n, k),
        ParityCheck(g), ReducedTable(n, k, ParityCheck(g)), n)
    ensures PackBytes(Flatten(PrimaryChunks(k, decoded, SplitChunks(BytesToBits(bytes), k).1))) == bytes
  {
    var chunks := SplitChunks(BytesToBits(bytes), k).0;
    forall j | 0 <= j < |decoded| ensures GetPrimaryVector(k, decoded[j]) == chunks[j] {
      NoiselessRoundTrip(g, n, k, chunks[j]);
    }
    PipelineRoundTrip(bytes, k, decoded);
  }

  /** When G's parity-check columns are distinct and nonzero, a text survives the pipeline
      with one flipped bit in every chunk, at any position. */
  lemma SingleErrorTextRoundTrip(bytes: seq<byte>, g: Matrix, n: nat, k: nat, positions: seq<nat>, decoded: seq<seq<int>>)
    requires IsStandardForm(g, k, n) && k > 0 && DistinctNonzeroColumns(ParityCheck(g), n)
    requires |positions| == |decoded| == |SplitChunks(BytesToBits(bytes), k).0|
    requires forall j :: 0 <= j < |positions| ==> positions[j] < n
    requires forall j :: 0 <= j < |decoded| ==>
      var c := Encode(SplitChunks(BytesToBits(bytes), k).0[j], g, n, k);
      decoded[j] == GreedyDecode(c[positions[j] := Flip(c[positions[j]])],
        ParityCheck(g), ReducedTable(n, k, ParityCheck(g)), n)
    ensures PackBytes(Flatten(PrimaryChunks(k, decoded, SplitChunks(BytesToBits(bytes), k).1))) == bytes
  {
    var chunks := SplitChunks(BytesToBits(bytes), k).0;
    forall j | 0 <= j < |decoded| ensures GetPrimaryVector(k, decoded[j]) == chunks[j] {
      SingleErrorCorrected(g, n, k, chunks[j], positions[j]);
      NoiselessRoundTrip(g, n, k, chunks[j]);
    }
    PipelineRoundTrip(bytes, k, decoded);
  }
}
