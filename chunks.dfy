/** The chunk level of the text pipeline: a bit string cut into k-bit chunks and a shorter
    remainder, the chunks joined back (SelectMany), and the primary parts kept after
    decoding. */
module Chunks {
  import opened Bits
  import opened Codes

  /** The concatenation of the chunks, in order. */
  function Flatten(chunks: seq<seq<int>>): (r: seq<int>)
  {
    if chunks == [] then [] else chunks[0] + Flatten(chunks[1..])
  }

  lemma {:induction false} FlattenAppend(a: seq<seq<int>>, b: seq<seq<int>>)
    ensures Flatten(a + b) == Flatten(a) + Flatten(b)
  {
    if a == [] {
      assert a + b == b;
    } else {
      assert (a + b)[0] == a[0];
      assert (a + b)[1..] == a[1..] + b;
      FlattenAppend(a[1..], b);
    }
  }

  /** The chunks and remainder ConvertTextToBinaryChunks cuts from data: consecutive k-bit
      slices from the start, then whatever is left when fewer than k bits remain. */
  function SplitChunks(data: seq<int>, k: nat): (r: (seq<seq<int>>, seq<int>))
    requires k > 0
    ensures forall j :: 0 <= j < |r.0| ==> |r.0[j]| == k
    ensures |r.1| < k
    ensures IsBinary(data) ==> (forall j :: 0 <= j < |r.0| ==> IsBinary(r.0[j])) && IsBinary(r.1)
    decreases |data|
  {
    if |data| < k then ([], data)
    else
      var rest := SplitChunks(data[k..], k);
      ([data[..k]] + rest.0, rest.1)
  }

  /** The split of data from position i on: one chunk of k bits, then the split after it,
      while k bits remain. */
  lemma SplitChunksStep(data: seq<int>, i: nat, k: nat)
    requires k > 0 && i + k <= |data|
    ensures SplitChunks(data[i..], k).0 == [data[i..i + k]] + SplitChunks(data[i + k..], k).0
    ensures SplitChunks(data[i..], k).1 == SplitChunks(data[i + k..], k).1
  {
    assert data[i..][..k] == data[i..i + k];
    assert data[i..][k..] == data[i + k..];
  }

  /** Fewer than k bits from position i on are the remainder, with no chunk. */
  lemma SplitChunksShort(data: seq<int>, i: nat, k: nat)
    requires k > 0 && i <= |data| < i + k
    ensures SplitChunks(data[i..], k) == ([], data[i..])
  {
  }

  /** Joining the chunks and appending the remainder gives the data back. */
  lemma {:induction false} SplitChunksJoin(data: seq<int>, k: nat)
    requires k > 0
    ensures Flatten(SplitChunks(data, k).0) + SplitChunks(data, k).1 == data
    decreases |data|
  {
    if |data| >= k {
      var rest := SplitChunks(data[k..], k);
      SplitChunksJoin(data[k..], k);
      var cs := [data[..k]] + rest.0;
      assert cs[1..] == rest.0;
      assert data == data[..k] + data[k..];
    }
  }

  /** GetPrimaryChunks(k, chunks, remaining): the first k entries of every chunk, then the
      remainder as one more chunk when it is not empty. */
  function PrimaryChunks(k: nat, chunks: seq<seq<int>>, remaining: seq<int>): (r: seq<seq<int>>)
    ensures |r| == |chunks| + (if |remaining| > 0 then 1 else 0)
    ensures forall j :: 0 <= j < |chunks| ==> r[j] == GetPrimaryVector(k, chunks[j])
    ensures |remaining| > 0 ==> r[|chunks|] == remaining
  {
    seq(|chunks|, j requires 0 <= j < |chunks| => GetPrimaryVector(k, chunks[j])) +
      (if |remaining| > 0 then [remaining] else [])
  }

  /** When every chunk is cut back to what it was, the primary chunks join into the chunks
      followed by the remainder. */
  lemma PrimaryChunksJoin(k: nat, decoded: seq<seq<int>>, chunks: seq<seq<int>>, remaining: seq<int>)
    requires |decoded| == |chunks|
    requires forall j :: 0 <= j < |chunks| ==> GetPrimaryVector(k, decoded[j]) == chunks[j]
    ensures Flatten(PrimaryChunks(k, decoded, remaining)) == Flatten(chunks) + remaining
  {
    var tail := if |remaining| > 0 then [remaining] else [];
    assert PrimaryChunks(k, decoded, remaining) == chunks + tail;
    FlattenAppend(chunks, tail);
    if |remaining| > 0 {
      assert tail[1..] == [];
    }
  }
}
