# Linear block codes over GF(2): VectorService and TextService

This project models the coding engine of the backend in Dafny:

- `VectorService` builds a generator matrix G = [I_k | A] and derives its parity-check matrix H = [Aᵗ | I_(n-k)].
- It encodes messages as m·G mod 2 and sends codewords through a noisy channel.
- It computes syndromes H·v mod 2 and builds the "reduced standard table". That table maps each syndrome to the weight of its coset leader.
- It decodes in place with a greedy single pass: flip each bit in turn, keep a flip when the looked-up weight strictly drops, undo it otherwise, and stop as soon as the weight is 0.
- `TextService` runs the same pipeline over text. Bytes become bits (most significant first), the bits are cut into k-bit chunks plus a shorter remainder, and each chunk is encoded, sent and decoded. The chunks are cut back to their first k bits, the remainder is appended, and the bits are packed back into bytes.

Modules:

- `Bits`: bit strings, `Pow2`, and the n-bit rendering of a number and its inverse.
- `Collections`: distinct sequences and set sizes.
- `Codes`: the GF(2) functions, namely `Encode`, `Syndrome`, `ParityCheck`, weight, channel and Hamming distance.
- `StandardTable`: the sort-then-walk definition of the reduced table, and lookup.
- `Decoding`: the decision procedure of the decoder, and what it achieves.
- `Bytes`: the byte/bit conversions, including `|=` and the truncating `(byte)` cast.
- `Chunks`: splitting, joining and the primary parts of chunks.
- `VectorService` and `TextService`: the services' loops as methods, each proved against those functions.
- `Example`: a [7,4] code, G = [I_4 | A], with the message 1011.

Vectors are `seq<int>`, as the services keep `List<int>` and never check that entries are 0 or 1. The C# remainder `sum % 2` truncates toward zero and is modelled by `Rem2`. The decoders flip and restore entries of the caller's list, so they work in place on an `array<int>` and return that same array.

The chunk and vector decoders take their table as it is built. Their contracts tie the result to `GreedyDecode` over `ReducedTable`. The properties of the table are proved as lemmas about `ReducedTable`:

- its keys are distinct;
- it has at most 2^(n-k) entries, and exactly 2^(n-k) when H comes from G;
- each weight is the least in its coset;
- the zero syndrome has weight 0.

## Model

| member | source | states |
|---|---|---|
| Bits.Flip | backend/Services/VectorService.cs:69 | `x == 1 ? 0 : 1` is a bit and differs from x |
| Bits.ToBitsAt | backend/Services/VectorService.cs:166-169 | bit j of the n-bit rendering of x is (x >> (n-1-j)) & 1 |
| Bits.ToBitsPrefix | backend/Services/VectorService.cs:166-169 | one step of the inner loop appends (x >> j) & 1 to the rendering's prefix |
| Bits.FromBitsToBits | backend/Services/TextService.cs:210-219 | reading back the n-bit rendering of x < 2^n gives x |
| Bits.ToBitsFromBits | backend/Services/TextService.cs:224-238 | a binary string's value is below 2^length and renders back to the string |
| Bits.AllVectorsExactly | backend/Services/VectorService.cs:158-174 | the 2^n renderings are exactly the binary vectors of length n, pairwise distinct |
| Codes.Rem2 | backend/Services/VectorService.cs:20 | the C# remainder by 2 lies in -1..1, differs from x by an even number, and is a bit for x >= 0 |
| Codes.CalculateWeight | backend/Services/VectorService.cs:267-270 | the number of 1s never exceeds the length |
| Codes.WeightZeroIsZeros | backend/Services/VectorService.cs:267-270 | the only binary vector of weight 0 is the zero vector |
| Codes.WeightOfUnit | backend/Services/VectorService.cs:267-270 | a unit vector has weight 1 |
| Codes.GetPrimaryVector | backend/Services/VectorService.cs:113-116 | `Take(k)`: min(k, length) entries, each equal to the input's entry at the same position |
| Codes.ParityCheck | backend/Services/VectorService.cs:206-240 | H has n-k rows of length n, H[i][j] = G[j][k+i] for j < k, and the identity on columns k..n-1 |
| Codes.Mismatches | backend/Services/VectorService.cs:299-316 | as many positions as the Hamming distance, strictly increasing, exactly the positions where the lists differ |
| Codes.EncodeBinary | backend/Services/VectorService.cs:9-24 | a binary message and G give a codeword whose entries are all 0 or 1 |
| Codes.EncodeSystematic | backend/Services/VectorService.cs:110-116 | with G = [I_k \| A] the first k bits of m·G are m |
| Codes.EncodeUnit | backend/Services/VectorService.cs:9-24 | encoding the unit message e_r gives row r of G |
| Codes.CodewordSyndrome | backend/Services/VectorService.cs:246-261 | every codeword m·G has the zero syndrome under the H derived from G |
| Codes.GeneratorRowsInNullSpace | backend/Services/VectorService.cs:206-240 | G·Hᵗ = 0: each row of G has the zero syndrome |
| Codes.SyndromeOfParityPart | backend/Services/VectorService.cs:206-240 | the vector (0…0, s) has syndrome s, so every binary syndrome occurs |
| Codes.SyndromeOfZero | backend/Services/VectorService.cs:246-261 | the zero vector has the zero syndrome |
| Codes.SyndromeBinary | backend/Services/VectorService.cs:246-261 | binary vector and H give a binary syndrome |
| Codes.SyndromeFlip | backend/Services/VectorService.cs:246-261 | flipping bit p adds column p of H to the syndrome |
| Codes.SyndromeOfUnit | backend/Services/VectorService.cs:246-261 | e_p has syndrome column p of H |
| Codes.TransmitErrors | backend/Services/VectorService.cs:30-42 | received and sent differ exactly at the flipped positions; no flips leave the word unchanged |
| StandardTable.InsertByWeightPermutes | backend/Services/VectorService.cs:128 | inserting adds the vector and keeps every other one |
| StandardTable.InsertByWeightSorted | backend/Services/VectorService.cs:128 | inserting into a weight-sorted list keeps it sorted |
| StandardTable.SortByWeight | backend/Services/VectorService.cs:128 | the sort is a permutation whose weights never decrease |
| StandardTable.SortedVectorsSpec | backend/Services/VectorService.cs:127-128 | the walked list holds exactly the binary vectors of length n, by nondecreasing weight |
| StandardTable.LookupMiss | backend/Services/VectorService.cs:93-107 | a syndrome that is not a key is looked up as -1 |
| StandardTable.LookupFirst | backend/Services/VectorService.cs:93-107 | otherwise the lookup returns the weight of the first entry holding it |
| StandardTable.LookupKey | backend/Services/VectorService.cs:93-107 | with distinct keys, the lookup of an entry's syndrome returns that entry's weight |
| StandardTable.VisitRecords | backend/Services/VectorService.cs:133-142 | the set of used syndromes is the set of keys; an entry is added exactly when its syndrome is new |
| StandardTable.VisitStep | backend/Services/VectorService.cs:133-142 | one visit keeps keys distinct, records the vector's syndrome, and adds only first-seen syndromes |
| StandardTable.CollectLeadersSpec | backend/Services/VectorService.cs:133-149 | the walk keeps keys distinct and at most 2^(n-k); every entry comes from the first vector with its syndrome; unless it stopped, every syndrome is a key |
| StandardTable.ReducedTableDistinct | backend/Services/VectorService.cs:122-152 | table syndromes are pairwise distinct and there are at most 2^(n-k) of them |
| StandardTable.FirstIsCosetMinimum | backend/Services/VectorService.cs:126-142 | in a weight-sorted walk the first vector with syndrome s has the least weight in the coset of s |
| StandardTable.ReducedTableCosetMinimum | backend/Services/VectorService.cs:122-152 | each entry's weight is the least weight among binary vectors with its syndrome |
| StandardTable.ReducedTableHasZero | backend/Services/VectorService.cs:122-152 | the zero syndrome is in the table with weight 0 |
| StandardTable.ReducedTableComplete | backend/Services/VectorService.cs:133-149 | either 2^(n-k) entries were recorded, or every syndrome of a binary vector is a key |
| StandardTable.ReducedTableKeysBinary | backend/Services/VectorService.cs:135-140 | with a binary H every key is a binary string of length n-k |
| StandardTable.BinaryKeys | backend/Services/VectorService.cs:145 | distinct binary keys of length m number at most 2^m, exactly 2^m iff all strings are keys |
| StandardTable.ReducedTableFullWhenOnto | backend/Services/VectorService.cs:144-148 | when every syndrome occurs, the walk stops at exactly 2^(n-k) entries holding every syndrome |
| StandardTable.ReducedTableFull | backend/Services/VectorService.cs:122-152 | for H derived from G, exactly 2^(n-k) entries and every binary syndrome of length n-k is a key |
| StandardTable.LookupCosetMinimum | backend/Services/VectorService.cs:93-107 | looking up a key returns the least weight in its coset |
| StandardTable.StandardLookup | backend/Services/VectorService.cs:122-152 | for H derived from G, the lookup of any binary vector's syndrome is its coset minimum |
| Decoding.GreedyPass | backend/Services/VectorService.cs:68-83 | the scan keeps the length, changes only positions i..n-1, and keeps a binary vector binary |
| Decoding.GreedyDecode | backend/Services/VectorService.cs:48-87 | a vector whose syndrome weighs 0 comes back unchanged; positions from n on never change |
| Decoding.GreedyPassWeight | backend/Services/VectorService.cs:68-83 | the tracked weight never increases: the scan ends at weight 0 or at most w |
| Decoding.GreedyDecodeWeight | backend/Services/VectorService.cs:48-87 | the decoded vector's syndrome weighs 0 or no more than the received one's |
| Decoding.StandardMinimalTable | backend/Services/VectorService.cs:122-152 | for H derived from G, the reduced table looks up every binary vector's coset minimum |
| Decoding.LookupZero | backend/Services/VectorService.cs:60-65 | with such a table the weight is never -1, and is 0 exactly for a zero syndrome |
| Decoding.ParityCheckShape | backend/Services/VectorService.cs:206-240 | H derived from a standard-form G is a binary (n-k) x n matrix |
| Decoding.NoiselessRoundTrip | backend/Services/VectorService.cs:110-116 | decoding m·G gives m·G back, and its first k bits are m |
| Decoding.ScanToError | backend/Services/VectorService.cs:68-83 | flips before the error position that do not reach weight 0 are undone, and the flip at the error restores the codeword |
| Decoding.CosetOfColumn | backend/Services/VectorService.cs:122-152 | a nonzero syndrome equal to a column of H has coset minimum 1 |
| Decoding.SingleErrorWeight | backend/Services/VectorService.cs:246-261 | a codeword with bit p flipped has syndrome column p of H and looks up as weight 1 |
| Decoding.SecondFlipWeight | backend/Services/VectorService.cs:68-83 | flipping a second bit whose column differs leaves a weight of at least 1 |
| Decoding.EarlierFlipsWeigh | backend/Services/VectorService.cs:68-83 | with distinct columns, each flip before the error position weighs at least 1 |
| Decoding.SingleErrorInCodeword | backend/Services/VectorService.cs:48-87 | with distinct nonzero columns, one flipped bit of a zero-syndrome word is corrected |
| Decoding.StandardSingleError | backend/Services/VectorService.cs:48-87 | the same with H derived from G and its reduced table |
| Decoding.SingleErrorCorrected | backend/Services/VectorService.cs:48-87 | every single error in m·G is corrected when H has distinct nonzero columns |
| Example.ExampleStandardForm | backend/Services/VectorService.cs:180-200 | the example G is [I_4 \| A] |
| Example.ExampleEncode | backend/Services/VectorService.cs:9-24 | 1011·G = 1011010 |
| Example.ExampleParityCheck | backend/Services/VectorService.cs:206-240 | H for the example G is [Aᵗ \| I_3] |
| Example.ExampleColumns | backend/Services/VectorService.cs:206-240 | the seven columns of that H are distinct and nonzero |
| Example.ExampleCodeword | backend/Services/VectorService.cs:246-261 | 1011010 has the zero syndrome |
| Example.ExampleDecode | backend/Services/VectorService.cs:48-87 | 1001010 decodes to 1011010, whose first four bits are 1011 |
| VectorService.EncodeVector | backend/Services/VectorService.cs:9-24 | the loop computes m·G with the C# remainder, entry by entry |
| VectorService.SendVector | backend/Services/VectorService.cs:30-42 | the first n entries, each flipped exactly where the flip mask (the draw at or below pe) is set |
| VectorService.CalculateSyndrome | backend/Services/VectorService.cs:246-261 | the loop computes H·v with the C# remainder |
| VectorService.GenerateAllBinaryVectors | backend/Services/VectorService.cs:158-174 | 2^n vectors; bit j of vector i is (i >> (n-1-j)) & 1; exactly the binary vectors of length n, pairwise distinct |
| VectorService.GenerateMatrixG | backend/Services/VectorService.cs:180-200 | the result is [I_k \| A] with the given binary A |
| VectorService.Skip | backend/Services/VectorService.cs:217 | `Skip(k)`: the entries after the first k, or none |
| VectorService.GenerateMatrixH | backend/Services/VectorService.cs:206-240 | the loops build ParityCheck(G) |
| VectorService.FindWeightFromSindrome | backend/Services/VectorService.cs:93-107 | the loop returns the lookup: the first matching weight, or -1 |
| VectorService.GenerateReducedStandardTable | backend/Services/VectorService.cs:122-152 | the sort and the early-exit walk with a set of used syndromes build ReducedTable(n, k, H) |
| VectorService.DecodeVector | backend/Services/VectorService.cs:48-87 | decodes the caller's array in place and returns it: the result is GreedyDecode with the reduced table |
| VectorService.DecodeWithTable | backend/Services/VectorService.cs:56-86 | the lookup, early return and single flip/keep/undo pass give GreedyDecode, in place |
| VectorService.CountErrors | backend/Services/VectorService.cs:276-293 | 0 for a missing list or unequal lengths, otherwise the Hamming distance |
| VectorService.GetErrorPositions | backend/Services/VectorService.cs:299-316 | empty for a missing list or unequal lengths, otherwise the differing positions in order |
| Bytes.BitOrZero | backend/Services/TextService.cs:234 | x \| 0 == x |
| Bytes.BitOrBound | backend/Services/TextService.cs:234 | ORing two values below 2^m stays below 2^m, so the accumulator fits a byte |
| Bytes.BitOrDisjoint | backend/Services/TextService.cs:234 | ORing a bit into a position below all set bits adds it |
| Bytes.ShiftBit | backend/Services/TextService.cs:234 | `(byte)(b << s)` for a bit b and s < 8 is b·2^s |
| Bytes.PackPrefixValue | backend/Services/TextService.cs:231-235 | after i iterations the accumulator holds the first i bits in its top i positions |
| Bytes.PackedValue | backend/Services/TextService.cs:224-238 | eight bits that are all 0 or 1 pack into the number they render |
| Bytes.ByteRoundTrip | backend/Services/TextService.cs:210-238 | ConvertBinaryToByte(ConvertByteToBinary(b)) == b |
| Bytes.BitsRoundTrip | backend/Services/TextService.cs:210-238 | ConvertByteToBinary(ConvertBinaryToByte(bits)) == bits for eight binary bits |
| Bytes.BytesToBits | backend/Services/TextService.cs:97-100 | the expansion has 8 bits per byte, all 0 or 1 |
| Bytes.BytesToBitsSnoc | backend/Services/TextService.cs:97-100 | one more byte appends its 8-bit rendering |
| Bytes.BytesToBitsAt | backend/Services/TextService.cs:97-100 | bits 8j..8j+7 are the rendering of byte j |
| Bytes.PackBytes | backend/Services/TextService.cs:194-201 | floor(length/8) bytes |
| Bytes.PackBytesAt | backend/Services/TextService.cs:189-205 | byte j of the packed expansion is byte j |
| Bytes.PackBytesToBits | backend/Services/TextService.cs:189-205 | packing the expansion of a byte string gives it back |
| Chunks.FlattenAppend | backend/Services/TextService.cs:191 | `SelectMany` distributes over concatenation |
| Chunks.SplitChunks | backend/Services/TextService.cs:105-115 | every chunk has k bits, the remainder fewer, and binary data gives binary chunks |
| Chunks.SplitChunksStep | backend/Services/TextService.cs:105-115 | while k bits remain, the next chunk is the next k bits |
| Chunks.SplitChunksJoin | backend/Services/TextService.cs:105-115 | the chunks joined, followed by the remainder, are the data |
| Chunks.PrimaryChunks | backend/Services/TextService.cs:170-184 | one entry per chunk, each its first k bits, then the remainder only when it is not empty |
| Chunks.PrimaryChunksJoin | backend/Services/TextService.cs:170-184 | when each decoded chunk starts with its original, the primary chunks join into the chunks followed by the remainder |
| TextService.GetEncodedChunks | backend/Services/TextService.cs:17-27 | one codeword per chunk, in order, each Encode of its chunk |
| TextService.GetDecodedChunks | backend/Services/TextService.cs:32-47 | builds the table once; every chunk is decoded in place with it and the same chunks are returned |
| TextService.DecodeEachChunk | backend/Services/TextService.cs:40-44 | each chunk becomes GreedyDecode of its old contents with the one table; the others are untouched |
| TextService.DecodeVectorChunks | backend/Services/TextService.cs:52-87 | the same policy as DecodeVector with the table passed in, in place |
| TextService.ConvertTextToBinaryChunks | backend/Services/TextService.cs:92-131 | the chunks and remainder are the split of the bytes' bits; joined they give the bits back |
| TextService.GetReceivedChunks | backend/Services/TextService.cs:136-148 | one received word per chunk, each the chunk sent with its flip mask |
| TextService.SendVectorChunks | backend/Services/TextService.cs:154-165 | the received word differs from the sent one exactly where the mask is set |
| TextService.GetPrimaryChunks | backend/Services/TextService.cs:170-184 | the loop builds PrimaryChunks |
| TextService.ConvertChunksToText | backend/Services/TextService.cs:189-205 | the joined bits packed 8 at a time, dropping a short tail |
| TextService.ConvertByteToBinary | backend/Services/TextService.cs:210-219 | 8 bits, most significant first, whose value is the byte |
| TextService.ConvertBinaryToByte | backend/Services/TextService.cs:224-238 | fails exactly when the length is not 8; eight binary bits give the number they render |
| TextService.PipelineRoundTrip | backend/Services/TextService.cs:92-205 | when decoded chunks start with their originals, packing the primary chunks gives the bytes back |
| TextService.NoiselessTextRoundTrip | backend/Services/TextService.cs:17-205 | over a noiseless channel the whole pipeline returns the bytes |
| TextService.SingleErrorTextRoundTrip | backend/Services/TextService.cs:17-205 | with distinct nonzero columns of H, one flipped bit per chunk still returns the bytes |

## Left out

- The HTTP controllers, `Program.cs`, the image service and the frontend are not part of this model.
- The text controller calls `GetPrimaryChunks` with two arguments, against the service's three-parameter method.
- `Encoding.UTF8.GetBytes` and `GetString` are not modelled: the chunker takes a byte sequence and the packer returns one.
- The `Console.WriteLine` diagnostics are not modelled.
- `System.Random` and the floating-point test `NextDouble() <= pe` become parameters: the A block of G, and one flip mask per vector. Probabilities are not modelled.
- `1 << n` and `1 << (n - k)` overflow for large n. `GenerateAllBinaryVectors`, `GenerateReducedStandardTable` and the decoders require n < 31 and k <= n instead.
- Index exceptions become preconditions: row lengths within the vector length, and vectors at least n long.
- `StandardTable.SortByWeight`: C#'s `List.Sort` is unstable, and the model uses a stable insertion sort, so vectors of equal weight may be visited in a different order. For a binary G in standard form every binary syndrome ends up in the table (`StandardTable.ReducedTableFull`), each with its coset minimum, so the weights, the number of entries and every lookup agree with the source. Only the order of entries of equal weight may differ. For a G with entries other than 0 and 1, more than 2^(n-k) syndromes can occur. The walk stops at 2^(n-k) entries, so which syndromes are recorded, and therefore lookups and decoding, may then differ from the source's.
- `Codes.Encode`, `Codes.Syndrome`: the dot-product sums are unbounded integers here. In C# `sum` is a 32-bit `int` that wraps at 2^31, so for entries that are not 0 or 1 a wrapped negative sum can give remainder -1 where the model gives 1. For binary entries the sums are at most n and no wrap occurs.
- The `HashSet<string>` of used syndromes is a set of sequences. The string join is injective on binary syndromes.
- `VectorService.DecodeVector`: the steps after building the table are the method `DecodeWithTable`. `GetDecodedChunks`'s loop is `DecodeEachChunk`. Behaviour is unchanged.
- `TextService.GetDecodedChunks`: requires the chunks to be distinct arrays. The source decodes a list passed twice twice, which is not modelled.
- `TextService.ConvertTextToBinaryChunks`: requires k > 0. With k = 0 the source loop never advances and appends empty chunks forever.
- `TextService` constructor: the one-field constructor only stores the injected `VectorService`. The model calls that module directly.
