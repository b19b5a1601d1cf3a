/** A [7,4] code: the generator G = [I_4 | A], the message 1011, its codeword, and the
    decoding of that codeword with bit 2 flipped. */
module Example {
  import opened Bits
  import opened Codes
  import opened StandardTable
  import opened Decoding

  const G: Matrix := [[1, 0, 0, 0, 1, 1, 0],
                      [0, 1, 0, 0, 1, 0, 1],
                      [0, 0, 1, 0, 0, 1, 1],
                      [0, 0, 0, 1, 1, 1, 1]]

  const M: seq<int> := [1, 0, 1, 1]

  const H: Matrix := [[1, 1, 0, 1, 1, 0, 0],
                      [1, 0, 1, 1, 0, 1, 0],
                      [0, 1, 1, 1, 0, 0, 1]]

  /** Column a of H read as a 3-bit number. */
  function ColumnValue(a: nat): (x: int)
    requires a < 7
  {
    4 * H[0][a] + 2 * H[1][a] + H[2][a]
  }

  lemma ExampleStandardForm()
    ensures IsStandardForm(G, 4, 7)
  {
    assert IsMatrix(G, 4, 7);
  }

  /** EncodeVector(1011, G) is 1011010: the message followed by the parities 0, 1, 0. */
  lemma ExampleEncode()
    ensures Encode(M, G, 7, 4) == [1, 0, 1, 1, 0, 1, 0]
  {
    var c := Encode(M, G, 7, 4);
    forall j | 0 <= j < 7 ensures c[j] == [1, 0, 1, 1, 0, 1, 0][j] {
      var col := Column(G, j, 4);
      assert DotRange(M, col, 0, 4) == M[0] * col[0] + M[1] * col[1] + M[2] * col[2] + M[3] * col[3];
    }
  }

  /** GenerateMatrixH(G) is [Aᵗ | I_3]. */
  lemma ExampleParityCheck()
    ensures ParityCheck(G) == H
  {
    var h := ParityCheck(G);
    assert h[0] == H[0];
    assert h[1] == H[1];
    assert h[2] == H[2];
  }

  /** Column a of H, read as a 3-bit number, is entry a of 6, 5, 3, 7, 4, 2, 1. */
  lemma ColumnCode(a: nat)
    requires a < 7
    ensures var c := HColumn(H, a); 4 * c[0] + 2 * c[1] + c[2] == ColumnCodes[a]
  {
    var c := HColumn(H, a);
    assert ColumnValue(a) == 4 * c[0] + 2 * c[1] + c[2];
  }

  const ColumnCodes: seq<int> := [6, 5, 3, 7, 4, 2, 1]

  /** Three-row columns read as distinct nonzero 3-bit numbers are distinct and nonzero. */
  lemma ColumnsByCode(h: Matrix, codes: seq<int>)
    requires |h| == 3 && |codes| == 7
    requires forall a :: 0 <= a < 7 ==> 4 * HColumn(h, a)[0] + 2 * HColumn(h, a)[1] + HColumn(h, a)[2] == codes[a]
    requires forall a :: 0 <= a < 7 ==> codes[a] != 0
    requires forall a, b :: 0 <= a < b < 7 ==> codes[a] != codes[b]
    ensures DistinctNonzeroColumns(h, 7)
  {
    var z := Zeros(3);
    assert z[0] == 0 && z[1] == 0 && z[2] == 0;
    forall a | 0 <= a < 7 ensures HColumn(h, a) != z {
      assert codes[a] != 0;
    }
  }

  /** The seven columns of H are the seven nonzero 3-bit strings, each once. */
  lemma ExampleColumns()
    ensures DistinctNonzeroColumns(ParityCheck(G), 7)
  {
    ExampleParityCheck();
    forall a | 0 <= a < 7
      ensures 4 * HColumn(H, a)[0] + 2 * HColumn(H, a)[1] + HColumn(H, a)[2] == ColumnCodes[a]
    {
      ColumnCode(a);
    }
    ColumnsByCode(H, ColumnCodes);
  }

  /** The codeword 1011010 has the zero syndrome. */
  lemma ExampleCodeword()
    ensures Syndrome([1, 0, 1, 1, 0, 1, 0], ParityCheck(G)) == Zeros(3)
  {
    ExampleStandardForm();
    ExampleEncode();
    CodewordSyndrome(M, G, 7, 4);
  }

  /** The received word 1001010 (bit 2 of 1011010 flipped) decodes to 1011010, whose first
      four bits are the message; n and k are the sizes of G. */
  lemma ExampleDecode(received: seq<int>, n: nat, k: nat)
    requires received == [1, 0, 0, 1, 0, 1, 0] && n == 7 && k == 4
    ensures var h := ParityCheck(G);
      var r := GreedyDecode(received, h, ReducedTable(n, k, h), n);
      r == [1, 0, 1, 1, 0, 1, 0] && GetPrimaryVector(k, r) == M
  {
    var c := [1, 0, 1, 1, 0, 1, 0];
    assert c[2 := Flip(c[2])] == received;
    assert c[..4] == M;
    ExampleStandardForm();
    ExampleCodeword();
    ExampleColumns();
    StandardSingleError(G, n, k, c, 2);
  }
}
