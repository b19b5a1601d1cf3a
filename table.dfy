/** The reduced standard table of GenerateReducedStandardTable: all 2^n binary vectors of
    length n sorted by weight, walked in that order, keeping the first vector seen for each
    syndrome (only its weight is kept), and stopping once 2^(n-k) syndromes are recorded. */
module StandardTable {
  import opened Bits
  import opened Collections
  import opened Codes

  /** One row of the table: a syndrome and the weight of its coset leader. */
  datatype Entry = Entry(syndrome: seq<int>, w: int)

  function Keys(table: seq<Entry>): (ks: seq<seq<int>>)
    ensures |ks| == |table| && forall i :: 0 <= i < |table| ==> ks[i] == table[i].syndrome
  {
    seq(|table|, i requires 0 <= i < |table| => table[i].syndrome)
  }

  ghost predicate SortedByWeight(s: seq<seq<int>>) {
    forall i, j :: 0 <= i < j < |s| ==> CalculateWeight(s[i]) <= CalculateWeight(s[j])
  }

  /** Puts v after every element of no greater weight. */
  function InsertByWeight(v: seq<int>, s: seq<seq<int>>): (r: seq<seq<int>>)
    ensures |r| == |s| + 1
  {
    if s == [] then [v]
    else if CalculateWeight(v) < CalculateWeight(s[0]) then [v] + s
    else [s[0]] + InsertByWeight(v, s[1..])
  }

  /** The insertion adds v and keeps everything else. */
  lemma {:induction false} InsertByWeightPermutes(v: seq<int>, s: seq<seq<int>>)
    ensures multiset(InsertByWeight(v, s)) == multiset(s) + multiset{v}
  {
    if s != [] && CalculateWeight(v) >= CalculateWeight(s[0]) {
      InsertByWeightPermutes(v, s[1..]);
      assert s == [s[0]] + s[1..];
    }
  }

  /** A lower bound on the weights of v and of s bounds the weights after the insertion. */
  lemma {:induction false} InsertByWeightBound(v: seq<int>, s: seq<seq<int>>, b: int)
    requires b <= CalculateWeight(v) && forall i :: 0 <= i < |s| ==> b <= CalculateWeight(s[i])
    ensures forall i :: 0 <= i < |InsertByWeight(v, s)| ==> b <= CalculateWeight(InsertByWeight(v, s)[i])
  {
    if s != [] && CalculateWeight(v) >= CalculateWeight(s[0]) {
      InsertByWeightBound(v, s[1..], b);
      assert InsertByWeight(v, s) == [s[0]] + InsertByWeight(v, s[1..]);
    }
  }

  /** A sorted sequence stays sorted behind an element of no greater weight than any of its
      elements. */
  lemma SortedCons(x: seq<int>, rest: seq<seq<int>>)
    requires SortedByWeight(rest)
    requires forall i :: 0 <= i < |rest| ==> CalculateWeight(x) <= CalculateWeight(rest[i])
    ensures SortedByWeight([x] + rest)
  {
    var r := [x] + rest;
    forall i, j | 0 <= i < j < |r| ensures CalculateWeight(r[i]) <= CalculateWeight(r[j]) {
      assert r[j] == rest[j - 1];
      if i > 0 {
        assert r[i] == rest[i - 1];
      }
    }
  }

  lemma {:induction false} InsertByWeightSorted(v: seq<int>, s: seq<seq<int>>)
    requires SortedByWeight(s)
    ensures SortedByWeight(InsertByWeight(v, s))
  {
    if s == [] {
      assert InsertByWeight(v, s) == [v];
    } else if CalculateWeight(v) < CalculateWeight(s[0]) {
      assert forall i :: 0 <= i < |s| ==> CalculateWeight(s[0]) <= CalculateWeight(s[i]);
      SortedCons(v, s);
    } else {
      var tail := s[1..];
      assert SortedByWeight(tail) by {
        assert forall i :: 0 <= i < |tail| ==> tail[i] == s[i + 1];
      }
      assert forall i :: 0 <= i < |tail| ==> CalculateWeight(s[0]) <= CalculateWeight(tail[i]) by {
        assert forall i :: 0 <= i < |tail| ==> tail[i] == s[i + 1];
      }
      InsertByWeightSorted(v, tail);
      InsertByWeightBound(v, tail, CalculateWeight(s[0]));
      SortedCons(s[0], InsertByWeight(v, tail));
    }
  }

  /** `allVectors.Sort(...)` by CalculateWeight, as a stable insertion sort: a permutation
      of the input in which weights never decrease. */
  function SortByWeight(s: seq<seq<int>>): (r: seq<seq<int>>)
    ensures multiset(r) == multiset(s)
    ensures SortedByWeight(r)
  {
    if s == [] then []
    else
      assert s == s[..|s| - 1] + [s[|s| - 1]];
      var sortedInit := SortByWeight(s[..|s| - 1]);
      InsertByWeightSorted(s[|s| - 1], sortedInit);
      InsertByWeightPermutes(s[|s| - 1], sortedInit);
      InsertByWeight(s[|s| - 1], sortedInit)
  }

  /** FindWeightFromSindrome: the weight of the first entry whose syndrome equals s, or -1. */
  function Lookup(table: seq<Entry>, s: seq<int>): int
  {
    if table == [] then -1
    else if table[0].syndrome == s then table[0].w
    else Lookup(table[1..], s)
  }

  /** A syndrome that is not a key is looked up as -1. */
  lemma {:induction false} LookupMiss(table: seq<Entry>, s: seq<int>)
    requires s !in Keys(table)
    ensures Lookup(table, s) == -1
  {
    if table != [] {
      assert Keys(table)[0] == table[0].syndrome;
      assert Keys(table[1..]) == Keys(table)[1..];
      LookupMiss(table[1..], s);
    }
  }

  /** The lookup of s returns the weight of the first entry holding s. */
  lemma {:induction false} LookupFirst(table: seq<Entry>, s: seq<int>, j: nat)
    requires j < |table| && table[j].syndrome == s
    requires forall i :: 0 <= i < j ==> table[i].syndrome != s
    ensures Lookup(table, s) == table[j].w
  {
    if j > 0 {
      assert table[0].syndrome != s;
      assert forall i :: 0 <= i < j - 1 ==> table[1..][i] == table[i + 1];
      LookupFirst(table[1..], s, j - 1);
    }
  }

  /** One vector of the walk: its syndrome is recorded, with its weight, unless already seen. */
  function Visit(table: seq<Entry>, v: seq<int>, h: Matrix): (t: seq<Entry>)
    requires RowsWithin(h, |v|)
  {
    var s := Syndrome(v, h);
    if s in Keys(table) then table else table + [Entry(s, CalculateWeight(v))]
  }

  /** Visit with the recorded syndromes kept as a set, as the source does. */
  lemma VisitRecords(table: seq<Entry>, v: seq<int>, h: Matrix)
    requires RowsWithin(h, |v|)
    ensures Visit(table, v, h) == if Syndrome(v, h) in Elements(Keys(table)) then table
      else table + [Entry(Syndrome(v, h), CalculateWeight(v))]
    ensures Elements(Keys(Visit(table, v, h))) == Elements(Keys(table)) + {Syndrome(v, h)}
  {
    var s := Syndrome(v, h);
    var ks := Keys(table);
    ElementsMember(ks, s);
    if s in ks {
      assert Visit(table, v, h) == table;
      assert Elements(ks) + {s} == Elements(ks);
    } else {
      var e := Entry(s, CalculateWeight(v));
      assert Visit(table, v, h) == table + [e];
      KeysSnoc(table, e);
      ElementsSnoc(ks, s);
    }
  }

  lemma KeysSnoc(table: seq<Entry>, e: Entry)
    ensures Keys(table + [e]) == Keys(table) + [e.syndrome]
  {
  }

  /** The walk over the sorted vectors from position i with the entries recorded so far;
      it stops as soon as the table holds `limit` entries. */
  function CollectLeaders(sorted: seq<seq<int>>, h: Matrix, n: nat, limit: int, i: nat, table: seq<Entry>): seq<Entry>
    requires i <= |sorted| && RowsWithin(h, n)
    requires forall j :: 0 <= j < |sorted| ==> |sorted[j]| == n
    decreases |sorted| - i
  {
    if i == |sorted| then table
    else
      var t := Visit(table, sorted[i], h);
      if |t| == limit then t else CollectLeaders(sorted, h, n, limit, i + 1, t)
  }

  /** The vectors in the order the table walk visits them. */
  function SortedVectors(n: nat): (r: seq<seq<int>>)
    ensures forall j :: 0 <= j < |r| ==> |r[j]| == n && IsBinary(r[j])
  {
    AllVectorsExactly(n);
    var r := SortByWeight(AllVectors(n));
    assert forall j :: 0 <= j < |r| ==> r[j] in multiset(AllVectors(n)) by {
      forall j | 0 <= j < |r| ensures r[j] in multiset(AllVectors(n)) {
        assert r[j] in multiset(r);
      }
    }
    r
  }

  /** The walk visits every binary vector of length n and nothing else, by nondecreasing
      weight. */
  lemma SortedVectorsSpec(n: nat)
    ensures var r := SortedVectors(n);
      && (forall v {:trigger v in r} :: v in r <==> |v| == n && IsBinary(v))
      && |r| > 0 && SortedByWeight(r)
  {
    AllVectorsExactly(n);
    var r := SortedVectors(n);
    assert r == SortByWeight(AllVectors(n));
    assert forall v :: v in r <==> v in multiset(AllVectors(n));
    assert AllVectors(n)[0] in multiset(r);
  }

  /** GenerateReducedStandardTable(n, k, H). */
  function ReducedTable(n: nat, k: nat, h: Matrix): seq<Entry>
    requires k <= n && RowsWithin(h, n)
  {
    var sorted := SortedVectors(n);
    CollectLeaders(sorted, h, n, Pow2(n - k), 0, [])
  }

  /** w is the least weight of a binary vector of length n whose syndrome is s. */
  ghost predicate IsCosetMinimum(h: Matrix, n: nat, s: seq<int>, w: int)
    requires RowsWithin(h, n)
  {
    && (exists v :: |v| == n && IsBinary(v) && Syndrome(v, h) == s && CalculateWeight(v) == w)
    && (forall v :: |v| == n && IsBinary(v) && Syndrome(v, h) == s ==> w <= CalculateWeight(v))
  }

  /** Position j is the first one of the walk whose vector has syndrome s. */
  ghost predicate FirstWithSyndrome(sorted: seq<seq<int>>, h: Matrix, n: nat, j: nat, s: seq<int>)
    requires RowsWithin(h, n) && j < |sorted|
    requires forall q :: 0 <= q < |sorted| ==> |sorted[q]| == n
  {
    && Syndrome(sorted[j], h) == s
    && forall q :: 0 <= q < j ==> Syndrome(sorted[q], h) != s
  }

  /** Every entry was recorded from the first position before i with its syndrome. */
  ghost predicate EntriesFromFirst(sorted: seq<seq<int>>, h: Matrix, n: nat, i: nat, table: seq<Entry>)
    requires i <= |sorted| && RowsWithin(h, n)
    requires forall q :: 0 <= q < |sorted| ==> |sorted[q]| == n
  {
    forall e :: e in table ==>
      (exists j :: 0 <= j < i && FirstWithSyndrome(sorted, h, n, j, e.syndrome) && e.w == CalculateWeight(sorted[j]))
  }

  /** What holds of the table after the walk has visited positions 0 .. i-1 without stopping. */
  ghost predicate WalkInvariant(sorted: seq<seq<int>>, h: Matrix, n: nat, limit: int, i: nat, table: seq<Entry>)
    requires i <= |sorted| && RowsWithin(h, n)
    requires forall q :: 0 <= q < |sorted| ==> |sorted[q]| == n
  {
    && Distinct(Keys(table))
    && |table| < limit
    && EntriesFromFirst(sorted, h, n, i, table)
    && (forall j :: 0 <= j < i ==> Syndrome(sorted[j], h) in Keys(table))
  }

  lemma VisitStep(sorted: seq<seq<int>>, h: Matrix, n: nat, limit: int, i: nat, table: seq<Entry>)
    requires i < |sorted| && RowsWithin(h, n)
    requires forall q :: 0 <= q < |sorted| ==> |sorted[q]| == n
    requires WalkInvariant(sorted, h, n, limit, i, table)
    ensures var t := Visit(table, sorted[i], h);
      && Distinct(Keys(t))
      && |t| <= limit
      && EntriesFromFirst(sorted, h, n, i + 1, t)
      && (forall j :: 0 <= j < i + 1 ==> Syndrome(sorted[j], h) in Keys(t))
      && (forall s :: s in Keys(table) ==> s in Keys(t))
  {
    var s := Syndrome(sorted[i], h);
    var t := Visit(table, sorted[i], h);
    assert Keys(t) == if s in Keys(table) then Keys(table) else Keys(table) + [s];
    forall e | e in t
      ensures exists j :: (0 <= j < i + 1 && FirstWithSyndrome(sorted, h, n, j, e.syndrome) &&
        e.w == CalculateWeight(sorted[j]))
    {
      if e !in table {
        assert FirstWithSyndrome(sorted, h, n, i, s);
      }
    }
  }

  lemma {:induction false} CollectLeadersSpec(sorted: seq<seq<int>>, h: Matrix, n: nat, limit: int, i: nat, table: seq<Entry>)
    requires i <= |sorted| && RowsWithin(h, n)
    requires forall q :: 0 <= q < |sorted| ==> |sorted[q]| == n
    requires WalkInvariant(sorted, h, n, limit, i, table)
    ensures var r := CollectLeaders(sorted, h, n, limit, i, table);
      && Distinct(Keys(r))
      && |r| <= limit
      && EntriesFromFirst(sorted, h, n, |sorted|, r)
      && (|r| == limit || forall j :: 0 <= j < |sorted| ==> Syndrome(sorted[j], h) in Keys(r))
      && (forall s :: s in Keys(table) ==> s in Keys(r))
      && (i < |sorted| ==> Syndrome(sorted[i], h) in Keys(r))
    decreases |sorted| - i
  {
    if i < |sorted| {
      var t := Visit(table, sorted[i], h);
      VisitStep(sorted, h, n, limit, i, table);
      if |t| != limit {
        CollectLeadersSpec(sorted, h, n, limit, i + 1, t);
      }
    } else {
      assert EntriesFromFirst(sorted, h, n, |sorted|, table);
    }
  }

  /** The facts about ReducedTable that follow from the walk. */
  lemma ReducedTableWalk(n: nat, k: nat, h: Matrix)
    requires k <= n && RowsWithin(h, n)
    ensures var r := ReducedTable(n, k, h);
      var sorted := SortedVectors(n);
      && Distinct(Keys(r))
      && |r| <= Pow2(n - k)
      && EntriesFromFirst(sorted, h, n, |sorted|, r)
      && (|r| == Pow2(n - k) || forall j :: 0 <= j < |sorted| ==> Syndrome(sorted[j], h) in Keys(r))
      && Syndrome(sorted[0], h) in Keys(r)
  {
    var sorted := SortedVectors(n);
    CollectLeadersSpec(sorted, h, n, Pow2(n - k), 0, []);
  }

  /** Syndromes in the table are pairwise distinct and there are at most 2^(n-k) of them. */
  lemma ReducedTableDistinct(n: nat, k: nat, h: Matrix)
    requires k <= n && RowsWithin(h, n)
    ensures Distinct(Keys(ReducedTable(n, k, h)))
    ensures |ReducedTable(n, k, h)| <= Pow2(n - k)
  {
    ReducedTableWalk(n, k, h);
  }

  /** In a walk over every binary vector of length n by nondecreasing weight, the first
      vector with syndrome s has the least weight among the vectors with syndrome s. */
  lemma FirstIsCosetMinimum(sorted: seq<seq<int>>, h: Matrix, n: nat, j: nat, s: seq<int>)
    requires RowsWithin(h, n) && j < |sorted| && SortedByWeight(sorted)
    requires forall q :: 0 <= q < |sorted| ==> |sorted[q]| == n && IsBinary(sorted[q])
    requires forall v {:trigger v in sorted} :: |v| == n && IsBinary(v) ==> v in sorted
    requires FirstWithSyndrome(sorted, h, n, j, s)
    ensures IsCosetMinimum(h, n, s, CalculateWeight(sorted[j]))
  {
    forall v | |v| == n && IsBinary(v) && Syndrome(v, h) == s
      ensures CalculateWeight(sorted[j]) <= CalculateWeight(v)
    {
      assert v in sorted;
      var q :| 0 <= q < |sorted| && sorted[q] == v;
      assert j <= q;
    }
  }

  /** Each entry's weight is the least weight among the binary vectors with its syndrome. */
  lemma ReducedTableCosetMinimum(n: nat, k: nat, h: Matrix)
    requires k <= n && RowsWithin(h, n)
    ensures forall e :: e in ReducedTable(n, k, h) ==> IsCosetMinimum(h, n, e.syndrome, e.w)
  {
    ReducedTableWalk(n, k, h);
    SortedVectorsSpec(n);
    var sorted := SortedVectors(n);
    var r := ReducedTable(n, k, h);
    forall e | e in r ensures IsCosetMinimum(h, n, e.syndrome, e.w) {
      assert EntriesFromFirst(sorted, h, n, |sorted|, r);
      var j :| 0 <= j < |sorted| && FirstWithSyndrome(sorted, h, n, j, e.syndrome) &&
        e.w == CalculateWeight(sorted[j]);
      FirstIsCosetMinimum(sorted, h, n, j, e.syndrome);
    }
  }

  /** The all-zero syndrome is a key, with weight 0. */
  lemma ReducedTableHasZero(n: nat, k: nat, h: Matrix)
    requires k <= n && RowsWithin(h, n)
    ensures Entry(Zeros(|h|), 0) in ReducedTable(n, k, h)
  {
    var r := ReducedTable(n, k, h);
    var sorted := SortedVectors(n);
    SortedVectorsSpec(n);
    ReducedTableWalk(n, k, h);
    ReducedTableCosetMinimum(n, k, h);
    WeightOfZeros(n);
    SyndromeOfZero(n, h);
    assert Zeros(n) in sorted;
    var z :| 0 <= z < |sorted| && sorted[z] == Zeros(n);
    assert CalculateWeight(sorted[0]) == 0;
    assert sorted[0] in sorted;
    WeightZeroIsZeros(sorted[0]);
    var j :| 0 <= j < |r| && r[j].syndrome == Zeros(|h|);
    assert r[j] in r;
    assert IsCosetMinimum(h, n, Zeros(|h|), r[j].w);
  }

  /** In a table with distinct syndromes, the lookup of a key returns that key's weight. */
  lemma LookupKey(table: seq<Entry>, e: Entry)
    requires Distinct(Keys(table)) && e in table
    ensures Lookup(table, e.syndrome) == e.w
  {
    var p :| 0 <= p < |table| && table[p] == e;
    forall i | 0 <= i < p ensures table[i].syndrome != e.syndrome {
      assert Keys(table)[i] != Keys(table)[p];
    }
    LookupFirst(table, e.syndrome, p);
  }

  /** Either the walk stopped at 2^(n-k) entries, or the syndrome of every binary vector of
      length n is a key. */
  lemma ReducedTableComplete(n: nat, k: nat, h: Matrix)
    requires k <= n && RowsWithin(h, n)
    ensures |ReducedTable(n, k, h)| == Pow2(n - k) ||
      forall v :: |v| == n && IsBinary(v) ==> Syndrome(v, h) in Keys(ReducedTable(n, k, h))
  {
    ReducedTableWalk(n, k, h);
    SortedVectorsSpec(n);
    var sorted := SortedVectors(n);
    forall v | |v| == n && IsBinary(v) ensures v in sorted {
    }
  }

  /** With a binary H, every key is a binary string of length |H|. */
  lemma ReducedTableKeysBinary(n: nat, k: nat, h: Matrix)
    requires k <= n && RowsWithin(h, n) && IsBinaryMatrix(h)
    ensures forall s :: s in Keys(ReducedTable(n, k, h)) ==> |s| == |h| && IsBinary(s)
  {
    var r := ReducedTable(n, k, h);
    ReducedTableCosetMinimum(n, k, h);
    forall s | s in Keys(r) ensures |s| == |h| && IsBinary(s) {
      var j :| 0 <= j < |r| && r[j].syndrome == s;
      assert r[j] in r;
      var v :| |v| == n && IsBinary(v) && Syndrome(v, h) == s && CalculateWeight(v) == r[j].w;
      SyndromeBinary(v, h);
    }
  }

  /** Distinct binary strings of length m: there are at most 2^m of them, and exactly 2^m
      when they include every binary string of length m. */
  lemma BinaryKeys(keys: seq<seq<int>>, m: nat)
    requires Distinct(keys)
    requires forall s :: s in keys ==> |s| == m && IsBinary(s)
    ensures |keys| <= Pow2(m)
    ensures |keys| == Pow2(m) <==> forall s :: |s| == m && IsBinary(s) ==> s in keys
  {
    var all := AllVectors(m);
    AllVectorsExactly(m);
    ElementsCard(all);
    ElementsCard(keys);
    assert Elements(keys) <= Elements(all);
    SubsetCard(Elements(keys), Elements(all));
    if |keys| == Pow2(m) {
      forall s | |s| == m && IsBinary(s) ensures s in keys {
        if s !in keys {
          SubsetCard(Elements(keys) + {s}, Elements(all));
        }
      }
    }
    if forall s :: |s| == m && IsBinary(s) ==> s in keys {
      assert Elements(all) <= Elements(keys);
      SubsetCard(Elements(all), Elements(keys));
    }
  }

  /** s preceded by k zeros: a vector whose syndrome under [A^T | I] is s itself. */
  function Padded(k: nat, s: seq<int>): (v: seq<int>)
    ensures |v| == k + |s| && v[k..] == s
    ensures IsBinary(s) ==> IsBinary(v)
  {
    Zeros(k) + s
  }

  /** When every binary string of length |H| = n-k is the syndrome of some binary vector
      of length n, the table has exactly 2^(n-k) entries and every such string is a key. */
  lemma ReducedTableFullWhenOnto(n: nat, k: nat, h: Matrix)
    requires k <= n && RowsWithin(h, n) && IsBinaryMatrix(h) && |h| == n - k
    requires forall s {:trigger Padded(k, s)} :: |s| == n - k && IsBinary(s) ==> Syndrome(Padded(k, s), h) == s
    ensures |ReducedTable(n, k, h)| == Pow2(n - k)
    ensures forall s :: |s| == n - k && IsBinary(s) ==> s in Keys(ReducedTable(n, k, h))
  {
    var keys := Keys(ReducedTable(n, k, h));
    ReducedTableDistinct(n, k, h);
    ReducedTableKeysBinary(n, k, h);
    if |keys| != Pow2(n - k) {
      ReducedTableComplete(n, k, h);
      forall s | |s| == n - k && IsBinary(s) ensures s in keys {
        var v := Padded(k, s);
        assert Syndrome(v, h) in keys;
      }
    }
    BinaryKeys(keys, n - k);
  }

  /** For H derived from G = [I_k | A], the table has exactly 2^(n-k) entries and every
      binary syndrome of length n-k is a key. */
  lemma ReducedTableFull(g: Matrix, n: nat, k: nat)
    requires IsStandardForm(g, k, n) && k > 0
    ensures var h := ParityCheck(g);
      && |ReducedTable(n, k, h)| == Pow2(n - k)
      && forall s :: |s| == n - k && IsBinary(s) ==> s in Keys(ReducedTable(n, k, h))
  {
    var h := ParityCheck(g);
    forall s | |s| == n - k && IsBinary(s)
      ensures Syndrome(Padded(k, s), h) == s
    {
      SyndromeOfParityPart(g, n, k, s);
    }
    ReducedTableFullWhenOnto(n, k, h);
  }

  /** Looking up a key of the table returns the least weight in that key's coset. */
  lemma LookupCosetMinimum(n: nat, k: nat, h: Matrix, s: seq<int>)
    requires k <= n && RowsWithin(h, n) && s in Keys(ReducedTable(n, k, h))
    ensures IsCosetMinimum(h, n, s, Lookup(ReducedTable(n, k, h), s))
  {
    var r := ReducedTable(n, k, h);
    ReducedTableDistinct(n, k, h);
    ReducedTableCosetMinimum(n, k, h);
    var j :| 0 <= j < |r| && r[j].syndrome == s;
    assert r[j] in r;
    LookupKey(r, r[j]);
  }

  /** With H derived from a standard-form G, looking up the syndrome of any binary vector
      of length n returns the least weight in its coset. */
  lemma StandardLookup(g: Matrix, n: nat, k: nat, v: seq<int>)
    requires IsStandardForm(g, k, n) && k > 0 && |v| == n && IsBinary(v)
    ensures IsCosetMinimum(ParityCheck(g), n, Syndrome(v, ParityCheck(g)),
      Lookup(ReducedTable(n, k, ParityCheck(g)), Syndrome(v, ParityCheck(g))))
  {
    var h := ParityCheck(g);
    var s := Syndrome(v, h);
    SyndromeBinary(v, h);
    ReducedTableFull(g, n, k);
    LookupCosetMinimum(n, k, h, s);
  }
}
