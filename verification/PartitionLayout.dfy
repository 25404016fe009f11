/** Laying out and checking a partition table in components/partition_table/gen_esp32part.py:
    the tail of from_csv, verify and flash_size. */
module PartitionLayout {
  import opened Basics

  const PARTITION_TABLE_SIZE := 0x1000
  const APP_TYPE := 0

  /** A row of the CSV file. A negative size names the end of the partition. */
  datatype Row = Row(name: string, typ: int, offset: Option<int>, size: int)

  /** PartitionDefinition with offset and size filled in. */
  datatype Partition = Partition(name: string, typ: int, offset: int, size: int) {
    function End(): int {
      offset + size
    }
  }

  function PadTo(typ: int): int {
    if typ == APP_TYPE then 0x1_0000 else 4
  }

  /** The least multiple of pad from x on. */
  function AlignUp(x: int, pad: int): (r: int)
    requires pad == 4 || pad == 0x1_0000
    ensures r % pad == 0 && x <= r < x + pad
  {
    MultipleAbove(x);
    if x % pad != 0 then x + (pad - x % pad) else x
  }

  lemma MultipleAbove(x: int)
    ensures (x + (4 - x % 4)) % 4 == 0 && (x + (0x1_0000 - x % 0x1_0000)) % 0x1_0000 == 0
  {
    assert x + (4 - x % 4) == 4 * (x / 4 + 1);
    assert x + (0x1_0000 - x % 0x1_0000) == 0x1_0000 * (x / 0x1_0000 + 1);
  }

  /** Where the next partition may start. */
  function LastEnd(done: seq<Partition>, table: int): int {
    if done == [] then table + PARTITION_TABLE_SIZE else done[|done| - 1].End()
  }

  /** The row got the place that from_csv gives it behind the partitions in done. */
  predicate Placed(row: Row, p: Partition, done: seq<Partition>, table: int) {
    var last := LastEnd(done, table);
    && p.name == row.name && p.typ == row.typ
    && (if row.offset.None? || (table != 0 && row.offset.value < last)
        then p.offset == AlignUp(last, PadTo(row.typ))
        else p.offset == row.offset.value)
    && p.size == if row.size < 0 then -row.size - p.offset else row.size
  }

  /** The loop of from_csv that fixes up missing offsets and negative sizes. */
  method FixUp(rows: seq<Row>, table: int) returns (res: seq<Partition>)
    ensures |res| == |rows|
    ensures forall i :: 0 <= i < |rows| ==> Placed(rows[i], res[i], res[..i], table)
  {
    res := [];
    var lastEnd := table + PARTITION_TABLE_SIZE;
    for i := 0 to |rows|
      invariant |res| == i && lastEnd == LastEnd(res, table)
      invariant forall j :: 0 <= j < i ==> Placed(rows[j], res[j], res[..j], table)
    {
      var offset, size := rows[i].offset, rows[i].size;
      if table != 0 && offset.Some? && offset.value < lastEnd {
        offset := None;
      }
      if offset.None? {
        var padTo := PadTo(rows[i].typ);
        lastEnd := AlignUp(lastEnd, padTo);
        offset := Some(lastEnd);
      }
      if size < 0 {
        size := -size - offset.value;
      }
      lastEnd := offset.value + size;
      ghost var before := res;
      res := res + [Partition(rows[i].name, rows[i].typ, offset.value, size)];
      assert res[..i] == before;
      assert forall j :: 0 <= j < i ==> res[..j] == before[..j];
    }
  }

  /** What a row gets: a given offset is kept unless it is below the end of the row before it, else
      the first aligned one behind that; a negative size names the end, any other is kept. */
  lemma {:induction false} PlacedMeans(row: Row, p: Partition, done: seq<Partition>, table: int)
    requires Placed(row, p, done, table)
    ensures var last := if done == [] then table + 0x1000 else done[|done| - 1].offset + done[|done| - 1].size;
            match row.offset
            case Some(o) => table == 0 || o >= last ==> p.offset == o
            case None => true
    ensures var last := if done == [] then table + 0x1000 else done[|done| - 1].offset + done[|done| - 1].size;
            row.offset.None? || (table != 0 && row.offset.value < last) ==>
              last <= p.offset < last + (if row.typ == 0 then 0x1_0000 else 4)
    ensures if row.size < 0 then p.offset + p.size == -row.size else p.size == row.size
  {
  }

  // ----- what the layout guarantees -----

  predicate Disjoint(p: Partition, q: Partition) {
    p.End() <= q.offset || q.End() <= p.offset
  }

  predicate PairwiseDisjoint(s: seq<Partition>) {
    s == [] || ((forall q :: q in s[1..] ==> Disjoint(s[0], q)) && PairwiseDisjoint(s[1..]))
  }

  lemma {:induction false} PairDisjoint(s: seq<Partition>, i: nat, j: nat)
    requires PairwiseDisjoint(s) && i < j < |s|
    ensures Disjoint(s[i], s[j])
  {
    if i == 0 {
      assert s[j] == s[1..][j - 1];
    } else {
      PairDisjoint(s[1..], i - 1, j - 1);
    }
  }

  lemma {:induction false} AllPairsDisjoint(s: seq<Partition>)
    requires forall i, j :: 0 <= i < j < |s| ==> Disjoint(s[i], s[j])
    ensures PairwiseDisjoint(s)
  {
    if s != [] {
      forall i, j | 0 <= i < j < |s[1..]| ensures Disjoint(s[1..][i], s[1..][j]) {
        assert Disjoint(s[i + 1], s[j + 1]);
      }
      forall q | q in s[1..] ensures Disjoint(s[0], q) {
        var k :| 0 <= k < |s[1..]| && s[1..][k] == q;
        assert Disjoint(s[0], s[k + 1]);
      }
      AllPairsDisjoint(s[1..]);
    }
  }

  lemma NotBelow(row: Row, p: Partition, done: seq<Partition>, table: int)
    requires Placed(row, p, done, table) && table != 0
    ensures p.offset >= LastEnd(done, table)
  {
  }

  /** With a table offset and sizes that did not come out negative, the partitions lie above
      the table, in the order of the rows, without overlap; what was filled in is aligned. */
  lemma {:induction false} LayoutSafe(rows: seq<Row>, res: seq<Partition>, table: int)
    requires |res| == |rows| && table != 0
    requires forall i :: 0 <= i < |rows| ==> Placed(rows[i], res[i], res[..i], table)
    requires forall i :: 0 <= i < |res| ==> res[i].size >= 0
    ensures forall i :: 0 <= i < |res| ==> res[i].offset >= table + 0x1000
    ensures forall i, j :: 0 <= i < j < |res| ==> res[i].End() <= res[j].offset
    ensures PairwiseDisjoint(res)
    ensures forall i :: 0 <= i < |res| ==>
              res[i].offset % (if res[i].typ == 0 then 0x1_0000 else 4) == 0 || rows[i].offset == Some(res[i].offset)
  {
    forall i | 0 <= i < |res| ensures res[i].offset >= LastEnd(res[..i], table) {
      NotBelow(rows[i], res[i], res[..i], table);
    }
    forall j | 0 <= j < |res|
      ensures res[j].offset >= table + PARTITION_TABLE_SIZE
      ensures forall i :: 0 <= i < j ==> res[i].End() <= res[j].offset
    {
      AboveAll(res, j, table);
    }
    AllPairsDisjoint(res);
  }

  ghost predicate Above(res: seq<Partition>, j: nat, table: int)
    requires j < |res|
  {
    && res[j].offset >= table + PARTITION_TABLE_SIZE
    && forall i :: 0 <= i < j ==> res[i].End() <= res[j].offset
  }

  lemma {:induction false} AboveAll(res: seq<Partition>, j: nat, table: int)
    requires j < |res|
    requires forall i :: 0 <= i < |res| ==> res[i].size >= 0 && res[i].offset >= LastEnd(res[..i], table)
    ensures Above(res, j, table)
  {
    assert res[j].offset >= LastEnd(res[..j], table);
    if j > 0 {
      AboveAll(res, j - 1, table);
      assert res[..j][j - 1] == res[j - 1];
    }
  }

  // ----- verify -----

  function Alignment(typ: int): int {
    if typ == APP_TYPE then 0x1000 else 4
  }

  datatype Problem = OffsetNotAligned | SizeNotAligned | BelowTable | Overlap

  /** sorted(self, key = offset), which is stable */
  function Insert(p: Partition, s: seq<Partition>): (r: seq<Partition>)
    ensures |r| == |s| + 1
  {
    if s == [] || p.offset <= s[0].offset then [p] + s else [s[0]] + Insert(p, s[1..])
  }

  function Sorted(s: seq<Partition>): (r: seq<Partition>)
    ensures |r| == |s|
  {
    if s == [] then [] else Insert(s[0], Sorted(s[1..]))
  }

  predicate Ascending(s: seq<Partition>) {
    s == [] || ((forall q :: q in s[1..] ==> s[0].offset <= q.offset) && Ascending(s[1..]))
  }

  lemma {:induction false} InsertMultiset(p: Partition, s: seq<Partition>)
    ensures multiset(Insert(p, s)) == multiset(s) + multiset{p}
  {
    if s == [] || p.offset <= s[0].offset {
    } else {
      InsertMultiset(p, s[1..]);
      assert s == [s[0]] + s[1..];
    }
  }

  lemma {:induction false} SortedMultiset(s: seq<Partition>)
    ensures multiset(Sorted(s)) == multiset(s)
  {
    if s != [] {
      SortedMultiset(s[1..]);
      InsertMultiset(s[0], Sorted(s[1..]));
      assert s == [s[0]] + s[1..];
    }
  }

  lemma {:induction false} SortedElements(s: seq<Partition>)
    ensures forall q :: q in Sorted(s) <==> q in s
  {
    SortedMultiset(s);
    assert forall q :: q in Sorted(s) <==> q in multiset(Sorted(s));
  }

  lemma {:induction false} InsertElements(p: Partition, s: seq<Partition>)
    ensures forall q :: q in Insert(p, s) <==> q == p || q in s
  {
    InsertMultiset(p, s);
    assert forall q :: q in Insert(p, s) <==> q in multiset(Insert(p, s));
  }

  lemma {:induction false} InsertAscending(p: Partition, s: seq<Partition>)
    requires Ascending(s)
    ensures Ascending(Insert(p, s))
  {
    if s == [] || p.offset <= s[0].offset {
    } else {
      InsertAscending(p, s[1..]);
      InsertElements(p, s[1..]);
    }
  }

  lemma {:induction false} InsertDisjoint(p: Partition, s: seq<Partition>)
    ensures PairwiseDisjoint(Insert(p, s)) <==> PairwiseDisjoint(s) && forall q :: q in s ==> Disjoint(p, q)
  {
    if s == [] || p.offset <= s[0].offset {
      assert ([p] + s)[1..] == s;
    } else {
      var rest := Insert(p, s[1..]);
      InsertDisjoint(p, s[1..]);
      InsertElements(p, s[1..]);
      assert Insert(p, s) == [s[0]] + rest && ([s[0]] + rest)[1..] == rest;
      assert PairwiseDisjoint(Insert(p, s)) <==> PairwiseDisjoint(rest) && forall q :: q in rest ==> Disjoint(s[0], q);
      assert forall q :: q in s <==> q == s[0] || q in s[1..];
      assert Disjoint(s[0], p) == Disjoint(p, s[0]);
    }
  }

  lemma {:induction false} SortedFacts(s: seq<Partition>)
    ensures Ascending(Sorted(s))
    ensures PairwiseDisjoint(Sorted(s)) <==> PairwiseDisjoint(s)
  {
    if s != [] {
      SortedFacts(s[1..]);
      SortedElements(s[1..]);
      InsertAscending(s[0], Sorted(s[1..]));
      InsertDisjoint(s[0], Sorted(s[1..]));
    }
  }

  function AtOffset(s: seq<Partition>, o: int): seq<Partition> {
    if s == [] then [] else (if s[0].offset == o then [s[0]] else []) + AtOffset(s[1..], o)
  }

  lemma {:induction false} InsertStable(p: Partition, s: seq<Partition>, o: int)
    requires Ascending(s)
    ensures AtOffset(Insert(p, s), o) == (if p.offset == o then [p] else []) + AtOffset(s, o)
  {
    if s == [] || p.offset <= s[0].offset {
      assert ([p] + s)[1..] == s;
    } else {
      assert Insert(p, s)[1..] == Insert(p, s[1..]);
      InsertStable(p, s[1..], o);
      if p.offset == o { assert s[0].offset != o; }
    }
  }

  /** Partitions at the same offset stay in the order in which they are listed. */
  lemma {:induction false} SortedStable(s: seq<Partition>, o: int)
    ensures AtOffset(Sorted(s), o) == AtOffset(s, o)
  {
    if s != [] {
      SortedStable(s[1..], o);
      SortedFacts(s[1..]);
      InsertStable(s[0], Sorted(s[1..]), o);
    }
  }

  predicate FieldsFine(p: Partition, secure: bool) {
    p.offset % Alignment(p.typ) == 0 && (secure ==> p.size % Alignment(p.typ) == 0)
  }

  /** Every partition ends where its successor starts, or earlier. */
  predicate NoNeighbourOverlaps(t: seq<Partition>) {
    forall i :: 0 < i < |t| ==> t[i - 1].End() <= t[i].offset
  }

  /** PartitionTable.verify; None if nothing is raised. What is raised is about some partition, and
      the fields of all are looked at first. */
  method Verify(s: seq<Partition>, table: int, secure: bool) returns (problem: Option<Problem>)
    ensures problem.None? <==>
              && (forall p :: p in s ==>
                    var align := if p.typ == 0 then 0x1000 else 4;
                    p.offset % align == 0 && (secure ==> p.size % align == 0) && p.offset >= table + 0x1000)
              && NoNeighbourOverlaps(Sorted(s))
    ensures problem == Some(OffsetNotAligned) ==>
              exists p :: p in s && p.offset % (if p.typ == 0 then 0x1000 else 4) != 0
    ensures problem == Some(SizeNotAligned) ==>
              secure && exists p :: p in s && p.size % (if p.typ == 0 then 0x1000 else 4) != 0
    ensures problem == Some(BelowTable) ==> exists p :: p in s && p.offset < table + 0x1000
    ensures problem == Some(Overlap) ==> !NoNeighbourOverlaps(Sorted(s))
    ensures problem in {Some(BelowTable), Some(Overlap)} ==> forall p :: p in s ==> FieldsFine(p, secure)
  {
    for i := 0 to |s|
      invariant forall j :: 0 <= j < i ==> FieldsFine(s[j], secure)
    {
      if s[i].offset % Alignment(s[i].typ) != 0 {
        return Some(OffsetNotAligned);
      }
      if s[i].size % Alignment(s[i].typ) != 0 && secure {
        return Some(SizeNotAligned);
      }
    }
    var t := Sorted(s);
    SortedElements(s);
    for i := 0 to |t|
      invariant forall j :: 0 <= j < i ==> t[j].offset >= table + PARTITION_TABLE_SIZE
      invariant forall j :: 0 < j < i ==> t[j - 1].End() <= t[j].offset
    {
      if t[i].offset < table + PARTITION_TABLE_SIZE {
        assert t[i] in s;
        return Some(BelowTable);
      }
      if i > 0 && t[i].offset < t[i - 1].End() {
        return Some(Overlap);
      }
    }
    return None;
  }

  lemma {:induction false} NeighboursPairwise(t: seq<Partition>)
    requires Ascending(t) && forall p :: p in t ==> p.size > 0
    ensures NoNeighbourOverlaps(t) <==> PairwiseDisjoint(t)
  {
    if |t| >= 2 {
      NeighboursPairwise(t[1..]);
      assert NoNeighbourOverlaps(t) <==> t[0].End() <= t[1].offset && NoNeighbourOverlaps(t[1..]) by {
        if t[0].End() <= t[1].offset && NoNeighbourOverlaps(t[1..]) {
          forall i | 0 < i < |t| ensures t[i - 1].End() <= t[i].offset {
            if i > 1 { assert t[1..][i - 2].End() <= t[1..][i - 1].offset; }
          }
        }
        if NoNeighbourOverlaps(t) {
          forall i | 0 < i < |t[1..]| ensures t[1..][i - 1].End() <= t[1..][i].offset {
            assert t[i].End() <= t[i + 1].offset;
          }
        }
      }
      assert t[1] in t[1..] && t[1..][0] == t[1];
      forall q | q in t[1..] ensures t[1].offset <= q.offset && q.size > 0 {
        assert q == t[1] || q in t[1..][1..];
      }
    }
  }

  /** Comparing neighbours in sorted order is enough: for partitions of positive size the
      check passes exactly when no two of them overlap, in whatever order they are listed. */
  lemma {:induction false} NeighboursSuffice(s: seq<Partition>)
    requires forall p :: p in s ==> p.size > 0
    ensures NoNeighbourOverlaps(Sorted(s)) <==> PairwiseDisjoint(s)
  {
    SortedFacts(s);
    SortedElements(s);
    NeighboursPairwise(Sorted(s));
  }

  // ----- flash_size -----

  /** sorted(self, reverse = True)[0]: the first of the partitions with the highest offset. */
  function Latest(s: seq<Partition>): (p: Partition)
    requires s != []
    ensures p in s && forall q :: q in s ==> q.offset <= p.offset
  {
    if |s| == 1 then s[0]
    else
      var q := Latest(s[1..]);
      assert s == [s[0]] + s[1..];
      if q.offset <= s[0].offset then s[0] else q
  }

  /** Of several that start last it is the one listed first. */
  lemma {:induction false} LatestFirst(s: seq<Partition>) returns (k: nat)
    requires s != []
    ensures k < |s| && s[k] == Latest(s) && forall j :: 0 <= j < k ==> s[j].offset < s[k].offset
  {
    k := 0;
    if |s| > 1 {
      var rest := s[1..];
      var n := LatestFirst(rest);
      if rest[n].offset > s[0].offset {
        k := n + 1;
        forall j | 0 <= j < k ensures s[j].offset < s[k].offset {
          if j > 0 { assert s[j] == rest[j - 1]; }
        }
      }
    }
  }

  function FlashSize(s: seq<Partition>): int {
    if s == [] then 0 else Latest(s).End()
  }

  /** Without overlaps the partition that starts last also ends last. */
  lemma {:induction false} FlashSizeIsEnd(s: seq<Partition>)
    requires s != [] && PairwiseDisjoint(s) && forall p :: p in s ==> p.size > 0
    ensures exists p :: p in s && FlashSize(s) == p.End()
    ensures forall p :: p in s ==> p.End() <= FlashSize(s)
  {
    var last := Latest(s);
    forall p | p in s ensures p.End() <= last.End() {
      var i :| 0 <= i < |s| && s[i] == p;
      var j :| 0 <= j < |s| && s[j] == last;
      if i < j { PairDisjoint(s, i, j); }
      if j < i { PairDisjoint(s, j, i); }
    }
  }
}
