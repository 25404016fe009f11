/** The binary form of a partition table in components/partition_table/gen_esp32part.py:
    PartitionTable.to_binary and from_binary. */
module PartitionBinary {
  import opened Basics

  newtype byte = x: int | 0 <= x < 256
  type bytes = seq<byte>

  /** PartitionDefinition; the name is the encoded string. */
  datatype Entry = Entry(name: bytes, typ: int, subtype: int, offset: int, size: int, encrypted: bool)

  const BLOCK: nat := 32
  const MAX_PARTITION_LENGTH: nat := 0xC00
  const MAGIC: bytes := [0xAA, 0x50]
  const MD5_MAGIC: bytes := [0xEB, 0xEB]

  function Repeat(b: byte, n: nat): bytes {
    seq(n, _ => b)
  }

  const MD5_PARTITION_BEGIN: bytes := MD5_MAGIC + Repeat(0xFF, 14)

  /** A hash function with a 16-byte digest. */
  type Md5 = f: bytes -> bytes | forall b :: |f(b)| == 16 witness (b: bytes) => Repeat(0, 16)

  // ----- fields -----

  function LE32(v: int): bytes
    requires 0 <= v < 0x1_0000_0000
  {
    [(v % 256) as byte, (v / 0x100 % 256) as byte, (v / 0x1_0000 % 256) as byte, (v / 0x100_0000) as byte]
  }

  function FromLE32(b: bytes): int
    requires |b| == 4
  {
    b[0] as int + b[1] as int * 0x100 + b[2] as int * 0x1_0000 + b[3] as int * 0x100_0000
  }

  lemma LE32RoundTrip(v: int)
    requires 0 <= v < 0x1_0000_0000
    ensures FromLE32(LE32(v)) == v
  {
    assert v == 256 * (v / 256) + v % 256;
    assert v / 256 == 256 * (v / 0x1_0000) + v / 256 % 256;
    assert v / 0x1_0000 == 256 * (v / 0x100_0000) + v / 0x1_0000 % 256;
  }

  /** struct format "16s": cut off or filled up with NUL. */
  function PadName(name: bytes): (r: bytes)
    ensures |r| == 16
  {
    if |name| >= 16 then name[..16] else name + Repeat(0, 16 - |name|)
  }

  function StripNul(b: bytes): bytes {
    if b == [] || b[0] == 0 then [] else [b[0]] + StripNul(b[1..])
  }

  predicate NulFree(b: bytes) {
    forall i :: 0 <= i < |b| ==> b[i] != 0
  }

  lemma {:induction false} StripPadding(name: bytes, n: nat)
    requires NulFree(name)
    ensures StripNul(name + Repeat(0, n)) == name
  {
    if name == [] {
      assert name + Repeat(0, n) == Repeat(0, n);
    } else {
      assert (name + Repeat(0, n))[1..] == name[1..] + Repeat(0, n);
      StripPadding(name[1..], n);
    }
  }

  // ----- one entry -----

  /** Field values that struct.pack accepts. */
  predicate Packable(e: Entry) {
    && 0 <= e.typ < 256 && 0 <= e.subtype < 256
    && 0 <= e.offset < 0x1_0000_0000 && 0 <= e.size < 0x1_0000_0000
  }

  /** PartitionDefinition.to_binary; None is the exception of struct.pack. */
  function EntryToBinary(e: Entry): (r: Option<bytes>)
    ensures r.Some? ==> |r.value| == BLOCK && r.value[..2] == MAGIC
  {
    if !Packable(e) then None
    else
      var head := MAGIC + [e.typ as byte, e.subtype as byte];
      var r := head + LE32(e.offset) + LE32(e.size) + PadName(e.name) + LE32(if e.encrypted then 1 else 0);
      assert r[..2] == MAGIC;
      Some(r)
  }

  /** PartitionDefinition.from_binary; None is an exception. Flag bits other than the first
      are only warned about. */
  function EntryFromBinary(b: bytes): Option<Entry> {
    if |b| != BLOCK || b[..2] != MAGIC then None
    else Some(Entry(StripNul(b[12..28]), b[2] as int, b[3] as int, FromLE32(b[4..8]), FromLE32(b[8..12]),
                    FromLE32(b[28..32]) % 2 == 1))
  }

  /** An entry survives exactly when its name fits and has no NUL in it. */
  lemma EntryRoundTrip(e: Entry)
    requires Packable(e)
    ensures EntryFromBinary(EntryToBinary(e).value) == Some(e) <==> |e.name| <= 16 && NulFree(e.name)
  {
    var b := EntryToBinary(e).value;
    var flags := LE32(if e.encrypted then 1 else 0);
    assert b[4..8] == LE32(e.offset) && b[8..12] == LE32(e.size);
    assert b[12..28] == PadName(e.name) && b[28..32] == flags;
    LE32RoundTrip(e.offset);
    LE32RoundTrip(e.size);
    LE32RoundTrip(if e.encrypted then 1 else 0);
    if |e.name| <= 16 && NulFree(e.name) {
      assert PadName(e.name) == e.name + Repeat(0, 16 - |e.name|);
      StripPadding(e.name, 16 - |e.name|);
    } else {
      StripNulFacts(PadName(e.name));
    }
  }

  lemma {:induction false} StripNulFacts(b: bytes)
    ensures |StripNul(b)| <= |b| && NulFree(StripNul(b))
  {
    if b != [] && b[0] != 0 { StripNulFacts(b[1..]); }
  }

  // ----- the table -----

  function EntriesToBinary(t: seq<Entry>): (r: Option<bytes>)
    ensures r.Some? ==> |r.value| == 32 * |t|
  {
    if t == [] then Some([])
    else
      match (EntriesToBinary(t[..|t| - 1]), EntryToBinary(t[|t| - 1]))
      case (Some(a), Some(b)) => Some(a + b)
      case _ => None
  }

  /** The checksum entry that follows the entries. */
  function Checksum(body: bytes, md5sum: bool, md5: Md5): (r: bytes)
    ensures |r| == if md5sum then BLOCK else 0
  {
    if md5sum then MD5_PARTITION_BEGIN + md5(body) else []
  }

  /** Filled up with ones to the length of the table; None if nothing would be left to fill. */
  function FillUp(b: bytes): (r: Option<bytes>)
    ensures r.Some? ==> |b| < MAX_PARTITION_LENGTH == |r.value|
  {
    if |b| >= MAX_PARTITION_LENGTH then None else Some(b + Repeat(0xFF, MAX_PARTITION_LENGTH - |b|))
  }

  /** PartitionTable.to_binary; None is an exception, of packing or because of the length. */
  function ToBinary(t: seq<Entry>, md5sum: bool, md5: Md5): Option<bytes> {
    match EntriesToBinary(t)
    case None => None
    case Some(body) => FillUp(body + Checksum(body, md5sum, md5))
  }

  datatype Parsed = Parsed(entries: seq<Entry>) | Failed

  /** PartitionTable.from_binary from block o on, when the bytes in hashed have gone into the
      checksum and the entries in done have been read. */
  function Parse(b: bytes, o: nat, hashed: bytes, done: seq<Entry>, md5sum: bool, md5: Md5): Parsed
    decreases |b| - o
  {
    if o >= |b| then Failed
    else if |b| - o < BLOCK then Failed
    else
      var data := b[o..o + BLOCK];
      if data == Repeat(0xFF, BLOCK) then Parsed(done)
      else if md5sum && data[..2] == MD5_MAGIC then
        if data[16..] == md5(hashed) then Parse(b, o + BLOCK, hashed, done, md5sum, md5) else Failed
      else
        match EntryFromBinary(data)
        case None => Failed
        case Some(e) => Parse(b, o + BLOCK, hashed + data, done + [e], md5sum, md5)
  }

  /** The loop of from_binary. */
  method FromBinary(b: bytes, md5sum: bool, md5: Md5) returns (r: Parsed)
    ensures r == Parse(b, 0, [], [], md5sum, md5)
  {
    var o, hashed, result := 0, [], [];
    while o < |b|
      invariant Parse(b, o, hashed, result, md5sum, md5) == Parse(b, 0, [], [], md5sum, md5)
      decreases |b| - o
    {
      var data := b[o..if o + BLOCK <= |b| then o + BLOCK else |b|];
      if |data| != BLOCK {
        return Failed;
      }
      o := o + BLOCK;
      if data == Repeat(0xFF, BLOCK) {
        return Parsed(result);
      }
      if md5sum && data[..2] == MD5_MAGIC {
        if data[16..] != md5(hashed) {
          return Failed;
        }
      } else {
        hashed := hashed + data;
        var e := EntryFromBinary(data);
        if e.None? {
          return Failed;
        }
        result := result + [e.value];
      }
    }
    return Failed;
  }

  predicate Storable(t: seq<Entry>) {
    forall i :: 0 <= i < |t| ==> Packable(t[i]) && |t[i].name| <= 16 && NulFree(t[i].name)
  }

  lemma {:induction false} EntriesPackable(t: seq<Entry>)
    requires Storable(t)
    ensures EntriesToBinary(t).Some?
  {
    if t != [] { EntriesPackable(t[..|t| - 1]); }
  }

  /** What one round of the loop does with each of the three kinds of block. */
  lemma EntryBlock(b: bytes, o: nat, hashed: bytes, done: seq<Entry>, md5sum: bool, md5: Md5)
    requires o + BLOCK <= |b| && b[o..o + BLOCK][..2] == MAGIC && EntryFromBinary(b[o..o + BLOCK]).Some?
    ensures Parse(b, o, hashed, done, md5sum, md5)
         == Parse(b, o + BLOCK, hashed + b[o..o + BLOCK], done + [EntryFromBinary(b[o..o + BLOCK]).value], md5sum, md5)
  {
    var data := b[o..o + BLOCK];
    assert data[0] == data[..2][0] == 0xAA;
    assert data[..2][0] != MD5_MAGIC[0];
    assert data[0] != Repeat(0xFF, BLOCK)[0];
  }

  lemma ChecksumBlock(b: bytes, o: nat, hashed: bytes, done: seq<Entry>, md5: Md5)
    requires o + BLOCK <= |b| && b[o..o + BLOCK] == MD5_PARTITION_BEGIN + md5(hashed)
    ensures Parse(b, o, hashed, done, true, md5) == Parse(b, o + BLOCK, hashed, done, true, md5)
  {
    var data := b[o..o + BLOCK];
    assert data[..2] == MD5_MAGIC && data[16..] == md5(hashed);
    assert data[0] != Repeat(0xFF, BLOCK)[0];
  }

  lemma {:induction false} EndBlock(b: bytes, o: nat, hashed: bytes, done: seq<Entry>, md5sum: bool, md5: Md5)
    requires o + BLOCK <= |b| && b[o..o + BLOCK] == Repeat(0xFF, BLOCK)
    ensures Parse(b, o, hashed, done, md5sum, md5) == Parsed(done)
  {
  }

  /** Reading the entries of t off a binary that starts with them. */
  lemma {:induction false} ParseEntries(t: seq<Entry>, rest: bytes, md5sum: bool, md5: Md5)
    requires Storable(t) && EntriesToBinary(t).Some?
    ensures Parse(EntriesToBinary(t).value + rest, 0, [], [], md5sum, md5)
         == Parse(EntriesToBinary(t).value + rest, 32 * |t|, EntriesToBinary(t).value, t, md5sum, md5)
    decreases |t|
  {
    var b := EntriesToBinary(t).value + rest;
    if t != [] {
      var k := |t| - 1;
      var front, last := t[..k], t[k];
      var a, c := EntriesToBinary(front).value, EntryToBinary(last).value;
      Reassociate(a, c, rest);
      ParseEntries(front, c + rest, md5sum, md5);
      BlockAt(a, c, rest);
      EntryRoundTrip(last);
      EntryBlock(b, 32 * k, a, front, md5sum, md5);
      FrontAndLast(t);
    }
  }

  lemma FrontAndLast(t: seq<Entry>)
    requires t != []
    ensures t[..|t| - 1] + [t[|t| - 1]] == t
  {
  }

  lemma Reassociate(a: bytes, b: bytes, c: bytes)
    ensures (a + b) + c == a + (b + c)
  {
  }

  lemma BlockAt(a: bytes, c: bytes, rest: bytes)
    ensures (a + (c + rest))[|a|..|a| + |c|] == c
  {
  }

  lemma Image(t: seq<Entry>, md5sum: bool, md5: Md5) returns (body: bytes, sum: bytes, n: nat)
    requires ToBinary(t, md5sum, md5).Some?
    ensures EntriesToBinary(t) == Some(body) && sum == Checksum(body, md5sum, md5) && n >= BLOCK
    ensures ToBinary(t, md5sum, md5) == Some(body + sum + Repeat(0xFF, n))
  {
    body := EntriesToBinary(t).value;
    sum := Checksum(body, md5sum, md5);
    n := Room(body + sum, |t| + if md5sum then 1 else 0);
  }

  // Whole blocks that do not fill the table leave a whole block.
  lemma Room(b: bytes, blocks: nat) returns (n: nat)
    requires FillUp(b).Some? && |b| == 32 * blocks
    ensures n >= BLOCK && FillUp(b) == Some(b + Repeat(0xFF, n))
  {
    n := MAX_PARTITION_LENGTH - |b|;
    assert n == 32 * (96 - blocks);
  }

  /** The tables that fit: one block fewer with a checksum. */
  lemma TableFits(t: seq<Entry>, md5sum: bool, md5: Md5)
    requires Storable(t)
    ensures ToBinary(t, md5sum, md5).Some? <==> |t| <= if md5sum then 94 else 95
  {
    EntriesPackable(t);
  }

  /** Reading back what was written returns every entry; a table that is accepted leaves room
      for the end marker. */
  lemma {:induction false} TableRoundTrip(t: seq<Entry>, md5sum: bool, md5: Md5)
    requires Storable(t) && |t| <= if md5sum then 94 else 95
    ensures ToBinary(t, md5sum, md5).Some?
    ensures Parse(ToBinary(t, md5sum, md5).value, 0, [], [], md5sum, md5) == Parsed(t)
  {
    TableFits(t, md5sum, md5);
    var body, sum, n := Image(t, md5sum, md5);
    ReadBack(t, body, sum, n, md5sum, md5);
  }

  lemma {:induction false} ReadBack(t: seq<Entry>, body: bytes, sum: bytes, n: nat, md5sum: bool, md5: Md5)
    requires Storable(t) && EntriesToBinary(t) == Some(body) && sum == Checksum(body, md5sum, md5) && n >= BLOCK
    ensures Parse(body + sum + Repeat(0xFF, n), 0, [], [], md5sum, md5) == Parsed(t)
  {
    Reassociate(body, sum, Repeat(0xFF, n));
    ParseEntries(t, sum + Repeat(0xFF, n), md5sum, md5);
    ReadEnd(t, body, sum, n, md5sum, md5);
  }

  // What is behind the entries.
  lemma {:induction false} ReadEnd(t: seq<Entry>, body: bytes, sum: bytes, n: nat, md5sum: bool, md5: Md5)
    requires sum == Checksum(body, md5sum, md5) && n >= BLOCK
    ensures Parse(body + sum + Repeat(0xFF, n), |body|, body, t, md5sum, md5) == Parsed(t)
  {
    var b := body + sum + Repeat(0xFF, n);
    if md5sum {
      Reassociate(body, sum, Repeat(0xFF, n));
      BlockAt(body, sum, Repeat(0xFF, n));
      ChecksumBlock(b, |body|, body, t, md5);
    }
    EndMarker(body + sum, n);
    EndBlock(b, |body + sum|, body, t, md5sum, md5);
  }

  lemma EndMarker(a: bytes, n: nat)
    requires n >= BLOCK
    ensures (a + Repeat(0xFF, n))[|a|..|a| + BLOCK] == Repeat(0xFF, BLOCK)
  {
  }

  // ----- the bytes themselves -----

  /** The number whose little-endian bytes start at position i. */
  function NumberAt(b: bytes, i: nat): int
    requires i + 4 <= |b|
  {
    b[i] as int + 0x100 * (b[i + 1] as int) + 0x1_0000 * (b[i + 2] as int) + 0x100_0000 * (b[i + 3] as int)
  }

  lemma Slices(head: bytes, a: bytes, b: bytes, name: bytes, c: bytes)
    requires |head| == |a| == |b| == |c| == 4 && |name| == 16
    ensures var r := head + a + b + name + c;
            r[4..8] == a && r[8..12] == b && r[12..28] == name && r[28..32] == c && r[..4] == head
  {
  }

  /** Where the fields of a written entry are. */
  lemma EntryLayout(e: Entry)
    requires Packable(e)
    ensures EntryToBinary(e).Some?
    ensures var b := EntryToBinary(e).value;
            && |b| == 32 && b[0] == 0xAA && b[1] == 0x50 && b[2] as int == e.typ && b[3] as int == e.subtype
            && NumberAt(b, 4) == e.offset && NumberAt(b, 8) == e.size
            && (forall i :: 0 <= i < 16 ==> b[12 + i] == if i < |e.name| then e.name[i] else 0)
            && NumberAt(b, 28) == if e.encrypted then 1 else 0
  {
    var b, flags := EntryToBinary(e).value, if e.encrypted then 1 else 0;
    LE32RoundTrip(e.offset);
    LE32RoundTrip(e.size);
    LE32RoundTrip(flags);
    Slices(MAGIC + [e.typ as byte, e.subtype as byte], LE32(e.offset), LE32(e.size), PadName(e.name), LE32(flags));
    forall i | 0 <= i < 16 ensures b[12 + i] == if i < |e.name| then e.name[i] else 0 {
      assert b[12 + i] == b[12..28][i];
    }
    forall i | i in {4, 8, 28} ensures NumberAt(b, i) == FromLE32(b[i..i + 4]) {}
  }

  lemma {:induction false} StripNulExactly(b: bytes, n: nat)
    requires n <= |b| && NulFree(b[..n]) && (n < |b| ==> b[n] == 0)
    ensures StripNul(b) == b[..n]
  {
    if n > 0 {
      assert b[..n][0] == b[0];
      assert b[1..][..n - 1] == b[..n][1..];
      StripNulExactly(b[1..], n - 1);
      assert b[..n] == [b[0]] + b[1..][..n - 1];
    }
  }

  /** What is read from a block, well-formed or not: n is where its name ends. */
  lemma EntryRead(b: bytes, n: nat)
    requires |b| == 32 && n <= 16 && NulFree(b[12..12 + n]) && (n < 16 ==> b[12 + n] == 0)
    ensures EntryFromBinary(b)
         == if b[0] == 0xAA && b[1] == 0x50 then
              Some(Entry(b[12..12 + n], b[2] as int, b[3] as int, NumberAt(b, 4), NumberAt(b, 8), b[28] % 2 == 1))
            else None
  {
    assert b[..2] == [b[0], b[1]];
    assert b[12..28][..n] == b[12..12 + n];
    StripNulExactly(b[12..28], n);
    forall i | i in {4, 8, 28} ensures NumberAt(b, i) == FromLE32(b[i..i + 4]) {}
    FlagBit(b[28] as int, b[29] as int, b[30] as int, b[31] as int);
  }

  lemma FlagBit(a: int, b: int, c: int, d: int)
    ensures (a + b * 0x100 + c * 0x1_0000 + d * 0x100_0000) % 2 == a % 2
  {
    var n := b * 0x80 + c * 0x8000 + d * 0x80_0000;
    assert a + b * 0x100 + c * 0x1_0000 + d * 0x100_0000 == a + 2 * n;
  }

  /** The 32 bytes of block i. */
  function BlockNo(b: bytes, i: nat): (r: bytes)
    requires 32 * i + 32 <= |b|
    ensures |r| == 32
  {
    b[32 * i..32 * i + 32]
  }

  lemma {:induction false} EntryAt(t: seq<Entry>, i: nat)
    requires EntriesToBinary(t).Some? && i < |t|
    ensures EntryToBinary(t[i]) == Some(BlockNo(EntriesToBinary(t).value, i))
    decreases |t|
  {
    var front := t[..|t| - 1];
    var a, c := EntriesToBinary(front).value, EntryToBinary(t[|t| - 1]).value;
    assert EntriesToBinary(t).value == a + c && |a| == 32 * |front|;
    if i < |front| {
      EntryAt(front, i);
      assert (a + c)[32 * i..32 * i + 32] == a[32 * i..32 * i + 32];
    } else {
      assert (a + c)[32 * i..32 * i + 32] == c;
    }
  }

  lemma ChecksumLayout(body: bytes, md5: Md5)
    ensures var sum := Checksum(body, true, md5);
            && |sum| == 32 && sum[0] == sum[1] == 0xEB && (forall i :: 2 <= i < 16 ==> sum[i] == 0xFF)
            && sum[16..] == md5(body)
  {
  }

  /** A written table: the entries in order, 32 bytes each, the checksum over them, and ones up to
      the length of 0xC00. */
  lemma TableLayout(t: seq<Entry>, md5sum: bool, md5: Md5)
    requires ToBinary(t, md5sum, md5).Some?
    ensures var b, n := ToBinary(t, md5sum, md5).value, 32 * |t|;
            && |b| == 0xC00 && n + (if md5sum then 32 else 0) < 0xC00
            && (forall i :: 0 <= i < |t| ==> EntryToBinary(t[i]) == Some(BlockNo(b, i)))
            && (md5sum ==> b[n] == b[n + 1] == 0xEB && (forall i :: n + 2 <= i < n + 16 ==> b[i] == 0xFF)
                           && b[n + 16..n + 32] == md5(b[..n]))
            && forall i :: n + (if md5sum then 32 else 0) <= i < 0xC00 ==> b[i] == 0xFF
  {
    var body, sum, k := Image(t, md5sum, md5);
    ChecksumLayout(body, md5);
    Reassociate(body, sum, Repeat(0xFF, k));
    assert (body + (sum + Repeat(0xFF, k)))[..|body|] == body;
    forall i | 0 <= i < |t| ensures EntryToBinary(t[i]) == Some(BlockNo(body + sum + Repeat(0xFF, k), i)) {
      EntryAt(t, i);
      BlockInFront(body, sum + Repeat(0xFF, k), i);
    }
    RestLaid(body, sum, k);
  }

  lemma BlockInFront(body: bytes, rest: bytes, i: nat)
    requires 32 * i + 32 <= |body|
    ensures BlockNo(body + rest, i) == BlockNo(body, i)
  {
  }

  lemma RestLaid(body: bytes, sum: bytes, k: nat)
    ensures var b := body + sum + Repeat(0xFF, k);
            && (forall i :: |body| <= i < |body| + |sum| ==> b[i] == sum[i - |body|])
            && (|sum| == 32 ==> b[|body| + 16..|body| + 32] == sum[16..])
            && forall i :: |body| + |sum| <= i < |b| ==> b[i] == 0xFF
  {
  }

  // ----- which binaries are read at all -----

  /** What one block does: a right checksum nothing, an entry is appended and goes into the
      checksum. */
  predicate Step(data: bytes, hashed: bytes, done: seq<Entry>, hashed': bytes, done': seq<Entry>, md5sum: bool,
                 md5: Md5)
    requires |data| == 32
  {
    && (exists i :: 0 <= i < 32 && data[i] != 0xFF)
    && if md5sum && data[0] == data[1] == 0xEB then data[16..] == md5(hashed) && hashed' == hashed && done' == done
       else match EntryFromBinary(data)
         case None => false
         case Some(e) => hashed' == hashed + data && done' == done + [e]
  }

  lemma OnesOrNot(data: bytes)
    requires |data| == 32
    ensures data == Repeat(0xFF, 32) <==> forall i :: 0 <= i < 32 ==> data[i] == 0xFF
    ensures data[..2] == MD5_MAGIC <==> data[0] == data[1] == 0xEB
  {
    assert data[..2] == [data[0], data[1]];
  }

  lemma ParseStep(b: bytes, o: nat, hashed: bytes, done: seq<Entry>, hashed': bytes, done': seq<Entry>, md5sum: bool,
                  md5: Md5)
    requires o + 32 <= |b| && Step(b[o..o + 32], hashed, done, hashed', done', md5sum, md5)
    ensures Parse(b, o, hashed, done, md5sum, md5) == Parse(b, o + 32, hashed', done', md5sum, md5)
  {
    OnesOrNot(b[o..o + 32]);
  }

  type State = (bytes, seq<Entry>)

  function StepOf(b: bytes, md5sum: bool, md5: Md5): (int, State, State) -> bool {
    (i: int, s: State, s': State) =>
      0 <= i && 32 * i + 32 <= |b| && Step(BlockNo(b, i), s.0, s.1, s'.0, s'.1, md5sum, md5)
  }

  ghost function ParseFrom(b: bytes, md5sum: bool, md5: Md5): (int, State) -> Parsed {
    (i: int, s: State) => if i < 0 then Failed else Parse(b, 32 * i, s.0, s.1, md5sum, md5)
  }

  /** Steps from state to state. */
  predicate Run<S>(states: seq<S>, step: (int, S, S) -> bool) {
    states != [] && forall i :: 0 <= i < |states| - 1 ==> step(i, states[i], states[i + 1])
  }

  lemma RunGrows<S>(states: seq<S>, s: S, step: (int, S, S) -> bool)
    requires Run(states, step) && step(|states| - 1, states[|states| - 1], s)
    ensures Run(states + [s], step)
  {
  }

  lemma {:induction false} RunKeeps<S(!new), V>(states: seq<S>, n: nat, step: (int, S, S) -> bool, val: (int, S) -> V)
    requires Run(states, step) && n < |states|
    requires forall i, s, s' :: step(i, s, s') ==> val(i, s) == val(i + 1, s')
    ensures val(0, states[0]) == val(n, states[n])
  {
    if n > 0 {
      RunKeeps(states, n - 1, step, val);
      assert step(n - 1, states[n - 1], states[n - 1 + 1]);
    }
  }

  lemma StepKeeps(b: bytes, i: int, s: State, s': State, md5sum: bool, md5: Md5)
    requires StepOf(b, md5sum, md5)(i, s, s')
    ensures ParseFrom(b, md5sum, md5)(i, s) == ParseFrom(b, md5sum, md5)(i + 1, s')
  {
    ParseStep(b, 32 * i, s.0, s.1, s'.0, s'.1, md5sum, md5);
  }

  // The next state, if there is one.
  lemma NextState(b: bytes, i: nat, s: State, t: seq<Entry>, md5sum: bool, md5: Md5) returns (s': State)
    requires ParseFrom(b, md5sum, md5)(i, s) == Parsed(t)
    ensures 32 * i + 32 <= |b|
    ensures if BlockNo(b, i) == Repeat(0xFF, 32) then t == s.1 else StepOf(b, md5sum, md5)(i, s, s')
  {
    var data := BlockNo(b, i);
    OnesOrNot(data);
    s' := s;
    if data != Repeat(0xFF, 32) && !(md5sum && data[..2] == MD5_MAGIC) {
      s' := (s.0 + data, s.1 + [EntryFromBinary(data).value]);
    }
  }

  lemma {:induction false} ParseRun(b: bytes, states: seq<State>, t: seq<Entry>, md5sum: bool, md5: Md5)
    returns (all: seq<State>)
    requires Run(states, StepOf(b, md5sum, md5)) && states[0] == ([], [])
    requires ParseFrom(b, md5sum, md5)(|states| - 1, states[|states| - 1]) == Parsed(t)
    ensures Ends(b, all, t, md5sum, md5)
    decreases |b| - 32 * |states|
  {
    var n := |states| - 1;
    var s := NextState(b, n, states[n], t, md5sum, md5);
    if BlockNo(b, n) == Repeat(0xFF, 32) {
      all := states;
    } else {
      StepKeeps(b, n, states[n], s, md5sum, md5);
      RunGrows(states, s, StepOf(b, md5sum, md5));
      all := ParseRun(b, states + [s], t, md5sum, md5);
    }
  }

  /** A run over the first blocks of b that stops in front of a block of ones with the entries of t. */
  ghost predicate Ends(b: bytes, states: seq<State>, t: seq<Entry>, md5sum: bool, md5: Md5) {
    && Run(states, StepOf(b, md5sum, md5)) && states[0] == ([], []) && states[|states| - 1].1 == t
    && 32 * |states| <= |b| && BlockNo(b, |states| - 1) == Repeat(0xFF, 32)
  }

  /** from_binary returns t if and only if the blocks before the first block of ones are read as t
      with all checksums among them right; whatever follows is not looked at. */
  lemma {:induction false} ParseExactly(b: bytes, t: seq<Entry>, md5sum: bool, md5: Md5)
    ensures Parse(b, 0, [], [], md5sum, md5) == Parsed(t)
            <==> exists states: seq<State> :: Ends(b, states, t, md5sum, md5)
  {
    if Parse(b, 0, [], [], md5sum, md5) == Parsed(t) {
      assert ParseFrom(b, md5sum, md5)(0, ([], [])) == Parsed(t);
      var all := ParseRun(b, [([], [])], t, md5sum, md5);
    }
    if states: seq<State> :| Ends(b, states, t, md5sum, md5) {
      var n := |states| - 1;
      forall i, s, s' | StepOf(b, md5sum, md5)(i, s, s')
        ensures ParseFrom(b, md5sum, md5)(i, s) == ParseFrom(b, md5sum, md5)(i + 1, s')
      {
        StepKeeps(b, i, s, s', md5sum, md5);
      }
      RunKeeps(states, n, StepOf(b, md5sum, md5), ParseFrom(b, md5sum, md5));
      EndBlock(b, 32 * n, states[n].0, t, md5sum, md5);
      assert ParseFrom(b, md5sum, md5)(0, ([], [])) == Parsed(t);
    }
  }
}
