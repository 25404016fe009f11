/** The write stream of components/app_update/esp_ota_ops.c: esp_ota_write and esp_ota_end.
    An encrypted flash takes whole blocks of 16 bytes only, so the rest of a chunk waits in
    partial_data. */
module OtaWrite {

  newtype byte = x: int | 0 <= x < 256

  datatype Err = OK | ValidateFailed | FlashFailed | InvalidArg

  const BLOCK: nat := 16
  const MAGIC: byte := 0xE9

  /** ota_ops_entry_t together with the partition it writes to. */
  class OtaEntry {
    const encrypted: bool
    const part: array<byte>
    const partialData: array<byte>
    const erasedSize: nat
    var wroteSize: nat
    var partialBytes: nat
    ghost var pad: byte  // what fills partial_data behind partial_bytes

    ghost predicate Valid()
      reads this, part, partialData
    {
      && part != partialData
      && partialData.Length == BLOCK
      && wroteSize <= part.Length
      && partialBytes < BLOCK
      && (encrypted ==> wroteSize % BLOCK == 0)
      && (!encrypted ==> partialBytes == 0)
      && (pad == 0 || pad == 0xFF)
      && (forall k :: partialBytes <= k < BLOCK ==> partialData[k] == pad)
    }

    /** Everything accepted so far: what is in flash and what waits for its block. */
    ghost function Stream(): seq<byte>
      requires Valid()
      reads this, part, partialData
    {
      part[..wroteSize] + partialData[..partialBytes]
    }

    /** The entry that esp_ota_begin allocates for an erased partition. */
    constructor (part: array<byte>, erasedSize: nat, encrypted: bool)
      ensures Valid() && Stream() == [] && fresh(partialData)
      ensures this.part == part && this.erasedSize == erasedSize && this.encrypted == encrypted
      ensures pad == 0
    {
      this.part, this.erasedSize, this.encrypted := part, erasedSize, encrypted;
      partialData := new byte[BLOCK](_ => 0);
      wroteSize, partialBytes, pad := 0, 0, 0;
    }

    /** esp_partition_write: refuses what does not fit into the partition. */
    method WriteFlash(offset: nat, data: seq<byte>) returns (ok: bool)
      modifies part
      ensures ok <==> offset + |data| <= part.Length
      ensures ok ==> part[..] == old(part[..offset]) + data + old(part[offset + |data|..])
      ensures !ok ==> part[..] == old(part[..])
    {
      if offset + |data| > part.Length {
        return false;
      }
      ghost var was := part[..];
      for k := 0 to |data|
        invariant part[..] == was[..offset] + data[..k] + was[offset + k..]
      {
        part[offset + k] := data[k];
      }
      ok := true;
    }

    /** memcpy into partial_data */
    method Keep(at: nat, data: seq<byte>)
      requires partialData.Length == BLOCK && at + |data| <= BLOCK
      modifies partialData
      ensures partialData[..] == old(partialData[..at]) + data + old(partialData[at + |data|..])
    {
      ghost var was := partialData[..];
      for k := 0 to |data|
        invariant partialData[..] == was[..at] + data[..k] + was[at + k..]
      {
        partialData[at + k] := data[k];
      }
    }

    /** The chunk is held against the magic byte as long as nothing has reached the flash. */
    predicate BadMagic(data: seq<byte>)
      reads this
    {
      wroteSize == 0 && data != [] && data[0] != MAGIC
    }

    /** The first part of an encrypted write: fill up a block begun earlier, and write it out
        if it is complete. */
    method TopUp(data: seq<byte>) returns (r: Err, copy: nat)
      requires Valid() && encrypted && partialBytes != 0
      modifies this, part, partialData
      ensures r == OK || r == FlashFailed
      ensures r == OK ==> Valid() && copy <= |data| && Stream() == old(Stream()) + data[..copy]
      ensures r == OK ==> partialBytes == 0 || copy == |data|
      ensures r == OK ==> pad == if partialBytes == 0 then 0xFF else old(pad)
      ensures r == OK ==> (partialBytes == 0 <==> old(partialBytes) + |data| >= BLOCK)
      ensures r == FlashFailed ==> |old(Stream())| + |data| > part.Length
    {
      ghost var before, was := Stream(), partialData[..];
      r, copy := OK, if BLOCK - partialBytes < |data| then BLOCK - partialBytes else |data|;
      Keep(partialBytes, data[..copy]);
      partialBytes := partialBytes + copy;
      assert partialData[..partialBytes] == was[..old(partialBytes)] + data[..copy];
      if partialBytes == BLOCK {
        var filled := partialData[..];
        assert part[..wroteSize] + filled == before + data[..copy];
        var ok := WriteFlash(wroteSize, filled);
        if !ok {
          r := FlashFailed;
          return;
        }
        partialBytes := 0;
        forall k | 0 <= k < BLOCK { partialData[k] := 0xFF; }
        pad := 0xFF;
        wroteSize := wroteSize + BLOCK;
        assert part[..wroteSize] == before + data[..copy];
      } else {
        assert forall k :: partialBytes <= k < BLOCK ==> partialData[k] == was[k];
      }
    }

    /** The second part: hold back what does not make up a block. */
    method HoldBack(data: seq<byte>) returns (blocks: seq<byte>)
      requires Valid() && encrypted && partialBytes == 0
      modifies this`partialBytes, partialData
      ensures Valid()
      ensures |blocks| <= |data| && |blocks| % BLOCK == 0
      ensures data == blocks + partialData[..partialBytes]
    {
      partialBytes := |data| % BLOCK;
      blocks := data[..|data| - partialBytes];
      if partialBytes != 0 {
        ghost var was := partialData[..];
        Keep(0, data[|data| - partialBytes..]);
        assert forall k :: partialBytes <= k < BLOCK ==> partialData[k] == was[k];
      }
      assert partialData[..partialBytes] == data[|data| - partialBytes..];
    }

    /** The last part: what is left goes into flash as it is. */
    method Store(data: seq<byte>) returns (r: Err)
      requires Valid() && (encrypted ==> |data| % BLOCK == 0)
      modifies this`wroteSize, part
      ensures r == if old(wroteSize) + |data| <= part.Length then OK else FlashFailed
      ensures r == OK ==> Valid() && part[..wroteSize] == old(part[..wroteSize]) + data
    {
      ghost var base := part[..wroteSize];
      var ok := WriteFlash(wroteSize, data);
      if !ok {
        return FlashFailed;
      }
      wroteSize := wroteSize + |data|;
      assert part[..wroteSize] == base + data;
      return OK;
    }

    /** esp_ota_write: an accepted chunk is appended to the stream; a chunk that fails the
        magic test changes nothing. */
    method Write(data: seq<byte>) returns (r: Err)
      requires Valid() && erasedSize > 0
      modifies this, part, partialData
      ensures r == ValidateFailed <==> old(BadMagic(data))
      ensures r == ValidateFailed ==> Valid() && Stream() == old(Stream()) && wroteSize == old(wroteSize)
      ensures r == ValidateFailed ==> pad == old(pad)
      ensures r == OK ==> Valid() && Stream() == old(Stream()) + data
      ensures r == OK ==>
                pad == if 0 < old(partialBytes) && old(partialBytes) + |data| >= BLOCK then 0xFF else old(pad)
      ensures r == FlashFailed ==> |old(Stream())| + |data| > part.Length
      ensures r != InvalidArg
    {
      if BadMagic(data) {
        return ValidateFailed;
      }
      ghost var before := Stream();
      var rest := data;
      if encrypted {
        if partialBytes != 0 {
          var copy;
          r, copy := TopUp(data);
          if r != OK || partialBytes != 0 {
            assert r == OK ==> data[..copy] == data;
            return;
          }
          rest := data[copy..];
          assert data == data[..copy] + rest;
        }
        assert Stream() + rest == before + data;
        assert part[..wroteSize] == Stream();
        rest := HoldBack(rest);
      }
      ghost var base, held := part[..wroteSize], partialData[..partialBytes];
      assert base + rest + held == before + data;
      r := Store(rest);
    }

    /** The flash part of esp_ota_end: a block begun is written out in full, so the stream ends
        in padding: zeros as long as no block was ever put together, ones afterwards. */
    method End() returns (r: Err)
      requires Valid()
      modifies this, part
      ensures r == InvalidArg <==> erasedSize == 0 || old(wroteSize) == 0
      ensures r == OK ==> partialBytes == 0 && wroteSize <= part.Length
      ensures r == OK && encrypted ==> wroteSize % BLOCK == 0
      ensures r == OK ==>
                part[..wroteSize]
                == old(Stream()) + Fill(if old(partialBytes) == 0 then 0 else 16 - old(partialBytes), old(pad))
      ensures r == FlashFailed ==> old(partialBytes) != 0 && old(wroteSize) + BLOCK > part.Length
      ensures r != ValidateFailed
    {
      if erasedSize == 0 || wroteSize == 0 {
        return InvalidArg;
      }
      if partialBytes > 0 {
        var last := partialData[..];
        assert last == partialData[..partialBytes] + Fill(BLOCK - partialBytes, pad);
        ghost var base := part[..wroteSize];
        var ok := WriteFlash(wroteSize, last);
        if !ok {
          return FlashFailed;
        }
        wroteSize := wroteSize + BLOCK;
        partialBytes := 0;
        assert part[..wroteSize] == base + last;
      }
      return OK;
    }
  }

  function Fill(n: nat, b: byte): seq<byte> {
    seq(n, _ => b)
  }

  function Concat(chunks: seq<seq<byte>>): seq<byte> {
    if chunks == [] then [] else Concat(chunks[..|chunks| - 1]) + chunks[|chunks| - 1]
  }

  /** A chunk that the magic test refuses when s has been accepted so far: nothing has reached
      the flash yet. */
  predicate Refused(encrypted: bool, s: seq<byte>, c: seq<byte>) {
    c != [] && c[0] != MAGIC && if encrypted then |s| < BLOCK else s == []
  }

  /** What is accepted of a run of writes that goes on after a refused chunk. */
  function Accepted(encrypted: bool, chunks: seq<seq<byte>>): seq<byte> {
    if chunks == [] then []
    else
      var s, c := Accepted(encrypted, chunks[..|chunks| - 1]), chunks[|chunks| - 1];
      if Refused(encrypted, s, c) then s else s + c
  }

  /** A block that s has begun is completed by chunk c. */
  predicate Completes(encrypted: bool, s: seq<byte>, c: seq<byte>) {
    encrypted && !Refused(encrypted, s, c) && |s| % 16 != 0 && |s| % 16 + |c| >= 16
  }

  /** What a block begun is filled up with at the end: ones as soon as some accepted chunk has
      completed a block that was begun before, zeros until then. */
  function Filler(encrypted: bool, chunks: seq<seq<byte>>): byte {
    if chunks == [] then 0
    else
      var s, c := Accepted(encrypted, chunks[..|chunks| - 1]), chunks[|chunks| - 1];
      if Completes(encrypted, s, c) then 0xFF
      else Filler(encrypted, chunks[..|chunks| - 1])
  }

  lemma {:induction false} AcceptedGrows(encrypted: bool, chunks: seq<seq<byte>>, n: nat)
    requires n <= |chunks|
    ensures |Accepted(encrypted, chunks[..n])| <= |Accepted(encrypted, chunks)|
    decreases |chunks|
  {
    if n < |chunks| {
      assert chunks[..|chunks| - 1][..n] == chunks[..n];
      AcceptedGrows(encrypted, chunks[..|chunks| - 1], n);
    } else {
      assert chunks[..n] == chunks;
    }
  }

  /** Once the first chunk starts with the magic byte and makes up a block, nothing more is
      refused, and the whole image arrives. */
  lemma {:induction false} AcceptedWhole(encrypted: bool, chunks: seq<seq<byte>>)
    requires chunks != [] && chunks[0] != [] && chunks[0][0] == 0xE9 && (encrypted ==> |chunks[0]| >= 16)
    ensures Accepted(encrypted, chunks) == Concat(chunks)
    decreases |chunks|
  {
    var init := chunks[..|chunks| - 1];
    if init == [] {
      assert Accepted(encrypted, init) == [] == Concat(init);
    } else {
      AcceptedWhole(encrypted, init);
      AcceptedGrows(encrypted, init, 1);
      assert init[..1][..0] == [];
      assert Accepted(encrypted, init[..1]) == chunks[0];
    }
  }

  function FillerNext(encrypted: bool, chunks: seq<seq<byte>>, n: nat): byte
    requires n < |chunks|
  {
    var s := Accepted(encrypted, chunks[..n]);
    if Completes(encrypted, s, chunks[n]) then 0xFF else Filler(encrypted, chunks[..n])
  }

  lemma {:induction false} AcceptedNext(encrypted: bool, chunks: seq<seq<byte>>, n: nat)
    requires n < |chunks|
    ensures var s := Accepted(encrypted, chunks[..n]);
            Accepted(encrypted, chunks[..n + 1]) == if Refused(encrypted, s, chunks[n]) then s else s + chunks[n]
    ensures Filler(encrypted, chunks[..n + 1]) == FillerNext(encrypted, chunks, n)
  {
    assert chunks[..n + 1][..n] == chunks[..n];
  }

  // One write of a run.
  method WriteNext(e: OtaEntry, c: seq<byte>) returns (r: Err)
    requires e.Valid() && e.erasedSize > 0
    modifies e, e.part, e.partialData
    ensures r == OK || r == FlashFailed
    ensures r == OK ==>
              e.Valid() && e.Stream() == old(if Refused(e.encrypted, e.Stream(), c) then e.Stream() else e.Stream() + c)
    ensures r == FlashFailed ==> old(!Refused(e.encrypted, e.Stream(), c) && |e.Stream()| + |c| > e.part.Length)
    ensures r == OK ==> e.pad == if old(Completes(e.encrypted, e.Stream(), c)) then 0xFF else old(e.pad)
  {
    assert |e.Stream()| == e.wroteSize + e.partialBytes;
    assert Refused(e.encrypted, e.Stream(), c) <==> e.BadMagic(c);
    r := e.Write(c);
    if r == ValidateFailed {
      r := OK;
    }
  }

  /** Any run of writes, which goes on after chunks that the magic test refuses: the stream is
      what was accepted, in order, or it is too long for the partition. */
  method WriteAll(e: OtaEntry, chunks: seq<seq<byte>>) returns (r: Err)
    requires e.Valid() && e.erasedSize > 0 && e.Stream() == [] && e.pad == 0
    modifies e, e.part, e.partialData
    ensures r == OK || r == FlashFailed
    ensures r == OK ==> e.Valid() && e.Stream() == Accepted(e.encrypted, chunks) && e.pad == Filler(e.encrypted, chunks)
    ensures r == FlashFailed ==> |Accepted(e.encrypted, chunks)| > e.part.Length
  {
    r := OK;
    for n := 0 to |chunks|
      invariant r == OK && e.Valid() && e.Stream() == Accepted(e.encrypted, chunks[..n])
      invariant e.pad == Filler(e.encrypted, chunks[..n])
    {
      AcceptedNext(e.encrypted, chunks, n);
      AcceptedGrows(e.encrypted, chunks, n + 1);
      r := WriteNext(e, chunks[n]);
      if r == FlashFailed {
        return;
      }
    }
    assert chunks[..|chunks|] == chunks;
  }

  // What waits for its block is the rest of the stream modulo 16.
  lemma Remainder(wrote: nat, waiting: nat)
    requires wrote % 16 == 0 && waiting < 16
    ensures (wrote + waiting) % 16 == waiting
  {
  }

  /** How many bytes fill up the last block. */
  function Missing(encrypted: bool, a: seq<byte>): (n: nat)
    ensures n < 16 && (encrypted ==> (|a| + n) % 16 == 0) && (!encrypted ==> n == 0)
  {
    if encrypted && |a| % 16 != 0 then 16 - |a| % 16 else 0
  }

  /** A whole update: what is in flash in the end is what was accepted, an encrypted image filled
      up to whole blocks. An update of which nothing has reached the flash is refused. */
  method WriteImage(e: OtaEntry, chunks: seq<seq<byte>>) returns (r: Err)
    requires e.Valid() && e.erasedSize > 0 && e.Stream() == [] && e.pad == 0
    modifies e, e.part, e.partialData
    ensures r == OK ==> e.wroteSize <= e.part.Length
    ensures var a := Accepted(e.encrypted, chunks);
            var n := Missing(e.encrypted, a);
            match r
            case OK => e.part[..e.wroteSize] == a + Fill(n, Filler(e.encrypted, chunks))
            case InvalidArg => |a| < if e.encrypted then 16 else 1
            case FlashFailed => |a| + n > e.part.Length
            case ValidateFailed => false
  {
    r := WriteAll(e, chunks);
    if r == OK {
      assert |e.Stream()| == e.wroteSize + e.partialBytes;
      if e.encrypted { Remainder(e.wroteSize, e.partialBytes); }
      r := e.End();
    }
  }

  /** The magic test looks at wrote_size only: if the first chunk of an encrypted image does
      not fill a block, the chunk after it is tested as well. */
  method SecondChunkTested(e: OtaEntry, first: seq<byte>, second: seq<byte>) returns (r1: Err, r2: Err)
    requires e.Valid() && e.encrypted && e.erasedSize > 0 && e.wroteSize == 0 && e.partialBytes == 0
    requires 0 < |first| && first[0] == MAGIC && second != [] && second[0] != MAGIC
    requires |first| + |second| <= e.part.Length
    modifies e, e.part, e.partialData
    ensures r1 == OK
    ensures r2 == if |first| < BLOCK then ValidateFailed else OK
  {
    r1 := e.Write(first);
    assert |e.Stream()| == e.wroteSize + e.partialBytes;
    r2 := e.Write(second);
  }
}
