/** Selecting and reading back the boot partition in components/app_update/esp_ota_ops.c:
    two flash records, of which the valid one with the highest sequence number counts. */
module OtaBoot {
  import opened OtaSearch

  /** A sector of the OTA data partition: the ota_seq field, and whether the crc field
      matches it. An erased sector has all bits set; a write cut short leaves a crc that does
      not match. */
  datatype Record = Record(num: uint32, crcOk: bool)

  const ERASED := Record(UINT32_MAX, false)

  /** ota_select_valid */
  predicate Valid(r: Record) {
    r.num != UINT32_MAX && r.crcOk
  }

  datatype Records = Records(r0: Record, r1: Record)

  datatype Boot = Default | Slot(x: nat)

  /** Highest sequence number of a valid record, 0 if there is none. */
  function Highest(f: Records): nat {
    var a := if Valid(f.r0) then f.r0.num as nat else 0;
    var b := if Valid(f.r1) then f.r1.num as nat else 0;
    if a >= b then a else b
  }

  function Max(a: uint32, b: uint32): uint32 {
    if a >= b then a else b
  }

  // (seq - 1) % n in 32-bit arithmetic
  function SlotOf(num: uint32, n: nat): nat
    requires n > 0
  {
    (if num == 0 then UINT32_MAX as nat else num as nat - 1) % n
  }

  /** esp_ota_get_boot_partition with n OTA slots */
  function BootPartition(f: Records, n: nat): Boot
    requires n > 0
  {
    if f.r0.num == UINT32_MAX && f.r1.num == UINT32_MAX then Default
    else if Valid(f.r0) && Valid(f.r1) then Slot(SlotOf(Max(f.r0.num, f.r1.num), n))
    else if Valid(f.r0) then Slot(SlotOf(f.r0.num, n))
    else if Valid(f.r1) then Slot(SlotOf(f.r1.num, n))
    else Default
  }

  // ----- one selection, with the power failing anywhere -----

  /** How far the flash gets: nothing happens, the sector is erased, the write is cut short
      leaving some bits set, or everything succeeds. */
  datatype Power = BeforeErase | AfterErase | InWrite(left: uint32) | On

  /** The sector that is rewritten: never the one that holds the highest valid number. */
  function Victim(f: Records): nat {
    if Valid(f.r0) && Valid(f.r1) then (if f.r0.num >= f.r1.num then 1 else 0)
    else if Valid(f.r0) then 1
    else 0
  }

  /** The search for a number comes to an end. */
  ghost predicate Writes(f: Records, x: nat, n: nat)
    requires n > 0
  {
    x < n ==> if Valid(f.r0) || Valid(f.r1) then Ends(Highest(f), x, n) else x + 1 < TWO32
  }

  /** The number to be written. */
  ghost function NewNum(f: Records, x: nat, n: nat): (r: nat)
    requires x < n && Writes(f, x, n)
    ensures r < TWO32
  {
    if Valid(f.r0) || Valid(f.r1) then Sum(x, n, Hit(Highest(f), x, n)) else x + 1
  }

  function Rewritten(old_: Record, num: uint32, power: Power): Record {
    match power
    case BeforeErase => old_
    case AfterErase => ERASED
    case InWrite(left) => Record(left, false)
    case On => Record(num, true)
  }

  function WithSector(f: Records, sec: nat, r: Record): Records {
    if sec == 0 then f.(r0 := r) else f.(r1 := r)
  }

  function Sector(f: Records, sec: nat): Record {
    if sec == 0 then f.r0 else f.r1
  }

  /** A number that selects the slot is left below the erased pattern. */
  predicate Fits(f: Records, x: nat, n: nat)
    requires x < n
  {
    (if Valid(f.r0) || Valid(f.r1) then NextSeq(Highest(f), x, n) else x + 1) < UINT32_MAX as nat
  }

  lemma RoomFits(f: Records, x: nat, n: nat)
    requires n > 0 && Highest(f) + n < UINT32_MAX as nat
    ensures Writes(f, x, n) && (x < n ==> Fits(f, x, n))
  {
    if x < n && (Valid(f.r0) || Valid(f.r1)) { HitIsNext(Highest(f), x, n); }
  }

  /** Flash after esp_rewrite_ota_data for slot x of n; an unknown slot changes nothing. */
  ghost function Step(f: Records, x: nat, n: nat, power: Power): Records
    requires n > 0 && Writes(f, x, n)
  {
    if x >= n then f
    else
      var sec := Victim(f);
      WithSector(f, sec, Rewritten(Sector(f, sec), NewNum(f, x, n) as uint32, power))
  }

  predicate Numbered(f: Records) {
    (Valid(f.r0) ==> f.r0.num >= 1) && (Valid(f.r1) ==> f.r1.num >= 1)
  }

  lemma BootOfHighest(f: Records, n: nat)
    requires n > 0 && Numbered(f)
    ensures BootPartition(f, n) == if Highest(f) == 0 then Default else Slot((Highest(f) - 1) % n)
  {
  }

  /** One selection, cut short anywhere, leaves the boot choice as it was. Completed, it boots
      the slot of the number that was written, unless that is the pattern of an erased record:
      then the choice stays as it was. */
  lemma StepBoots(f: Records, x: nat, n: nat, power: Power)
    requires n > 0 && Numbered(f) && Writes(f, x, n)
    ensures var f' := Step(f, x, n, power);
            && Numbered(f') && Highest(f) <= Highest(f')
            && (if power == On && x < n && NewNum(f, x, n) != UINT32_MAX as nat then
                  BootPartition(f', n) == Slot((NewNum(f, x, n) - 1) % n) && Highest(f') == NewNum(f, x, n)
                else BootPartition(f', n) == BootPartition(f, n) && Highest(f') == Highest(f))
  {
    BootOfHighest(Step(f, x, n, power), n);
    BootOfHighest(f, n);
  }

  /** A completed selection of a known slot takes effect if and only if a number that selects the
      slot is left below the erased pattern; and only then is the number the least such one. */
  lemma StepExact(f: Records, x: nat, n: nat)
    requires x < n && Numbered(f) && Writes(f, x, n)
    ensures BootPartition(Step(f, x, n, On), n) == Slot(x) <==> Fits(f, x, n)
    ensures Fits(f, x, n) ==> Highest(f) <= NewNum(f, x, n) <= Highest(f) + n
  {
    var h, num := Highest(f), NewNum(f, x, n);
    StepBoots(f, x, n, On);
    BootOfHighest(f, n);
    if h == 0 {
      DivUnique(x, n, 0, x);
    } else if NextSeq(h, x, n) < TWO32 {
      HitIsNext(h, x, n);
      ReadBack(num, x, n);
      if (h - 1) % n == x { SelectedNumber(h, x, n); }
    } else {
      HitIsWrong(h, x, n);
      if (num - 1) % n == x { SelectedNumber(num, x, n); }
      if (h - 1) % n == x { SelectedNumber(h, x, n); }
    }
  }

  /** One selection, cut short anywhere, leaves the boot choice either as it was or as it was
      requested, if a number for the request is left; once complete it is as requested. */
  lemma StepSafe(f: Records, x: nat, n: nat, power: Power)
    requires n > 0 && Numbered(f) && (x < n ==> Fits(f, x, n))
    ensures Writes(f, x, n)
    ensures var f' := Step(f, x, n, power);
            && Numbered(f')
            && Highest(f) <= Highest(f') <= Highest(f) + n
            && (BootPartition(f', n) == BootPartition(f, n) || (x < n && BootPartition(f', n) == Slot(x)))
            && (power != On ==> BootPartition(f', n) == BootPartition(f, n) && Highest(f') == Highest(f))
            && (power == On && x < n ==> BootPartition(f', n) == Slot(x))
  {
    if x < n && (Valid(f.r0) || Valid(f.r1)) { HitIsNext(Highest(f), x, n); }
    StepBoots(f, x, n, power);
    if x < n { StepExact(f, x, n); }
  }

  lemma SelectedNumber(h: nat, x: nat, n: nat)
    requires h >= 1 && x < n && (h - 1) % n == x
    ensures h % n == (x + 1) % n
  {
    var q := (h - 1) / n;
    assert h - 1 == n * q + x;
    if x + 1 < n {
      DivUnique(h, n, q, x + 1);
      DivUnique(x + 1, n, 0, x + 1);
    } else {
      assert h == n * (q + 1);
      DivUnique(h, n, q + 1, 0);
      DivUnique(n, n, 1, 0);
    }
  }

  /** The number can come out as the erased pattern: the record is written and then not valid,
      and the slot that was selected before still boots. */
  lemma ErasedInput()
    ensures var f := Records(Record(0xFFFF_FFFE, true), Record(0xFFFF_FFFD, true));
            && Numbered(f) && Writes(f, 0, 2) && NewNum(f, 0, 2) == UINT32_MAX as nat
            && BootPartition(f, 2) == Slot(1) && BootPartition(Step(f, 0, 2, On), 2) == Slot(1)
  {
    var f := Records(Record(0xFFFF_FFFE, true), Record(0xFFFF_FFFD, true));
    assert NextSeq(0xFFFF_FFFE, 0, 2) == 0xFFFF_FFFF;
    HitIsNext(0xFFFF_FFFE, 0, 2);
    StepBoots(f, 0, 2, On);
  }

  /** With 7 slots a completed selection of slot 5 can move the boot choice from slot 0 to
      slot 1. */
  lemma NeitherSlot()
    ensures var f := Records(Record(0xFFFF_FFFD, true), Record(0xFFFF_FFFC, true));
            && Numbered(f) && Writes(f, 5, 7) && NewNum(f, 5, 7) == 0xFFFF_FFFE
            && BootPartition(f, 7) == Slot(0) && BootPartition(Step(f, 5, 7, On), 7) == Slot(1)
  {
    SevenSlots();
    StepBoots(Records(Record(0xFFFF_FFFD, true), Record(0xFFFF_FFFC, true)), 5, 7, On);
  }

  // ----- whole runs -----

  datatype Event = Event(x: nat, power: Power)

  ghost function Run(n: nat, events: seq<Event>): (f: Records)
    requires n > 0 && n * (|events| + 1) < UINT32_MAX as nat
    ensures Numbered(f) && Highest(f) <= n * |events|
  {
    if events == [] then Records(ERASED, ERASED)
    else
      var k := |events| - 1;
      MulOrder(n, k + 1, |events| + 1);
      assert n * (k + 1) == n * k + n;
      var f := Run(n, events[..k]);
      RoomFits(f, events[k].x, n);
      StepSafe(f, events[k].x, n, events[k].power);
      Step(f, events[k].x, n, events[k].power)
  }

  /** From erased OTA data, over any run of selections with any power failures, every single
      selection is atomic for the boot partition, and numbers never go back. */
  lemma {:induction false} RunAtomic(n: nat, events: seq<Event>, k: nat)
    requires n > 0 && n * (|events| + 1) < UINT32_MAX as nat && k < |events|
    ensures n * (k + 2) < UINT32_MAX as nat && n * (k + 1) < UINT32_MAX as nat
    ensures var before, after := Run(n, events[..k]), Run(n, events[..k + 1]);
            var Event(x, power) := events[k];
            && (BootPartition(after, n) == BootPartition(before, n)
                || (x < n && BootPartition(after, n) == Slot(x)))
            && (power == On && x < n ==> BootPartition(after, n) == Slot(x))
            && Highest(before) <= Highest(after)
            && Numbered(after)
  {
    MulOrder(n, k + 2, |events| + 1);
    MulOrder(n, k + 1, |events| + 1);
    assert events[..k + 1][..k] == events[..k];
    var before := Run(n, events[..k]);
    assert n * (k + 1) == n * k + n;
    RoomFits(before, events[k].x, n);
    StepSafe(before, events[k].x, n, events[k].power);
  }

  // ----- the device -----

  datatype Err = OK | InvalidArg | PowerLost

  class OtaData {
    var flash: Records
    var ram: Records  // s_ota_select

    constructor ()
      ensures flash == Records(ERASED, ERASED)
    {
      flash, ram := Records(ERASED, ERASED), Records(ERASED, ERASED);
    }

    /** rewrite_ota_seq: fill in the record in memory, erase the sector, write the record. */
    method RewriteOtaSeq(num: uint32, sec: nat, power: Power) returns (r: Err)
      modifies this
      ensures sec > 1 ==> r == InvalidArg && flash == old(flash)
      ensures sec <= 1 ==>
                && flash == WithSector(old(flash), sec, Rewritten(Sector(old(flash), sec), num, power))
                && r == if power == On then OK else PowerLost
    {
      if sec > 1 {
        return InvalidArg;
      }
      ram := WithSector(ram, sec, Record(num, true));
      if power == BeforeErase {
        return PowerLost;
      }
      flash := WithSector(flash, sec, ERASED);
      if power == AfterErase {
        return PowerLost;
      }
      if power.InWrite? {
        flash := WithSector(flash, sec, Record(power.left, false));
        return PowerLost;
      }
      flash := WithSector(flash, sec, Sector(ram, sec));
      return OK;
    }

    /** esp_rewrite_ota_data for the slot number in the low four bits of the subtype. */
    method RewriteOtaData(subtype: uint32, n: uint32, power: Power) returns (r: Err)
      requires n > 0 ==> Writes(flash, (subtype % 16) as nat, n as nat)
      modifies this
      ensures flash == if n == 0 then old(flash) else Step(old(flash), (subtype % 16) as nat, n as nat, power)
      ensures r == if subtype % 16 >= n then InvalidArg else if power == On then OK else PowerLost
    {
      var x := subtype % 16;
      if x >= n {
        return InvalidArg;
      }
      ram := flash;
      if Valid(ram.r0) && Valid(ram.r1) {
        var num := SearchSeq(Max(ram.r0.num, ram.r1.num), x, n);
        r := RewriteOtaSeq(num, if ram.r0.num >= ram.r1.num then 1 else 0, power);
      } else if Valid(ram.r0) {
        var num := SearchSeq(ram.r0.num, x, n);
        r := RewriteOtaSeq(num, 1, power);
      } else if Valid(ram.r1) {
        var num := SearchSeq(ram.r1.num, x, n);
        r := RewriteOtaSeq(num, 0, power);
      } else {
        r := RewriteOtaSeq(x + 1, 0, power);
      }
    }

    /** esp_ota_get_boot_partition */
    method GetBoot(n: uint32) returns (b: Boot)
      requires n > 0
      modifies `ram
      ensures b == BootPartition(flash, n as nat)
    {
      ram := flash;
      if ram.r0.num == UINT32_MAX && ram.r1.num == UINT32_MAX {
        return Default;
      } else if Valid(ram.r0) && Valid(ram.r1) {
        return Slot(SlotOf(Max(ram.r0.num, ram.r1.num), n as nat));
      } else if Valid(ram.r0) {
        return Slot(SlotOf(ram.r0.num, n as nat));
      } else if Valid(ram.r1) {
        return Slot(SlotOf(ram.r1.num, n as nat));
      } else {
        return Default;
      }
    }
  }
}
