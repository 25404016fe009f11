/** The alarm table of app/components/common/csro_datetime.c and its image in non-volatile
    storage, one packed 32-bit word for each alarm. */
module AlarmTable {

  newtype uint8 = x: int | 0 <= x < 0x100
  newtype uint16 = x: int | 0 <= x < 0x1_0000
  newtype uint32 = x: int | 0 <= x < 0x1_0000_0000

  const ALARM_NUMBER: nat := 20

  datatype Alarm = Alarm(weekday: uint8, minutes: uint16, action: uint16)

  /** alarm_struct */
  datatype Slot = Slot(valid: bool, alarm: Alarm)

  // ----- the packed word -----

  /** Seven bits of weekday, eleven of minutes, fourteen of action, in 32-bit arithmetic. */
  function Pack(a: Alarm): uint32 {
    ((a.weekday as int * 0x200_0000 + a.minutes as int * 0x4000 + a.action as int) % 0x1_0000_0000) as uint32
  }

  function Unpack(v: uint32): Alarm {
    Alarm(((v as int / 0x200_0000) % 0x80) as uint8, ((v as int / 0x4000) % 0x800) as uint16,
          (v as int % 0x4000) as uint16)
  }

  predicate InRange(a: Alarm) {
    a.weekday < 0x80 && a.minutes < 0x800 && a.action < 0x4000
  }

  /** An alarm survives packing exactly when its fields fit into their bits. */
  lemma UnpackPack(a: Alarm)
    ensures Unpack(Pack(a)) == a <==> InRange(a)
  {
    if InRange(a) { Digits(a.weekday as int, a.minutes as int, a.action as int); }
  }

  lemma Digits(w: int, m: int, c: int)
    requires 0 <= w < 0x80 && 0 <= m < 0x800 && 0 <= c < 0x4000
    ensures var v := w * 0x200_0000 + m * 0x4000 + c;
            0 <= v < 0x1_0000_0000 && v / 0x200_0000 == w && v / 0x4000 % 0x800 == m && v % 0x4000 == c
  {
    var v := w * 0x200_0000 + m * 0x4000 + c;
    assert v == 0x4000 * (w * 0x800 + m) + c;
    assert v / 0x4000 == w * 0x800 + m;
  }

  /** Where the fields stand in the word: weekday in bits 25 to 31, minutes in bits 14 to 24, action
      below; what is too long for its bits spills into the next field, or out of the word. */
  lemma PackedBits(a: Alarm)
    ensures var v := Pack(a) as int;
            InRange(a) ==> v / 0x200_0000 == a.weekday as int && v / 0x4000 % 0x800 == a.minutes as int
                           && v % 0x4000 == a.action as int
    ensures (Pack(a) as int - (a.weekday as int * 0x200_0000 + a.minutes as int * 0x4000 + a.action as int))
            % 0x1_0000_0000 == 0
  {
    var n := a.weekday as int * 0x200_0000 + a.minutes as int * 0x4000 + a.action as int;
    if InRange(a) { Digits(a.weekday as int, a.minutes as int, a.action as int); }
    assert n % 0x1_0000_0000 - n == 0x1_0000_0000 * -(n / 0x1_0000_0000);
  }

  lemma PackUnpack(v: uint32)
    ensures Pack(Unpack(v)) == v
  {
    var n := v as int;
    assert n / 0x200_0000 < 0x80;
    assert n == 0x4000 * (n / 0x4000) + n % 0x4000;
    assert n / 0x4000 == 0x800 * (n / 0x4000 / 0x800) + (n / 0x4000) % 0x800;
    assert n / 0x4000 / 0x800 == n / 0x200_0000;
  }

  // ----- the table as a sequence -----

  /** What the operations do to the sequence of alarms. */
  function FirstMatch(s: seq<Alarm>, weekday: uint8, minutes: uint16): (i: nat)
    ensures i <= |s|
    ensures i < |s| ==> s[i].weekday == weekday && s[i].minutes == minutes
    ensures forall j :: 0 <= j < i ==> !(s[j].weekday == weekday && s[j].minutes == minutes)
  {
    if s == [] then 0
    else if s[0].weekday == weekday && s[0].minutes == minutes then 0
    else 1 + FirstMatch(s[1..], weekday, minutes)
  }

  function Added(s: seq<Alarm>, a: Alarm): seq<Alarm> {
    var i := FirstMatch(s, a.weekday, a.minutes);
    if i < |s| then s[i := a] else if |s| < ALARM_NUMBER then s + [a] else s
  }

  function Removed(s: seq<Alarm>, i: nat): seq<Alarm> {
    if i < |s| then s[..i] + s[i + 1..] else s
  }

  function Modified(s: seq<Alarm>, i: nat, a: Alarm): seq<Alarm> {
    if i < |s| then s[i := a] else s
  }

  /** No two alarms at the same time: adding keeps that, and afterwards the new action is the
      one that is found at its time. */
  predicate DistinctTimes(s: seq<Alarm>) {
    forall i, j :: 0 <= i < j < |s| ==> !(s[i].weekday == s[j].weekday && s[i].minutes == s[j].minutes)
  }

  lemma {:induction false} AddKeepsDistinct(s: seq<Alarm>, a: Alarm)
    requires DistinctTimes(s)
    ensures DistinctTimes(Added(s, a))
    ensures |s| < ALARM_NUMBER || FirstMatch(s, a.weekday, a.minutes) < |s| ==>
              var i := FirstMatch(Added(s, a), a.weekday, a.minutes);
              i < |Added(s, a)| && Added(s, a)[i] == a
    ensures Added(Added(s, a), a) == Added(s, a)
  {
    var t, i := Added(s, a), FirstMatch(s, a.weekday, a.minutes);
    var j := FirstMatch(t, a.weekday, a.minutes);
    if i < |s| {
      assert t[i] == a;
      assert j == i;
    } else if |s| < ALARM_NUMBER {
      assert t[|s|] == a;
      assert forall k :: 0 <= k < |s| ==> t[k] == s[k];
      assert j == |s|;
    }
  }

  /** The table as a map from times to actions. */
  function ActionAt(s: seq<Alarm>, weekday: uint8, minutes: uint16): (r: int)
    ensures r == -1 || 0 <= r < 0x1_0000
  {
    var i := FirstMatch(s, weekday, minutes);
    if i < |s| then s[i].action as int else -1
  }

  lemma {:induction false} FirstMatchOf(s: seq<Alarm>, i: nat)
    requires DistinctTimes(s) && i < |s|
    ensures FirstMatch(s, s[i].weekday, s[i].minutes) == i
  {
    var j := FirstMatch(s, s[i].weekday, s[i].minutes);
    assert j <= i;
  }

  /** Adding sets the action at one time, if the time is known or there is room for it. */
  lemma AddedMap(s: seq<Alarm>, a: Alarm, w: uint8, m: uint16)
    ensures ActionAt(Added(s, a), w, m)
         == if w == a.weekday && m == a.minutes && (|s| < 20 || ActionAt(s, w, m) != -1) then a.action as int
            else ActionAt(s, w, m)
  {
    var t, i := Added(s, a), FirstMatch(s, a.weekday, a.minutes);
    var j, k := FirstMatch(s, w, m), FirstMatch(t, w, m);
    if i < |s| {
      assert forall n :: 0 <= n < |s| ==> t[n].weekday == s[n].weekday && t[n].minutes == s[n].minutes;
      assert j == k;
    } else if |s| < 20 {
      assert t[|s|] == a && forall n :: 0 <= n < |s| ==> t[n] == s[n];
      if j < |s| { assert k == j; }
    }
  }

  /** Deleting entry i removes its time and no other. */
  lemma RemovedMap(s: seq<Alarm>, i: nat, w: uint8, m: uint16)
    requires DistinctTimes(s) && i < |s|
    ensures DistinctTimes(Removed(s, i))
    ensures ActionAt(Removed(s, i), w, m)
         == if w == s[i].weekday && m == s[i].minutes then -1 else ActionAt(s, w, m)
  {
    var t := Removed(s, i);
    assert forall n :: 0 <= n < |t| ==> t[n] == s[if n < i then n else n + 1];
    var j, k := FirstMatch(s, w, m), FirstMatch(t, w, m);
    if j < |s| && j != i {
      var n := if j < i then j else j - 1;
      assert t[n] == s[j];
      assert k == n;
    }
  }

  /** After a change of entry i times stay distinct if and only if the new time is not that of
      another entry. */
  lemma {:induction false} ModifiedDistinct(s: seq<Alarm>, i: nat, a: Alarm)
    requires DistinctTimes(s) && i < |s|
    ensures DistinctTimes(Modified(s, i, a)) <==> FirstMatch(s, a.weekday, a.minutes) in {i, |s|}
  {
    var t, j := Modified(s, i, a), FirstMatch(s, a.weekday, a.minutes);
    assert t[i] == a && forall n :: 0 <= n < |s| && n != i ==> t[n] == s[n];
    if j < |s| && j != i {
      assert t[j].weekday == a.weekday && t[j].minutes == a.minutes;
      assert !DistinctTimes(t);
    } else {
      forall p, q | 0 <= p < q < |t| ensures !(t[p].weekday == t[q].weekday && t[p].minutes == t[q].minutes) {
        if p == i { FirstMatchOf(s, q); } else if q == i { FirstMatchOf(s, p); }
      }
    }
  }

  /** Then the change sets the action at the new time, and frees the old one unless it is the same. */
  lemma ModifiedMap(s: seq<Alarm>, i: nat, a: Alarm, w: uint8, m: uint16)
    requires DistinctTimes(s) && i < |s| && DistinctTimes(Modified(s, i, a))
    ensures ActionAt(Modified(s, i, a), w, m)
         == if w == a.weekday && m == a.minutes then a.action as int
            else if w == s[i].weekday && m == s[i].minutes then -1 else ActionAt(s, w, m)
  {
    var t := Modified(s, i, a);
    assert t[i] == a && forall n :: 0 <= n < |s| && n != i ==> t[n] == s[n];
    var k, n := FirstMatch(t, w, m), FirstMatch(s, w, m);
    if k < |t| { FirstMatchOf(t, k); }
    if n < |s| { FirstMatchOf(s, n); }
    FirstMatchOf(t, i);
    FirstMatchOf(s, i);
  }

  // ----- the table in memory and in storage -----

  class Table {
    const alarms: array<Slot>
    ghost var entries: seq<Alarm>
    var nvsCount: nat  // alarm_count
    var nvs: map<nat, uint32>  // alarm0, alarm1, ...

    // The valid slots form a prefix, which holds the entries.
    ghost predicate Shown()
      reads this, alarms
    {
      && alarms.Length == ALARM_NUMBER && |entries| <= ALARM_NUMBER
      && (forall i :: 0 <= i < ALARM_NUMBER ==> (alarms[i].valid <==> i < |entries|))
      && (forall i :: 0 <= i < |entries| ==> alarms[i].alarm == entries[i])
    }

    ghost predicate Stored()
      reads this
    {
      nvsCount == |entries| && forall i :: 0 <= i < |entries| ==> i in nvs && nvs[i] == Pack(entries[i])
    }

    ghost predicate Valid()
      reads this, alarms
    {
      Shown() && Stored()
    }

    constructor ()
      ensures Valid() && entries == [] && fresh(alarms)
    {
      alarms := new Slot[ALARM_NUMBER](_ => Slot(false, Alarm(0, 0, 0)));
      entries, nvsCount, nvs := [], 0, map[];
    }

    /** load_alarm_from_nvs: memory is lost, storage is unpacked again. */
    method Load()
      requires Stored() && |entries| <= ALARM_NUMBER && alarms.Length == ALARM_NUMBER
      modifies this`entries, alarms
      ensures Valid() && |entries| == |old(entries)|
      ensures forall i :: 0 <= i < |entries| ==> entries[i] == Unpack(Pack(old(entries[i])))
      ensures entries == old(entries) <==> forall i :: 0 <= i < |old(entries)| ==> InRange(old(entries)[i])
    {
      ghost var was := entries;
      for i := 0 to ALARM_NUMBER
        invariant forall j :: 0 <= j < i ==> (alarms[j].valid <==> j < |was|)
        invariant forall j :: 0 <= j < i && j < |was| ==> alarms[j].alarm == Unpack(Pack(was[j]))
      {
        if i < nvsCount {
          var value: uint32 := 0;
          if i in nvs {
            value := nvs[i];
          }
          alarms[i] := Slot(true, Unpack(value));
        } else {
          alarms[i] := alarms[i].(valid := false);
        }
      }
      entries := seq(|was|, i requires 0 <= i < |was| => Unpack(Pack(was[i])));
      forall i | 0 <= i < |was|
        ensures Pack(entries[i]) == Pack(was[i]) && (entries[i] == was[i] <==> InRange(was[i]))
      {
        PackUnpack(Pack(was[i]));
        UnpackPack(was[i]);
      }
    }

    /** save_alarm_to_nvs */
    method Save()
      requires Shown()
      modifies this`nvsCount, this`nvs
      ensures Valid()
    {
      var count := 0;
      while count < ALARM_NUMBER && alarms[count].valid
        invariant count <= |entries|
        invariant forall i :: 0 <= i < count ==> i in nvs && nvs[i] == Pack(entries[i])
      {
        nvs := nvs[count := Pack(alarms[count].alarm)];
        count := count + 1;
      }
      nvsCount := count;
    }

    /** csro_alarm_add */
    method Add(weekday: uint8, minutes: uint16, action: uint16)
      requires Valid()
      modifies this, alarms
      ensures Valid() && entries == Added(old(entries), Alarm(weekday, minutes, action))
    {
      var a := Alarm(weekday, minutes, action);
      for i := 0 to ALARM_NUMBER
        invariant Valid() && entries == old(entries)
        invariant FirstMatch(entries, weekday, minutes) >= if i <= |entries| then i else |entries|
      {
        if alarms[i].valid && alarms[i].alarm.weekday == weekday && alarms[i].alarm.minutes == minutes {
          assert FirstMatch(entries, weekday, minutes) == i;
          alarms[i] := alarms[i].(alarm := a);
          entries := entries[i := a];
          Save();
          return;
        }
      }
      for i := 0 to ALARM_NUMBER
        invariant Valid() && entries == old(entries) && i <= |entries|
      {
        if !alarms[i].valid {
          alarms[i] := Slot(true, a);
          entries := entries + [a];
          Save();
          return;
        }
      }
    }

    /** csro_alarm_modify */
    method Modify(index: uint8, weekday: uint8, minutes: uint16, action: uint16)
      requires Valid()
      modifies this, alarms
      ensures Valid() && entries == Modified(old(entries), index as nat, Alarm(weekday, minutes, action))
    {
      if index as nat > ALARM_NUMBER - 1 {
        return;
      }
      if alarms[index].valid {
        alarms[index] := alarms[index].(alarm := Alarm(weekday, minutes, action));
        entries := entries[index as nat := Alarm(weekday, minutes, action)];
        Save();
      }
    }

    /** csro_alarm_delete */
    method Delete(index: uint8)
      requires Valid()
      modifies this, alarms
      ensures Valid() && entries == Removed(old(entries), index as nat)
    {
      if index as nat > ALARM_NUMBER - 1 {
        return;
      }
      if alarms[index].valid {
        var k := index as nat;
        alarms[k] := alarms[k].(valid := false);
        ShiftDown(k);
        entries := entries[..k] + entries[k + 1..];
        Save();
      }
    }

    // The valid slots show the entries, but for a hole.
    ghost predicate ShownAround(k: nat, hole: int)
      reads this, alarms
    {
      && alarms.Length == ALARM_NUMBER && k <= hole < |entries| <= ALARM_NUMBER
      && (forall j :: 0 <= j < ALARM_NUMBER ==> (alarms[j].valid <==> j < |entries| && j != hole))
      && (forall j :: 0 <= j < |entries| && j != hole ==>
            alarms[j].alarm == entries[if k <= j < hole then j + 1 else j])
    }

    /** The loop of csro_alarm_delete: the hole at k wanders to the end. */
    method ShiftDown(k: nat)
      requires ShownAround(k, k)
      modifies alarms
      ensures ShownAround(k, |entries| - 1)
    {
      ghost var n, hole := |entries|, k;
      for i := 0 to ALARM_NUMBER - 1
        invariant ShownAround(k, hole)
        invariant hole == if i <= k then k else if i < n then i else n - 1
      {
        if i >= k && alarms[i + 1].valid {
          alarms[i] := Slot(true, alarms[i + 1].alarm);
          alarms[i + 1] := alarms[i + 1].(valid := false);
          hole := i + 1;
        }
      }
    }

    /** csro_alarm_clear */
    method Clear()
      requires Valid()
      modifies this, alarms
      ensures Valid() && entries == []
    {
      for i := 0 to ALARM_NUMBER
        invariant forall j :: 0 <= j < i ==> !alarms[j].valid
      {
        alarms[i] := alarms[i].(valid := false);
      }
      entries := [];
      Save();
    }
  }
}
