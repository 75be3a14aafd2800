/** `robust_cfg_write` under crashes, failing writes and clock changes. */
module CrashSafety {
  import opened Options
  import opened Crc32
  import opened RecordFormat
  import opened SlotStore
  import opened SlotIo
  import opened Recovery

  /** The slot a write goes to, or -1 when the store is full. */
  function Target(slots: seq<Record>, key: Text): (t: int)
    ensures -1 <= t < |slots|
  {
    if FirstEmpty(slots) != -1 then FirstEmpty(slots) else LastHolder(slots, key)
  }

  /** The slot retired after an out-of-place write, or -1. */
  function Retired(slots: seq<Record>, key: Text): (t: int)
    ensures -1 <= t < |slots|
    ensures t != -1 ==> Holds(slots[t], key) && t != Target(slots, key)
  {
    if FirstEmpty(slots) != -1 then LastHolder(slots, key) else -1
  }

  function CountAfterWrite(d: Disk, key: Text): Uint32 {
    if LastHolder(d.slots, key) == -1 then (d.header.recordCount + 1) % 0x1_0000_0000 else d.header.recordCount
  }

  function WritePlan(d: Disk, key: Text, value: Text, now: bv32): (plan: seq<Step>)
    requires GoodArgs(key, value)
    ensures Target(d.slots, key) == -1 <==> plan == []
  {
    if Target(d.slots, key) == -1 then []
    else
      [PutSlot(Target(d.slots, key), NewRecord(key, value, now))] +
      (if Retired(d.slots, key) != -1
       then [PutSlot(Retired(d.slots, key), WithState(d.slots[Retired(d.slots, key)], SLOT_DELETED))] else []) +
      [PutHeader(WithCount(d.header, CountAfterWrite(d, key)))]
  }

  /** The check `write_record_verified` makes: the calls succeeded and the CRC
      field read back is the one just computed. */
  predicate Verified(io: Io) {
    io.SlotIo? && io.ok && io.landed.crc == io.intended.crc
  }

  /** Any instant of a write, including one cut short by a crash and one that
      returned early: nothing follows the first slot write unless it verified. */
  ghost predicate WriteMoment(d: Disk, key: Text, value: Text, now: bv32, ios: seq<Io>)
    requires GoodArgs(key, value)
  {
    Follows(d, WritePlan(d, key, value, now), ios) && AllHonest(ios) && (|ios| >= 2 ==> Verified(ios[0]))
  }

  /** Every live copy of `key` is older than the clock. */
  predicate ClockAhead(slots: seq<Record>, key: Text, now: bv32) {
    forall j :: 0 <= j < |slots| && Holds(slots[j], key) ==> Time(slots[j]) < now as int
  }

  /** The slots at some instant of a write. */
  ghost predicate WriteShape(slots: seq<Record>, key: Text, new_: Record, after: seq<Record>)
    requires Target(slots, key) != -1
  {
    var t, o := Target(slots, key), Retired(slots, key);
    || after == slots
    || (exists torn :: Lands(t, slots[t], new_, torn) && after == slots[t := torn])
    || (o != -1 &&
        exists torn :: Lands(o, slots[o], WithState(slots[o], SLOT_DELETED), torn) &&
                       after == slots[t := new_][o := torn])
  }

  lemma MomentHasShape(d: Disk, key: Text, value: Text, now: bv32, ios: seq<Io>)
    requires GoodArgs(key, value) && Target(d.slots, key) != -1
    requires WriteMoment(d, key, value, now, ios)
    ensures WriteShape(d.slots, key, NewRecord(key, value, now), Replay(d, ios).slots)
  {
    hide Lands, CrcGood, Target, Retired, NewRecord, WithState, CountAfterWrite, WithCount;
    var plan := WritePlan(d, key, value, now);
    var new_ := NewRecord(key, value, now);
    var t, o := Target(d.slots, key), Retired(d.slots, key);
    if |ios| > 0 {
      assert ios[..0] == [] && ios[..1] == [ios[0]];
      assert Matches(Replay(d, ios[..0]), plan[0], ios[0]);
      assert Replay(d, ios[..1]).slots == d.slots[t := ios[0].landed];
      if |ios| == 1 {
        assert ios == ios[..1];
        LandsEnds(t, d.slots[t], new_);
      } else {
        assert Honest(ios[0]);
        LandsEnds(t, d.slots[t], new_);
        var b := Replay(d, ios[..1]);
        assert Matches(b, plan[1], ios[1]);
        assert ios[..2][..1] == ios[..1];
        if o == -1 {
          assert |ios| == 2 && ios == ios[..2];
        } else {
          assert Replay(d, ios[..2]).slots == d.slots[t := new_][o := ios[1].landed];
          if |ios| == 2 {
            assert ios == ios[..2];
          } else {
            assert |ios| == 3 && ios[..3][..2] == ios[..2] && ios == ios[..3];
            assert Matches(Replay(d, ios[..2]), plan[2], ios[2]);
          }
        }
      }
    }
  }

  // ---------------------------------------------------------------------
  // Lookups at each shape
  // ---------------------------------------------------------------------

  /** Every live copy of `key` is older than one written to slot `t` at `now`. */
  predicate AllOlder(slots: seq<Record>, key: Text, now: nat, t: nat) {
    forall j :: 0 <= j < |slots| && Holds(slots[j], key) ==> Time(slots[j]) < now || (Time(slots[j]) == now && j < t)
  }

  /** A new copy in a slot that held none wins exactly when every other copy is
      older; otherwise the reading stays what it was. */
  lemma AddRecord(slots: seq<Record>, t: nat, new_: Record, key: Text)
    requires t < |slots| && !Holds(slots[t], key) && Holds(new_, key)
    ensures AllOlder(slots, key, Time(new_), t) ==> Newest(slots[t := new_], key) == t
    ensures !AllOlder(slots, key, Time(new_), t) ==>
      Newest(slots[t := new_], key) == Newest(slots, key) && Newest(slots, key) != t
      && Lookup(slots[t := new_], key) == Lookup(slots, key)
  {
    hide Live, KeyOf, ValueOf, Newest, Time;
    var b := slots[t := new_];
    if AllOlder(slots, key, Time(new_), t) {
      forall j | 0 <= j < |b| && j != t && Holds(b[j], key)
        ensures Older(b, j, t)
      {
        assert b[j] == slots[j];
      }
      NewestUnique(b, key, t);
    } else {
      NewestIsMaximal(slots, key);
      NewestIsMaximal(b, key);
      var j :| 0 <= j < |slots| && Holds(slots[j], key) &&
        !(Time(slots[j]) < Time(new_) || (Time(slots[j]) == Time(new_) && j < t));
      var m := Newest(b, key);
      assert b[j] == slots[j] && m != -1 && m != t;
      forall k | 0 <= k < |slots| && k != m && Holds(slots[k], key)
        ensures Older(slots, k, m)
      {
        assert b[k] == slots[k] && Older(b, k, m);
      }
      NewestUnique(slots, key, m);
    }
  }

  /** Slots that hold other keys do not care. */
  lemma OthersKept(slots: seq<Record>, t: nat, r: Record, other: Text)
    requires t < |slots| && !Holds(slots[t], other) && !Holds(r, other)
    ensures Lookup(slots[t := r], other) == Lookup(slots, other)
  {
    hide Live, KeyOf, Lookup;
    SameHolders(slots, slots[t := r], other);
  }

  lemma LandsOnDead(i: nat, old_: Record, new_: Record, t: Record)
    requires Lands(i, old_, new_, t) && !Live(old_)
    ensures t == new_ || !Live(t)
  {
    hide Torn;
  }

  lemma EmptyIsDead(r: Record)
    requires r.state == SLOT_EMPTY
    ensures !Live(r)
  {}

  /** The slots without the copy that a write of `key` replaces. */
  function Survivors(slots: seq<Record>, key: Text): (s: seq<Record>)
    ensures |s| == |slots|
  {
    var o := LastHolder(slots, key);
    if o == -1 then slots else slots[o := EmptyRecord()]
  }

  /** What `key` reads as without the copy that a write replaces. */
  function Fallback(slots: seq<Record>, key: Text): Option<Text> {
    Lookup(Survivors(slots, key), key)
  }

  lemma SurvivorsAt(slots: seq<Record>, key: Text, j: nat)
    requires j < |slots|
    ensures Holds(Survivors(slots, key)[j], key) <==> Holds(slots[j], key) && j != LastHolder(slots, key)
    ensures j != LastHolder(slots, key) ==> Survivors(slots, key)[j] == slots[j]
  {
    hide CrcGood, LastHolder;
    EmptyState();
  }

  lemma EmptyState()
    ensures EmptyRecord().state == SLOT_EMPTY
  {}

  /** It does not matter how the replaced copy stops being live. */
  lemma WithoutLast(slots: seq<Record>, key: Text, dead: Record)
    requires LastHolder(slots, key) != -1 && !Holds(dead, key)
    ensures Lookup(slots[LastHolder(slots, key) := dead], key) == Fallback(slots, key)
  {
    hide Live, KeyOf, Lookup, LastHolder, Survivors;
    var o := LastHolder(slots, key);
    var a, b := slots[o := dead], Survivors(slots, key);
    forall j | 0 <= j < |a|
      ensures Holds(b[j], key) <==> Holds(slots[j], key) && j != o
      ensures j != o ==> b[j] == slots[j]
    {
      SurvivorsAt(slots, key, j);
    }
    SameHolders(a, b, key);
  }

  /** Every live copy the write leaves behind is older than the new record. A
      write retires one copy, the last in slot order. */
  predicate SurvivorsOlder(slots: seq<Record>, key: Text, now: bv32) {
    forall j :: 0 <= j < |slots| && Holds(slots[j], key) && j != LastHolder(slots, key) ==>
      Time(slots[j]) < now as int || (Time(slots[j]) == now as int && j < Target(slots, key))
  }

  lemma SurvivorsOlderIs(slots: seq<Record>, key: Text, now: bv32)
    requires Target(slots, key) != -1
    ensures SurvivorsOlder(slots, key, now) <==> AllOlder(Survivors(slots, key), key, now as int, Target(slots, key))
  {
    hide Live, KeyOf, Holds, Time, LastHolder, Survivors, Target;
    var base := Survivors(slots, key);
    if SurvivorsOlder(slots, key, now) {
      forall j | 0 <= j < |base| && Holds(base[j], key)
        ensures Time(base[j]) < now as int || (Time(base[j]) == now as int && j < Target(slots, key))
      {
        SurvivorsAt(slots, key, j);
      }
    }
    if AllOlder(base, key, now as int, Target(slots, key)) {
      forall j | 0 <= j < |slots| && Holds(slots[j], key) && j != LastHolder(slots, key)
        ensures Time(slots[j]) < now as int || (Time(slots[j]) == now as int && j < Target(slots, key))
      {
        SurvivorsAt(slots, key, j);
        assert Holds(base[j], key);
      }
    }
  }

  /** One live copy of each key, or a clock ahead of every copy, is enough. */
  lemma SurvivorsOlderWhen(slots: seq<Record>, key: Text, now: bv32)
    requires UniqueKeys(slots) || ClockAhead(slots, key, now)
    ensures SurvivorsOlder(slots, key, now)
  {
    hide CrcGood, KeyOf, Time, LastHolder, FirstEmpty;
    if UniqueKeys(slots) {
      forall j | 0 <= j < |slots| && Holds(slots[j], key)
        ensures j == LastHolder(slots, key)
      {
        assert Holds(slots[LastHolder(slots, key)], key);
      }
    }
  }

  /** With the replaced copy gone and the new record in place, the key reads as
      its new value exactly when the other copies are older. */
  lemma Replaced(slots: seq<Record>, key: Text, value: Text, now: bv32, after: seq<Record>)
    requires GoodArgs(key, value) && Target(slots, key) != -1 && |after| == |slots|
    requires after[Target(slots, key)] == NewRecord(key, value, now)
    requires forall j :: 0 <= j < |slots| && j != Target(slots, key) && j != LastHolder(slots, key) ==>
      after[j] == slots[j]
    requires var o := LastHolder(slots, key); o != -1 && o != Target(slots, key) ==> !Holds(after[o], key)
    ensures SurvivorsOlder(slots, key, now) ==>
      Newest(after, key) == Target(slots, key) && Lookup(after, key) == Some(value)
    ensures !SurvivorsOlder(slots, key, now) ==>
      Newest(after, key) != Target(slots, key) && Lookup(after, key) == Fallback(slots, key)
  {
    hide Live, KeyOf, ValueOf, Newest, Time, LastHolder, Survivors, NewRecord, SurvivorsOlder, AllOlder, FirstEmpty;
    var t, base := Target(slots, key), Survivors(slots, key);
    var b := base[t := NewRecord(key, value, now)];
    NewRecordIs(key, value, now);
    SurvivorsOlderIs(slots, key, now);
    SurvivorsAt(slots, key, t);
    TargetIsFree(slots, key);
    AddRecord(base, t, NewRecord(key, value, now), key);
    forall j | 0 <= j < |slots| && (Holds(after[j], key) || Holds(b[j], key))
      ensures after[j] == b[j]
    {
      SurvivorsAt(slots, key, j);
    }
    SameHolders(after, b, key);
  }

  /** A write's target is EMPTY, or the copy it replaces. */
  lemma TargetIsFree(slots: seq<Record>, key: Text)
    requires Target(slots, key) != -1
    ensures Target(slots, key) == LastHolder(slots, key) || !Live(slots[Target(slots, key)])
  {
    hide LastHolder, CrcGood;
  }

  /** What a read may return for the written key. */
  predicate OldOrNew(before: Option<Text>, value: Text, after: Option<Text>) {
    after == before || after == Some(value)
  }

  /** The condition under which no instant of a write shows anything but the old
      or the new value. */
  predicate StaysOldOrNew(slots: seq<Record>, key: Text, value: Text, now: bv32)
    requires GoodArgs(key, value) && Target(slots, key) != -1
  {
    || OldOrNew(Lookup(slots, key), value, Fallback(slots, key))
    || (SurvivorsOlder(slots, key, now) &&
        (FirstEmpty(slots) == -1 ==>
          CannotTear(LastHolder(slots, key), slots[LastHolder(slots, key)], NewRecord(key, value, now))))
  }

  /** At any instant the key reads as its old value, its new value, or what the
      copies a write leaves alone make it. */
  lemma ShapeReading(slots: seq<Record>, key: Text, value: Text, now: bv32, after: seq<Record>)
    requires GoodArgs(key, value) && Target(slots, key) != -1
    requires WriteShape(slots, key, NewRecord(key, value, now), after)
    ensures |after| == |slots|
    ensures OldOrNew(Lookup(slots, key), value, Lookup(after, key)) || Lookup(after, key) == Fallback(slots, key)
    ensures StaysOldOrNew(slots, key, value, now) ==> OldOrNew(Lookup(slots, key), value, Lookup(after, key))
  {
    if FirstEmpty(slots) != -1 {
      ShapeOutOfPlace(slots, key, value, now, after);
    } else {
      ShapeInPlace(slots, key, value, now, after);
    }
  }

  lemma ShapeOutOfPlace(slots: seq<Record>, key: Text, value: Text, now: bv32, after: seq<Record>)
    requires GoodArgs(key, value) && FirstEmpty(slots) != -1
    requires WriteShape(slots, key, NewRecord(key, value, now), after)
    ensures |after| == |slots|
    ensures OldOrNew(Lookup(slots, key), value, Lookup(after, key))
      || (!SurvivorsOlder(slots, key, now) && Lookup(after, key) == Fallback(slots, key))
  {
    hide Lands, Live, KeyOf, ValueOf, Newest, Time, NewRecord, WithState, FirstEmpty, LastHolder,
      SurvivorsOlder, AllOlder, Survivors;
    var new_ := NewRecord(key, value, now);
    var t, o := Target(slots, key), Retired(slots, key);
    NewRecordIs(key, value, now);
    EmptyIsDead(slots[t]);
    DeadHolds(slots[t], key);
    AddRecord(slots, t, new_, key);
    if after != slots {
      if torn :| Lands(t, slots[t], new_, torn) && after == slots[t := torn] {
        LandsOnDead(t, slots[t], new_, torn);
        if torn != new_ {
          DeadHolds(torn, key);
          SameHolders(slots, after, key);
        }
      } else {
        ShapeRetired(slots, key, value, now, after);
      }
    }
  }

  lemma ShapeRetired(slots: seq<Record>, key: Text, value: Text, now: bv32, after: seq<Record>)
    requires GoodArgs(key, value) && FirstEmpty(slots) != -1 && LastHolder(slots, key) != -1
    requires var t, o := Target(slots, key), LastHolder(slots, key);
      exists torn :: Lands(o, slots[o], WithState(slots[o], SLOT_DELETED), torn) &&
                     after == slots[t := NewRecord(key, value, now)][o := torn]
    ensures |after| == |slots|
    ensures after == slots[Target(slots, key) := NewRecord(key, value, now)]
      || Lookup(after, key) == if SurvivorsOlder(slots, key, now) then Some(value) else Fallback(slots, key)
  {
    hide Lands, Live, KeyOf, Lookup, Newest, Time, NewRecord, WithState, FirstEmpty, LastHolder,
      SurvivorsOlder, Survivors;
    var t, o := Target(slots, key), LastHolder(slots, key);
    var torn :| Lands(o, slots[o], WithState(slots[o], SLOT_DELETED), torn) &&
      after == slots[t := NewRecord(key, value, now)][o := torn];
    RetiredIsDead(o, slots[o], torn);
    EmptyIsDead(slots[t]);
    DeadHolds(slots[t], key);
    assert t != o;
    if torn == slots[o] {
      assert after == slots[t := NewRecord(key, value, now)];
    } else {
      DeadHolds(torn, key);
      Replaced(slots, key, value, now, after);
    }
  }

  lemma DeadHolds(r: Record, key: Text)
    ensures !Live(r) ==> !Holds(r, key)
  {}

  lemma ShapeInPlace(slots: seq<Record>, key: Text, value: Text, now: bv32, after: seq<Record>)
    requires GoodArgs(key, value) && FirstEmpty(slots) == -1 && LastHolder(slots, key) != -1
    requires WriteShape(slots, key, NewRecord(key, value, now), after)
    ensures |after| == |slots|
    ensures var o := LastHolder(slots, key);
      && (!CrcGood(after[o]) ==> Lookup(after, key) == Fallback(slots, key)
                                 && !CannotTear(o, slots[o], NewRecord(key, value, now)))
      && (CrcGood(after[o]) ==>
            || Lookup(after, key) == Lookup(slots, key)
            || Lookup(after, key) == if SurvivorsOlder(slots, key, now) then Some(value) else Fallback(slots, key))
  {
    hide Lands, CrcGood, KeyOf, Lookup, NewRecord, WithState, LastHolder, SurvivorsOlder, Survivors, CannotTear;
    var new_ := NewRecord(key, value, now);
    var o := LastHolder(slots, key);
    NewRecordIs(key, value, now);
    if after != slots {
      var torn :| Lands(o, slots[o], new_, torn) && after == slots[o := torn];
      LandsUntorn(o, slots[o], new_, torn);
      if torn == new_ {
        Replaced(slots, key, value, now, after);
      } else if !CrcGood(torn) {
        WithoutLast(slots, key, torn);
      }
    }
  }

  lemma ShapeKeepsOthers(slots: seq<Record>, key: Text, value: Text, now: bv32, after: seq<Record>, other: Text)
    requires GoodArgs(key, value) && Target(slots, key) != -1 && other != key
    requires WriteShape(slots, key, NewRecord(key, value, now), after)
    ensures Lookup(after, other) == Lookup(slots, other)
  {
    hide Lands, CrcGood, KeyOf, Lookup, NewRecord, WithState, LastHolder, FirstEmpty;
    var new_ := NewRecord(key, value, now);
    var t, o := Target(slots, key), Retired(slots, key);
    NewRecordIs(key, value, now);
    assert !Holds(slots[t], other);
    OthersKept(slots, t, new_, other);
    if after != slots {
      if torn :| Lands(t, slots[t], new_, torn) && after == slots[t := torn] {
        TornHolds(t, slots[t], new_, torn, other);
        OthersKept(slots, t, torn, other);
      } else {
        var torn :| Lands(o, slots[o], WithState(slots[o], SLOT_DELETED), torn) && after == slots[t := new_][o := torn];
        RetiredIsDead(o, slots[o], torn);
        assert slots[t := new_][o] == slots[o];
        OthersKept(slots[t := new_], o, torn, other);
      }
    }
  }

  lemma TornHolds(i: nat, old_: Record, new_: Record, t: Record, key: Text)
    requires Lands(i, old_, new_, t) && !Holds(old_, key) && !Holds(new_, key)
    ensures !Holds(t, key)
  {
    hide Torn;
  }

  // ---------------------------------------------------------------------
  // Main results
  // ---------------------------------------------------------------------

  /** Stop a write at any instant, let the disk write in progress tear, let any
      reported failure happen, then reopen. No other key changes, whatever the
      store holds. The written key reads as its old or its new value when the
      write goes to an EMPTY slot and the copies it leaves behind are older; in
      any case it reads as its old value, its new value, or what those copies
      make it. */
  lemma WriteIsCrashAtomic(d: Disk, key: Text, value: Text, now: bv32, ios: seq<Io>, other: Text)
    requires GoodArgs(key, value) && Fits32(d.slots) && Target(d.slots, key) != -1
    requires WriteMoment(d, key, value, now, ios)
    ensures var before, after := Lookup(d.slots, key), Lookup(Scanned(Replay(d, ios)).slots, key);
      && (FirstEmpty(d.slots) != -1 && SurvivorsOlder(d.slots, key, now) ==> OldOrNew(before, value, after))
      && (StaysOldOrNew(d.slots, key, value, now) ==> OldOrNew(before, value, after))
      && (OldOrNew(before, value, after) || after == Fallback(d.slots, key))
    ensures other != key ==> Lookup(Scanned(Replay(d, ios)).slots, other) == Lookup(d.slots, other)
  {
    hide WriteMoment, WriteShape, Lookup, Scanned, ScanPlan, SurvivorsOlder, CrcGood, FirstEmpty, Fallback;
    MomentHasShape(d, key, value, now, ios);
    var c := Replay(d, ios);
    ShapeReading(d.slots, key, value, now, c.slots);
    OpenRecovers(c, key);
    OpenRecovers(c, other);
    if other != key {
      ShapeKeepsOthers(d.slots, key, value, now, c.slots, other);
    }
  }

  /** Crash atomicity, exactly: every instant of a write, reopened, reads as old or
      new, if and only if either the copies it leaves behind already read as one
      of the two, or they are older and, when the update is made in place, no
      torn form of its slot fails the CRC. */
  lemma WriteIsCrashAtomicIff(d: Disk, key: Text, value: Text, now: bv32)
    requires GoodArgs(key, value) && Fits32(d.slots) && Target(d.slots, key) != -1
    ensures (forall ios :: WriteMoment(d, key, value, now, ios) ==>
        OldOrNew(Lookup(d.slots, key), value, Lookup(Scanned(Replay(d, ios)).slots, key)))
      <==> StaysOldOrNew(d.slots, key, value, now)
  {
    hide WriteMoment, Lookup, Scanned, SurvivorsOlder, CrcGood, FirstEmpty, Fallback, LastHolder, CannotTear,
      NewRecord, OldOrNew;
    if StaysOldOrNew(d.slots, key, value, now) {
      forall ios | WriteMoment(d, key, value, now, ios)
        ensures OldOrNew(Lookup(d.slots, key), value, Lookup(Scanned(Replay(d, ios)).slots, key))
      {
        WriteIsCrashAtomic(d, key, value, now, ios, key);
      }
    } else {
      var ios := FallbackInstant(d, key, value, now);
      OpenRecovers(Replay(d, ios), key);
    }
  }

  /** When the condition fails, an instant that shows the copies left behind. */
  lemma FallbackInstant(d: Disk, key: Text, value: Text, now: bv32) returns (ios: seq<Io>)
    requires GoodArgs(key, value) && Target(d.slots, key) != -1
    requires !StaysOldOrNew(d.slots, key, value, now)
    ensures WriteMoment(d, key, value, now, ios)
    ensures Lookup(Replay(d, ios).slots, key) == Fallback(d.slots, key)
  {
    hide WriteMoment, Lookup, SurvivorsOlder, CrcGood, LastHolder, NewRecord, WithState, Torn, Lands,
      OldOrNew, Fallback, FirstEmpty, CannotTear;
    var new_ := NewRecord(key, value, now);
    var t, o := Target(d.slots, key), LastHolder(d.slots, key);
    NoSurvivors(d.slots, key, now);
    LandsEnds(t, d.slots[t], new_);
    if !SurvivorsOlder(d.slots, key, now) {
      if FirstEmpty(d.slots) != -1 {
        ios := BothWrites(d, key, value, now);
        RetiredStateDead(d.slots[o]);
        DeadHolds(WithState(d.slots[o], SLOT_DELETED), key);
      } else {
        ios := FirstWrite(d, key, value, now, new_, true);
      }
      Replaced(d.slots, key, value, now, Replay(d, ios).slots);
    } else {
      var landed := TearingSectors(o, d.slots[o], new_);
      var torn := Torn(o, landed, d.slots[o], new_);
      ios := FirstWrite(d, key, value, now, torn, false);
      BadHolds(torn, key);
      WithoutLast(d.slots, key, torn);
    }
  }

  lemma NoSurvivors(slots: seq<Record>, key: Text, now: bv32)
    ensures LastHolder(slots, key) == -1 ==> SurvivorsOlder(slots, key, now)
  {}

  lemma BadHolds(r: Record, key: Text)
    requires !CrcGood(r)
    ensures !Holds(r, key)
  {}

  /** The first disk write of a write, landed in a given way. */
  lemma FirstWrite(d: Disk, key: Text, value: Text, now: bv32, landed: Record, ok: bool) returns (ios: seq<Io>)
    requires GoodArgs(key, value) && Target(d.slots, key) != -1
    requires Lands(Target(d.slots, key), d.slots[Target(d.slots, key)], NewRecord(key, value, now), landed)
    requires ok ==> landed == NewRecord(key, value, now)
    ensures |ios| == 1 && WriteMoment(d, key, value, now, ios)
    ensures ios[0] == SlotIo(Target(d.slots, key), NewRecord(key, value, now), landed, ok)
    ensures Replay(d, ios).slots == d.slots[Target(d.slots, key) := landed]
  {
    hide Lands, NewRecord, WithState, Retired, Target, CountAfterWrite, WithCount;
    ios := [SlotIo(Target(d.slots, key), NewRecord(key, value, now), landed, ok)];
    assert ios[..0] == [];
    assert Matches(Replay(d, ios[..0]), WritePlan(d, key, value, now)[0], ios[0]);
  }

  /** Both slot writes of an out-of-place update, landed. */
  lemma BothWrites(d: Disk, key: Text, value: Text, now: bv32) returns (ios: seq<Io>)
    requires GoodArgs(key, value) && FirstEmpty(d.slots) != -1 && LastHolder(d.slots, key) != -1
    ensures WriteMoment(d, key, value, now, ios)
    ensures var o := LastHolder(d.slots, key);
      Replay(d, ios).slots ==
      d.slots[Target(d.slots, key) := NewRecord(key, value, now)][o := WithState(d.slots[o], SLOT_DELETED)]
  {
    hide Lands, NewRecord, WithState, FirstEmpty, LastHolder, CountAfterWrite, WithCount, Replay, Matches;
    var new_ := NewRecord(key, value, now);
    var t, o := Target(d.slots, key), LastHolder(d.slots, key);
    var w := WithState(d.slots[o], SLOT_DELETED);
    LandsEnds(t, d.slots[t], new_);
    LandsEnds(o, d.slots[o], w);
    var first := FirstWrite(d, key, value, now, new_, true);
    var second := SlotIo(o, w, w, true);
    PutMatches(Replay(d, first), o, w);
    FollowsSnoc(d, WritePlan(d, key, value, now)[..1], first, PutSlot(o, w), second);
    var plan := WritePlan(d, key, value, now);
    assert plan[..1] + [PutSlot(o, w)] == plan[..2];
    ios := first + [second];
    FollowsCut(d, plan, 2, ios);
  }

  lemma PutMatches(d: Disk, i: nat, rec: Record)
    requires i < |d.slots|
    ensures Matches(d, PutSlot(i, rec), SlotIo(i, rec, rec, true))
  {
    LandsEnds(i, d.slots[i], rec);
  }

  lemma FollowsCut(d: Disk, plan: seq<Step>, n: nat, ios: seq<Io>)
    requires n <= |plan| && Follows(d, plan[..n], ios)
    ensures Follows(d, plan, ios)
  {
    hide Matches;
  }

  /** On the in-place path (no EMPTY slot) only the written key is at risk: when
      its torn record fails the CRC it reads as the other copies of the key make
      it, which is missing when there are none. */
  lemma InPlaceRisksOnlyItsKey(d: Disk, key: Text, value: Text, now: bv32, ios: seq<Io>, other: Text)
    requires GoodArgs(key, value) && Fits32(d.slots)
    requires FirstEmpty(d.slots) == -1 && LastHolder(d.slots, key) != -1
    requires WriteMoment(d, key, value, now, ios)
    ensures var c, o := Replay(d, ios), LastHolder(d.slots, key);
      var after := Scanned(c).slots;
      && (!CrcGood(c.slots[o]) ==> Lookup(after, key) == Fallback(d.slots, key))
      && (CrcGood(c.slots[o]) && SurvivorsOlder(d.slots, key, now) ==>
            OldOrNew(Lookup(d.slots, key), value, Lookup(after, key)))
      && (other != key ==> Lookup(after, other) == Lookup(d.slots, other))
  {
    hide WriteMoment, Lookup, Scanned, ScanPlan, CrcGood, Lands, KeyOf, NewRecord, WithState, Fallback,
      SurvivorsOlder, WriteShape;
    MomentHasShape(d, key, value, now, ios);
    var c := Replay(d, ios);
    OpenRecovers(c, key);
    OpenRecovers(c, other);
    if other != key {
      ShapeKeepsOthers(d.slots, key, value, now, c.slots, other);
    }
    ShapeInPlace(d.slots, key, value, now, c.slots);
  }

  /** The bodies of two writes of the same pair at different times differ in the
      timestamp, and nowhere else. */
  lemma SamePairBodies(key: Text, value: Text, s: bv32, t: bv32)
    requires GoodArgs(key, value) && s != t
    ensures var a, b := NewRecord(key, value, s), NewRecord(key, value, t);
      && Body(a) != Body(b)
      && forall k :: 0 <= k < 296 && !(4 <= k < 8) ==> Body(a)[k] == Body(b)[k]
  {
    hide Body, Padded, RecordCrc, Le32, FromLe32;
    var a, b := NewRecord(key, value, s), NewRecord(key, value, t);
    BodyParts(a);
    BodyParts(b);
    Le32RoundTrip(s);
    Le32RoundTrip(t);
    forall k | 0 <= k < 296 && !(4 <= k < 8)
      ensures Body(a)[k] == Body(b)[k]
    {
      SliceAgrees(Body(a), Body(b), k);
    }
  }

  lemma SliceAgrees(x: seq<Byte>, y: seq<Byte>, k: nat)
    requires |x| == |y| == 296 && k < 296 && !(4 <= k < 8)
    requires x[0] == y[0] && x[1..4] == y[1..4] && x[8..40] == y[8..40] && x[40..296] == y[40..296]
    ensures x[k] == y[k]
  {
    if 1 <= k < 4 {
      assert x[k] == x[1..4][k - 1] && y[k] == y[1..4][k - 1];
    } else if 8 <= k < 40 {
      assert x[k] == x[8..40][k - 8] && y[k] == y[8..40][k - 8];
    } else if 40 <= k {
      assert x[k] == x[40..296][k - 40] && y[k] == y[40..296][k - 40];
    }
  }

  /** Rewriting slot 1 with the same pair at another time, of which only the first
      sector lands, leaves the new body under the old CRC. */
  lemma HalfRewriteIsBroken(key: Text, value: Text, s: bv32, t: bv32)
    requires GoodArgs(key, value) && s != t
    ensures !CrcGood(Torn(1, {0}, NewRecord(key, value, s), NewRecord(key, value, t)))
  {
    hide Body, Encode, Crc, NewRecord, CrcGood;
    var a, b := NewRecord(key, value, s), NewRecord(key, value, t);
    var torn, image := Torn(1, {0}, a, b), Mix(1, {0}, Encode(a), Encode(b));
    SamePairBodies(key, value, s, t);
    forall k | 0 <= k < 296
      ensures image[k] == Body(b)[k]
    {
      EncodeBody(a, k);
      EncodeBody(b, k);
      assert Sector(1, k) == 0 || k >= 8;
    }
    assert image[..296] == Body(b);
    DecodeFields(b, image);
    TornCrcField(1, {0}, a, b);
    BodyIgnoresCrc(b, torn.crc);
    BurstDetectedAt(Body(a), Body(b), 4);
    NewCrc(key, value, s);
    CrcGoodIs(torn);
  }

  lemma EncodeBody(r: Record, k: nat)
    requires k < 296
    ensures Encode(r)[k] == Body(r)[k]
  {
    hide Body;
  }

  lemma NewCrc(key: Text, value: Text, now: bv32)
    requires GoodArgs(key, value)
    ensures NewRecord(key, value, now).crc == Crc(Body(NewRecord(key, value, now)))
  {
    hide NewRecord, CrcGood, Crc, Body;
    NewRecordIs(key, value, now);
    CrcGoodIs(NewRecord(key, value, now));
  }

  lemma CrcGoodIs(r: Record)
    ensures CrcGood(r) <==> r.crc == Crc(Body(r))
  {}

  /** A store of two slots, both taken: writing to the second key the value it
      already has, a second later, can lose it. */
  lemma InPlaceCanLose(d: Disk, other: Text, first: Text, key: Text, value: Text, s: bv32, t: bv32)
    returns (ios: seq<Io>)
    requires GoodArgs(other, first) && GoodArgs(key, value) && other != key && s != t
    requires d.slots == [NewRecord(other, first, s), NewRecord(key, value, s)]
    ensures WriteMoment(d, key, value, t, ios)
    ensures Lookup(d.slots, key) == Some(value)
    ensures Lookup(Scanned(Replay(d, ios)).slots, key) == None
    ensures !CannotTear(1, d.slots[1], NewRecord(key, value, t))
  {
    hide NewRecord, CrcGood, KeyOf, ValueOf, Lookup, Torn, WriteMoment, Scanned, Sector, Replay, CannotTear;
    NewRecordIs(other, first, s);
    NewRecordIs(key, value, s);
    NewRecordIs(key, value, t);
    var torn := Torn(1, {0}, d.slots[1], NewRecord(key, value, t));
    HalfRewriteIsBroken(key, value, s, t);
    TwoTaken(d.slots, key);
    assert Lands(1, d.slots[1], NewRecord(key, value, t), torn);
    ios := FirstWrite(d, key, value, t, torn, false);
    BadHolds(torn, key);
    LookupNothing(d.slots[1 := torn], key);
    OpenRecovers(Replay(d, ios), key);
    OnlyHolder(d.slots, key, 1);
    if CannotTear(1, d.slots[1], NewRecord(key, value, t)) {
      LandsUntorn(1, d.slots[1], NewRecord(key, value, t), torn);
    }
  }

  lemma TwoTaken(slots: seq<Record>, key: Text)
    requires |slots| == 2 && Live(slots[0]) && Holds(slots[1], key)
    ensures FirstEmpty(slots) == -1 && LastHolder(slots, key) == 1
  {
    hide CrcGood, KeyOf;
    LastHolderIs(slots, key, 1);
  }

  lemma OnlyHolder(slots: seq<Record>, key: Text, i: nat)
    requires i < |slots| && Holds(slots[i], key) && forall j :: 0 <= j < |slots| && j != i ==> !Holds(slots[j], key)
    ensures Newest(slots, key) == i && Lookup(slots, key) == Some(ValueOf(slots[i]))
  {
    hide Live, KeyOf, ValueOf, Newest, Time;
    NewestUnique(slots, key, i);
  }

  /** A slot inside one sector is rewritten whole or not at all. */
  lemma OneSectorUntearable(i: nat, old_: Record, new_: Record)
    requires Sector(i, 0) == Sector(i, 296)
    ensures Untearable(i, old_, new_)
  {
    UntearableIff(i, old_, new_);
  }

  /** So an in-place update there is crash-atomic when the other copies are older. */
  lemma InPlaceInOneSector(d: Disk, key: Text, value: Text, now: bv32, ios: seq<Io>)
    requires GoodArgs(key, value) && Fits32(d.slots)
    requires FirstEmpty(d.slots) == -1 && LastHolder(d.slots, key) != -1
    requires Sector(LastHolder(d.slots, key), 0) == Sector(LastHolder(d.slots, key), 296)
    requires SurvivorsOlder(d.slots, key, now) && WriteMoment(d, key, value, now, ios)
    ensures OldOrNew(Lookup(d.slots, key), value, Lookup(Scanned(Replay(d, ios)).slots, key))
  {
    hide WriteMoment, Lookup, Scanned, SurvivorsOlder, FirstEmpty, Fallback, LastHolder, NewRecord, Sector;
    WriteIsCrashAtomic(d, key, value, now, ios, key);
  }

  // ---------------------------------------------------------------------
  // Reading back a finished write
  // ---------------------------------------------------------------------

  /** The slots after a write whose steps all landed. */
  function Written(slots: seq<Record>, key: Text, value: Text, now: bv32): (s: seq<Record>)
    requires GoodArgs(key, value)
    ensures |s| == |slots|
  {
    var t, o := Target(slots, key), Retired(slots, key);
    if t == -1 then slots
    else if o == -1 then slots[t := NewRecord(key, value, now)]
    else slots[t := NewRecord(key, value, now)][o := WithState(slots[o], SLOT_DELETED)]
  }

  lemma PerformWrite(d: Disk, key: Text, value: Text, now: bv32)
    requires GoodArgs(key, value)
    ensures var e := Perform(d, WritePlan(d, key, value, now));
      && e.slots == Written(d.slots, key, value, now)
      && e.header == if Target(d.slots, key) == -1 then d.header else WithCount(d.header, CountAfterWrite(d, key))
  {
    hide NewRecord, WithState, Target, Retired, CountAfterWrite, WithCount, Perform;
    if Target(d.slots, key) == -1 {
      PerformNone(Scan, d);
    } else {
      var o := Retired(d.slots, key);
      var put := PutSlot(Target(d.slots, key), NewRecord(key, value, now));
      var last := PutHeader(WithCount(d.header, CountAfterWrite(d, key)));
      PerformOne(d, put);
      if o == -1 {
        PerformSnoc(d, [put], last);
        assert WritePlan(d, key, value, now) == [put] + [last];
      } else {
        var retire := PutSlot(o, WithState(d.slots[o], SLOT_DELETED));
        PerformSnoc(d, [put], retire);
        PerformSnoc(d, [put] + [retire], last);
        assert WritePlan(d, key, value, now) == [put] + [retire] + [last];
      }
    }
  }

  lemma PerformOne(d: Disk, step: Step)
    ensures Perform(d, [step]) == Intend(d, step)
  {
    PerformNone(Scan, d);
    PerformSnoc(d, [], step);
    assert [] + [step] == [step];
  }

  /** A finished write is what the next read settles on exactly when every copy it
      left behind is older; otherwise the key reads as those copies make it. */
  lemma ReadsBackIff(slots: seq<Record>, key: Text, value: Text, now: bv32)
    requires GoodArgs(key, value) && Target(slots, key) != -1
    ensures Newest(Written(slots, key, value, now), key) == Target(slots, key) <==> SurvivorsOlder(slots, key, now)
    ensures Lookup(Written(slots, key, value, now), key) ==
      if SurvivorsOlder(slots, key, now) then Some(value) else Fallback(slots, key)
  {
    hide CrcGood, KeyOf, Newest, Time, NewRecord, WithState, FirstEmpty, LastHolder, SurvivorsOlder, Fallback, Lookup;
    var o := Retired(slots, key);
    if o != -1 {
      RetiredStateDead(slots[o]);
    }
    Replaced(slots, key, value, now, Written(slots, key, value, now));
  }

  lemma RetiredStateDead(r: Record)
    ensures !Live(WithState(r, SLOT_DELETED))
  {}

  /** One live copy per key, or a clock ahead of every copy, is enough. */
  lemma WriteThenRead(slots: seq<Record>, key: Text, value: Text, now: bv32)
    requires GoodArgs(key, value) && Target(slots, key) != -1
    requires UniqueKeys(slots) || ClockAhead(slots, key, now)
    ensures Lookup(Written(slots, key, value, now), key) == Some(value)
  {
    hide Live, KeyOf, Lookup, Time, LastHolder, FirstEmpty, Written, SurvivorsOlder, UniqueKeys, ClockAhead;
    SurvivorsOlderWhen(slots, key, now);
    ReadsBackIff(slots, key, value, now);
  }

  /** Without either, a stale value can win. The write at time 9 is cut off by
      a crash before it retires the copy it replaces; the next write, with the
      clock one second back, retires only the later copy, and the value
      from before both writes is read. */
  lemma StaleCopyResurfaces(key: Text, first: Text, second: Text, third: Text)
    requires GoodArgs(key, first) && GoodArgs(key, second) && GoodArgs(key, third)
    ensures
      var start := [NewRecord(key, first, 9), EmptyRecord(), EmptyRecord()];
      var crashed := start[Target(start, key) := NewRecord(key, second, 9)];
      && WriteShape(start, key, NewRecord(key, second, 9), crashed)
      && Lookup(crashed, key) == Some(second)
      && Lookup(Written(crashed, key, third, 8), key) == Some(first)
  {
    hide CrcGood, KeyOf, ValueOf, NewRecord, EmptyRecord, Lands, WithState;
    var a, b, c := NewRecord(key, first, 9), NewRecord(key, second, 9), NewRecord(key, third, 8);
    var e := EmptyRecord();
    NewRecordIs(key, first, 9);
    NewRecordIs(key, second, 9);
    NewRecordIs(key, third, 8);
    EmptyState();
    var start := [a, e, e];
    FirstEmptyIs(start, 1);
    var crashed := start[1 := b];
    LandsEnds(1, e, b);
    NewestUnique(crashed, key, 1);
    FirstEmptyIs(crashed, 2);
    LastHolderIs(crashed, key, 1);
    RetiredStateDead(b);
    var after := Written(crashed, key, third, 8);
    assert after == [a, WithState(b, SLOT_DELETED), c];
    NewestUnique(after, key, 0);
  }

  /** No clock step is needed: with an EMPTY slot in front of two copies from one
      second, a write in that second leaves the older copy to be read. */
  lemma StaleInSameSecond(front: Record, key: Text, first: Text, second: Text, third: Text, now: bv32)
    requires GoodArgs(key, first) && GoodArgs(key, second) && GoodArgs(key, third)
    requires front.state != SLOT_EMPTY && !Holds(front, key)
    ensures
      var slots := [front, EmptyRecord(), NewRecord(key, first, now), NewRecord(key, second, now)];
      && Lookup(slots, key) == Some(second)
      && Lookup(Written(slots, key, third, now), key) == Some(first)
  {
    hide CrcGood, KeyOf, ValueOf, NewRecord, EmptyRecord, WithState;
    var e, a, b := EmptyRecord(), NewRecord(key, first, now), NewRecord(key, second, now);
    NewRecordIs(key, first, now);
    NewRecordIs(key, second, now);
    NewRecordIs(key, third, now);
    EmptyState();
    var slots := [front, e, a, b];
    FirstEmptyIs(slots, 1);
    LastHolderIs(slots, key, 3);
    NewestUnique(slots, key, 3);
    RetiredStateDead(b);
    var after := Written(slots, key, third, now);
    assert after == [front, NewRecord(key, third, now), a, WithState(b, SLOT_DELETED)];
    NewestUnique(after, key, 2);
  }

  lemma FirstEmptyIs(slots: seq<Record>, i: nat)
    requires i < |slots| && slots[i].state == SLOT_EMPTY && forall j :: 0 <= j < i ==> slots[j].state != SLOT_EMPTY
    ensures FirstEmpty(slots) == i
  {}

  lemma LastHolderIs(slots: seq<Record>, key: Text, i: nat)
    requires i < |slots| && Holds(slots[i], key) && forall j :: i < j < |slots| ==> !Holds(slots[j], key)
    ensures LastHolder(slots, key) == i
  {}

  // ---------------------------------------------------------------------
  // What write-verify does and does not see
  // ---------------------------------------------------------------------

  /** The read-back compares stored CRC fields only. It passes exactly when the
      sector holding that field landed, or the field did not change. */
  lemma VerifySeesOnlyTheCrcSector(i: nat, landed: set<nat>, old_: Record, new_: Record)
    ensures Verified(SlotIo(i, new_, Torn(i, landed, old_, new_), true))
      <==> Sector(i, 296) in landed || old_.crc == new_.crc
  {
    hide Torn;
    TornCrcField(i, landed, old_, new_);
  }

  /** Nothing outside the sector of the CRC field changes. */
  predicate SameElsewhere(i: nat, old_: Record, new_: Record) {
    forall b :: 0 <= b < RECORD_SIZE && Sector(i, b) != Sector(i, 296) ==> Encode(old_)[b] == Encode(new_)[b]
  }

  /** Passing the read-back proves that the record landed exactly when nothing
      outside the sector of the CRC field changes, or, if that field stays the
      same, when nothing changes at all. */
  lemma VerifyProvesLandingIff(i: nat, old_: Record, new_: Record)
    ensures (forall landed: set<nat> ::
        Verified(SlotIo(i, new_, Torn(i, landed, old_, new_), true)) ==> Torn(i, landed, old_, new_) == new_)
      <==> (if old_.crc == new_.crc then old_ == new_ else SameElsewhere(i, old_, new_))
  {
    hide Torn, Encode, Verified;
    if old_.crc == new_.crc {
      forall landed: set<nat>
        ensures Verified(SlotIo(i, new_, Torn(i, landed, old_, new_), true))
      {
        VerifySeesOnlyTheCrcSector(i, landed, old_, new_);
      }
      TornNone(i, old_, new_);
      if old_ == new_ {
        forall landed: set<nat>
          ensures Torn(i, landed, old_, new_) == new_
        {
          TornSame(i, landed, new_);
        }
      }
    } else if SameElsewhere(i, old_, new_) {
      forall landed: set<nat> | Verified(SlotIo(i, new_, Torn(i, landed, old_, new_), true))
        ensures Torn(i, landed, old_, new_) == new_
      {
        VerifySeesOnlyTheCrcSector(i, landed, old_, new_);
        CrcSectorLanded(i, landed, old_, new_);
      }
    } else {
      VerifySeesOnlyTheCrcSector(i, {Sector(i, 296)}, old_, new_);
      OnlyCrcSector(i, old_, new_);
    }
  }

  lemma CrcSectorLanded(i: nat, landed: set<nat>, old_: Record, new_: Record)
    requires Sector(i, 296) in landed && SameElsewhere(i, old_, new_)
    ensures Torn(i, landed, old_, new_) == new_
  {
    hide Encode;
    assert Mix(i, landed, Encode(old_), Encode(new_)) == Encode(new_);
    DecodeEncode(new_);
  }

  lemma OnlyCrcSector(i: nat, old_: Record, new_: Record)
    requires !SameElsewhere(i, old_, new_)
    ensures Torn(i, {Sector(i, 296)}, old_, new_) != new_
  {
    hide Encode, Decode;
    var image := Mix(i, {Sector(i, 296)}, Encode(old_), Encode(new_));
    var b :| 0 <= b < RECORD_SIZE && Sector(i, b) != Sector(i, 296) && Encode(old_)[b] != Encode(new_)[b];
    assert image[b] == Encode(old_)[b];
    EncodeDecode(image);
  }

  /** A device that silently drops the first of a slot's two sectors passes the
      check and leaves a slot no read will return. */
  lemma VerifyAcceptsHalfWrite(i: nat, old_: Record, new_: Record)
    requires Sector(i, 0) != Sector(i, 296) && old_.state == SLOT_EMPTY
    ensures var t := Torn(i, {Sector(i, 296)}, old_, new_);
      Verified(SlotIo(i, new_, t, true)) && !Live(t)
  {
    TornCrcField(i, {Sector(i, 296)}, old_, new_);
    var image := Mix(i, {Sector(i, 296)}, Encode(old_), Encode(new_));
    assert image[0] == Encode(old_)[0] == old_.state;
  }

  /** An update that trusts such a check retires the old copy too: the key is left
      to the other copies, and is lost when there are none. */
  lemma HalfWriteLosesKey(slots: seq<Record>, key: Text, value: Text, now: bv32)
    requires GoodArgs(key, value) && FirstEmpty(slots) != -1 && LastHolder(slots, key) != -1
    requires Sector(FirstEmpty(slots), 0) != Sector(FirstEmpty(slots), 296)
    ensures var t, o := FirstEmpty(slots), LastHolder(slots, key);
      var half := Torn(t, {Sector(t, 296)}, slots[t], NewRecord(key, value, now));
      && Verified(SlotIo(t, NewRecord(key, value, now), half, true))
      && Lookup(slots[t := half][o := WithState(slots[o], SLOT_DELETED)], key) == Fallback(slots, key)
  {
    hide NewRecord, WithState, Torn, FirstEmpty, LastHolder, Live, KeyOf, Lookup, Sector;
    var t, o := FirstEmpty(slots), LastHolder(slots, key);
    var half := Torn(t, {Sector(t, 296)}, slots[t], NewRecord(key, value, now));
    var dead := WithState(slots[o], SLOT_DELETED);
    VerifyAcceptsHalfWrite(t, slots[t], NewRecord(key, value, now));
    EmptyIsDead(slots[t]);
    DeadHolds(slots[t], key);
    DeadHolds(half, key);
    RetiredStateDead(slots[o]);
    DeadHolds(dead, key);
    assert t != o && slots[t := half][o := dead] == slots[o := dead][t := half];
    OthersKept(slots[o := dead], t, half, key);
    WithoutLast(slots, key, dead);
  }

  /** The second slot of every file is such a slot: a new record half-written to
      it is reported as verified and cannot be read. */
  lemma SlotOneHalfWritten(key: Text, value: Text, now: bv32)
    requires GoodArgs(key, value)
    ensures var t := Torn(1, {Sector(1, 296)}, EmptyRecord(), NewRecord(key, value, now));
      Verified(SlotIo(1, NewRecord(key, value, now), t, true)) && !Live(t)
  {
    hide NewRecord, EmptyRecord, Torn;
    EmptyState();
    assert Sector(1, 0) == 0 && Sector(1, 296) == 1;
    VerifyAcceptsHalfWrite(1, EmptyRecord(), NewRecord(key, value, now));
  }

  /** A store of two slots, one taken: an update of its key that lands half in
      slot 1 is reported as done and loses the key. */
  lemma SlotOneLosesKey(slots: seq<Record>, key: Text, first: Text, value: Text, s: bv32, now: bv32)
    returns (half: Record)
    requires GoodArgs(key, first) && GoodArgs(key, value)
    requires slots == [NewRecord(key, first, s), EmptyRecord()]
    ensures Target(slots, key) == 1 && Retired(slots, key) == 0
    ensures half == Torn(1, {1}, slots[1], NewRecord(key, value, now))
    ensures Verified(SlotIo(1, NewRecord(key, value, now), half, true))
    ensures Lookup(slots, key) == Some(first)
    ensures Lookup([WithState(slots[0], SLOT_DELETED), half], key) == None
  {
    hide NewRecord, EmptyRecord, WithState, Torn, Live, KeyOf, ValueOf, Lookup, Newest;
    half := Torn(1, {1}, slots[1], NewRecord(key, value, now));
    var dead := WithState(slots[0], SLOT_DELETED);
    NewRecordIs(key, first, s);
    EmptyState();
    EmptyIsDead(slots[1]);
    DeadHolds(slots[1], key);
    OneTaken(slots, key);
    OnlyHolder(slots, key, 0);
    assert Sector(1, 296) == 1;
    SlotOneHalfWritten(key, value, now);
    DeadHolds(half, key);
    RetiredStateDead(slots[0]);
    DeadHolds(dead, key);
    LookupNothing([dead, half], key);
  }

  lemma OneTaken(slots: seq<Record>, key: Text)
    requires |slots| == 2 && Holds(slots[0], key) && slots[1].state == SLOT_EMPTY
    ensures FirstEmpty(slots) == 1 && LastHolder(slots, key) == 0
  {
    hide CrcGood, KeyOf;
    FirstEmptyIs(slots, 1);
    LastHolderIs(slots, key, 0);
  }
}
