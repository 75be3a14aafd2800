/** What clocks and which interruptions keep a whole run explained, and a run
    within one second that ends with a stale value. */
module RunClocks {
  import opened Options
  import opened Crc32
  import opened RecordFormat
  import opened SlotStore
  import opened SlotIo
  import opened Recovery
  import opened CrashSafety
  import opened Compaction
  import opened StoreRuns
  import opened CrashRuns
  import opened CrashFree

  // ---------------------------------------------------------------------
  // Runs event by event
  // ---------------------------------------------------------------------

  lemma {:induction false} RunAt(d: Disk, evs: seq<Event>, i: nat)
    requires Fits32(d.slots) && PossibleRun(d, evs) && i < |evs|
    ensures PossibleRun(d, evs[..i])
    ensures Possible(RunEvents(d, evs[..i]), evs[i])
    ensures RunEvents(d, evs[..i + 1]) == NextDisk(RunEvents(d, evs[..i]), evs[i])
    decreases i
  {
    hide Possible, NextDisk;
    if i == 0 {
      assert evs[..1][1..] == [];
    } else {
      var e := NextDisk(d, evs[0]);
      RunAt(e, evs[1..], i - 1);
      assert evs[..i][1..] == evs[1..][..i - 1];
      assert evs[..i + 1][1..] == evs[1..][..i];
    }
  }

  // ---------------------------------------------------------------------
  // Where a key has a single copy
  // ---------------------------------------------------------------------

  predicate Single(slots: seq<Record>, key: Text) {
    forall i, j :: 0 <= i < j < |slots| ==> !(Holds(slots[i], key) && Holds(slots[j], key))
  }

  /** Only slots that held the key before hold it now. */
  predicate NoNewPlace(slots: seq<Record>, after: seq<Record>, key: Text) {
    |after| == |slots| && forall i :: 0 <= i < |slots| && Holds(after[i], key) ==> Holds(slots[i], key)
  }

  /** The event may leave a second copy of the key. */
  predicate Copies(ev: Event, key: Text) {
    ev.Interrupted? &&
    (ev.op.Compact? || (ev.op.Write? && ev.op.key == key && GoodArgs(key, ev.op.value) && !ev.inPlace))
  }

  lemma SweptPlaces(rule: Rule, slots: seq<Record>, after: seq<Record>, key: Text)
    requires Swept(rule, slots, after)
    ensures NoNewPlace(slots, after, key)
  {
    hide Live, KeyOf, Lands, Needs, Rewritten;
    forall i | 0 <= i < |slots| && Holds(after[i], key)
      ensures Holds(slots[i], key)
    {
      if after[i] != slots[i] {
        SweptSlotDead(rule, i, slots[i], after[i]);
      }
    }
  }

  /** A write of another key, or one in place, whole or cut short. */
  lemma WritePlaces(slots: seq<Record>, op: Op, after: seq<Record>, key: Text)
    requires op.Write? && GoodArgs(op.key, op.value) && Target(slots, op.key) != -1
    requires WriteShape(slots, op.key, NewRecord(op.key, op.value, op.now), after)
    requires op.key != key || FirstEmpty(slots) == -1
    ensures NoNewPlace(slots, after, key)
  {
    hide CrcGood, KeyOf, Lands, NewRecord, WithState, FirstEmpty, LastHolder;
    var t, o, new_ := Target(slots, op.key), Retired(slots, op.key), NewRecord(op.key, op.value, op.now);
    NewRecordIs(op.key, op.value, op.now);
    if after != slots {
      if torn :| Lands(t, slots[t], new_, torn) && after == slots[t := torn] {
        if op.key != key {
          TornHolds(t, slots[t], new_, torn, key);
        }
      } else {
        var torn :| Lands(o, slots[o], WithState(slots[o], SLOT_DELETED), torn) && after == slots[t := new_][o := torn];
        RetiredIsDead(o, slots[o], torn);
      }
    }
  }

  /** A finished write of a key with a single copy leaves it a single copy. */
  lemma WrittenIsSingle(slots: seq<Record>, key: Text, value: Text, now: bv32)
    requires GoodArgs(key, value) && Target(slots, key) != -1 && Single(slots, key)
    ensures Single(Written(slots, key, value, now), key)
  {
    hide CrcGood, KeyOf, NewRecord, WithState, FirstEmpty, LastHolder;
    var t, o := Target(slots, key), LastHolder(slots, key);
    var after := Written(slots, key, value, now);
    if o != -1 {
      RetiredStateDead(slots[o]);
    }
    forall i | 0 <= i < |slots| && i != t
      ensures !Holds(after[i], key)
    {
      if Holds(slots[i], key) {
        assert i == o;
      }
    }
  }

  lemma PackedIsSingle(slots: seq<Record>, key: Text)
    requires Single(slots, key)
    ensures Single(Packed(slots), key)
  {
    hide Live, KeyOf, Sources, Packed, EmptyRecord;
    EmptyDead();
    forall i, j | 0 <= i < j < |slots|
      ensures !(Holds(Packed(slots)[i], key) && Holds(Packed(slots)[j], key))
    {
      PackedAt(slots, i);
      PackedAt(slots, j);
    }
  }

  lemma PlacesSingle(slots: seq<Record>, after: seq<Record>, key: Text)
    requires Single(slots, key) && NoNewPlace(slots, after, key)
    ensures Single(after, key)
  {
    hide Holds;
  }

  lemma ExecIsSingle(d: Disk, op: Op, key: Text)
    requires Fits32(d.slots) && Single(d.slots, key)
    ensures Single(Exec(d, op).slots, key)
  {
    hide Perform, WritePlan, DeletePlan, RepairPlan, ScanPlan, CompactPlan, Applied, Written, Packed,
      LiveCount, Swept, HolderCount, WithCount, CountAfterWrite, FirstEmpty, Single, NoNewPlace, WriteShape;
    var after := Exec(d, op).slots;
    match op
    case Write(k, v, now) =>
      if GoodArgs(k, v) {
        PerformWrite(d, k, v, now);
        if Target(d.slots, k) == -1 {
          NoTarget(d.slots, k, v, now);
        } else if k == key {
          WrittenIsSingle(d.slots, k, v, now);
        } else {
          WrittenHasShape(d.slots, k, v, now);
          WritePlaces(d.slots, op, after, key);
          PlacesSingle(d.slots, after, key);
        }
      } else {
        PerformNothing(d);
      }
    case Read(_) => PerformNothing(d);
    case Delete(k) =>
      DeletedIs(d, k);
      AppliedIsSwept(Retire(k), d.slots);
      SweptPlaces(Retire(k), d.slots, after, key);
      PlacesSingle(d.slots, after, key);
    case RepairAll =>
      RepairedIs(d);
      AppliedIsSwept(Repair, d.slots);
      SweptPlaces(Repair, d.slots, after, key);
      PlacesSingle(d.slots, after, key);
    case Compact =>
      CompactedIs(d);
      PackedIsSingle(d.slots, key);
    case Reopen => ScanIsSingle(d, key);
  }

  lemma ScanIsSingle(d: Disk, key: Text)
    requires Fits32(d.slots) && Single(d.slots, key)
    ensures Single(Scanned(d).slots, key)
  {
    hide Applied, Swept, Single, NoNewPlace, Scanned;
    ScannedIs(d);
    AppliedIsSwept(Scan, d.slots);
    SweptPlaces(Scan, d.slots, Scanned(d).slots, key);
    PlacesSingle(d.slots, Scanned(d).slots, key);
  }

  lemma InterruptedIsSingle(d: Disk, op: Op, ios: seq<Io>, key: Text)
    requires Fits32(d.slots) && Instant(d, op, ios) && Single(d.slots, key) && !op.Compact?
    requires op.Write? && op.key == key && GoodArgs(key, op.value) ==> FirstEmpty(d.slots) == -1
    ensures Single(Replay(d, ios).slots, key)
  {
    hide WriteMoment, WriteShape, ScanPlan, RepairPlan, Follows, Swept, Replay, DeleteMoment, FirstEmpty,
      Single, NoNewPlace;
    var after := Replay(d, ios).slots;
    match op
    case Write(k, v, now) =>
      if GoodArgs(k, v) && Target(d.slots, k) != -1 {
        MomentHasShape(d, k, v, now, ios);
        WritePlaces(d.slots, op, after, key);
        PlacesSingle(d.slots, after, key);
      } else {
        NothingWritten(d, op, ios);
      }
    case Read(_) => ReplayNone(Scan, d);
    case Delete(k) =>
      DeleteSwept(d, k, ios);
      SweptPlaces(Retire(k), d.slots, after, key);
      PlacesSingle(d.slots, after, key);
    case RepairAll =>
      RepairMoment(d, ios);
      SweptPlaces(Repair, d.slots, after, key);
      PlacesSingle(d.slots, after, key);
    case Reopen =>
      ScanMoment(d, ios);
      SweptPlaces(Scan, d.slots, after, key);
      PlacesSingle(d.slots, after, key);
  }

  /** Only an interrupted write or compaction can give a key a second copy. */
  lemma EventIsSingle(d: Disk, ev: Event, key: Text)
    requires Fits32(d.slots) && Possible(d, ev) && Single(d.slots, key) && !Copies(ev, key)
    ensures Single(NextDisk(d, ev).slots, key)
  {
    hide Single, Instant, Exec, Replay, Scanned, FirstEmpty;
    match ev
    case Finished(op) => ExecIsSingle(d, op, key);
    case Interrupted(op, ios, _, _) =>
      InterruptedIsSingle(d, op, ios, key);
      ScanIsSingle(Replay(d, ios), key);
  }

  lemma DeleteIsSingle(d: Disk, key: Text)
    requires Fits32(d.slots)
    ensures Single(NextDisk(d, Finished(Delete(key))).slots, key)
  {
    hide Perform, DeletePlan, Holds, Applied;
    DeletedIs(d, key);
    DeleteRemoves(d.slots, key);
  }

  // ---------------------------------------------------------------------
  // A condition on the events alone
  // ---------------------------------------------------------------------

  /** After `evs` the key may have several copies: some event may have left one,
      or they were there at the start, and no finished delete has come since. */
  predicate Suspect(slots: seq<Record>, evs: seq<Event>, key: Text)
    decreases |evs|
  {
    if |evs| == 0 then !Single(slots, key)
    else
      var last := evs[|evs| - 1];
      last != Finished(Delete(key)) && (Copies(last, key) || Suspect(slots, evs[..|evs| - 1], key))
  }

  /** `now` is later than every copy of the key at the start and every write of it
      so far. */
  predicate Latest(slots: seq<Record>, evs: seq<Event>, key: Text, now: bv32) {
    ClockAhead(slots, key, now) &&
    forall i :: 0 <= i < |evs| && evs[i].op.Write? && evs[i].op.key == key ==> (evs[i].op.now as int) < now as int
  }

  /** Nothing is asked of event `i` unless its key may have several copies. Then a
      write comes later than the ones before it, and has an EMPTY slot to go to if
      it is cut off, and a delete finishes. */
  predicate Safe(slots: seq<Record>, evs: seq<Event>, i: nat)
    requires i < |evs|
  {
    var ev := evs[i];
    (ev.op.Write? || ev.op.Delete?) && Suspect(slots, evs[..i], ev.op.key) ==>
      if ev.op.Write?
      then Latest(slots, evs[..i], ev.op.key, ev.op.now) && (ev.Interrupted? ==> !ev.inPlace)
      else ev.Finished?
  }

  predicate SafeRun(slots: seq<Record>, evs: seq<Event>) {
    forall i :: 0 <= i < |evs| ==> Safe(slots, evs, i)
  }

  lemma {:induction false} SingleAt(d: Disk, evs: seq<Event>, i: nat, key: Text)
    requires Fits32(d.slots) && PossibleRun(d, evs) && i <= |evs| && !Suspect(d.slots, evs[..i], key)
    ensures Single(RunEvents(d, evs[..i]).slots, key)
    decreases i
  {
    hide PossibleRun, RunEvents, Possible, NextDisk, Single, Copies;
    if i == 0 {
      NoEvents(d, evs[..0]);
    } else {
      RunAt(d, evs, i - 1);
      assert evs[..i][..i - 1] == evs[..i - 1];
      var e := RunEvents(d, evs[..i - 1]);
      if evs[i - 1] == Finished(Delete(key)) {
        DeleteIsSingle(e, key);
      } else {
        SingleAt(d, evs, i - 1, key);
        EventIsSingle(e, evs[i - 1], key);
      }
    }
  }

  lemma NoEvents(d: Disk, evs: seq<Event>)
    requires Fits32(d.slots) && |evs| == 0
    ensures RunEvents(d, evs) == d
  {}

  /** Every copy after `evs` was there at the start or was written by one of them. */
  lemma AheadAt(d: Disk, evs: seq<Event>, key: Text, now: bv32)
    requires Fits32(d.slots) && PossibleRun(d, evs) && Latest(d.slots, evs, key, now)
    ensures ClockAhead(RunEvents(d, evs).slots, key, now)
  {
    hide PossibleRun, RunEvents, Live, KeyOf, Time, NewRecord;
    var after := RunEvents(d, evs).slots;
    forall j | 0 <= j < |after| && Holds(after[j], key)
      ensures Time(after[j]) < now as int
    {
      RunInventsNothing(d, evs, after[j]);
      if after[j] in d.slots {
        var i :| 0 <= i < |d.slots| && d.slots[i] == after[j];
      } else {
        var i :| 0 <= i < |evs| && evs[i].op.Write? && GoodArgs(evs[i].op.key, evs[i].op.value) &&
          after[j] == NewRecord(evs[i].op.key, evs[i].op.value, evs[i].op.now);
        NewRecordIs(evs[i].op.key, evs[i].op.value, evs[i].op.now);
      }
    }
  }

  lemma SingleIsClear(d: Disk, ev: Event)
    requires ev.op.Write? || ev.op.Delete? ==> Single(d.slots, ev.op.key)
    ensures Clear(d, ev)
  {
    hide Live, KeyOf, ValueOf, Time, CannotTear, LaterCopiesAgree, InOrder, NewRecord, Target, FirstEmpty,
      LastHolder, Newest;
    if ev.op.Write? || ev.op.Delete? {
      var slots, key := d.slots, ev.op.key;
      forall j | 0 <= j < |slots| && Holds(slots[j], key)
        ensures j == LastHolder(slots, key) == Newest(slots, key)
      {
        OnlyHolder(slots, key, j);
        assert Holds(slots[LastHolder(slots, key)], key);
      }
      NoneLeft(slots, key);
    }
  }

  lemma NoneLeft(slots: seq<Record>, key: Text)
    requires Single(slots, key)
    ensures Fallback(slots, key) == None
  {
    hide Holds, Lookup, LastHolder, Survivors;
    forall j | 0 <= j < |slots|
      ensures !Holds(Survivors(slots, key)[j], key)
    {
      SurvivorsAt(slots, key, j);
      if Holds(slots[j], key) {
        assert Holds(slots[LastHolder(slots, key)], key);
      }
    }
    LookupNothing(Survivors(slots, key), key);
  }

  lemma AheadIsClear(d: Disk, ev: Event)
    requires Fits32(d.slots) && Possible(d, ev)
    requires ev.op.Write? ==> ClockAhead(d.slots, ev.op.key, ev.op.now) && (ev.Interrupted? ==> !ev.inPlace)
    requires ev.op.Delete? ==> ev.Finished?
    ensures Clear(d, ev)
  {
    hide Instant, ClockAhead, SurvivorsOlder, Fallback, Lookup, LastHolder, FirstEmpty, CannotTear, UniqueKeys;
    if ev.op.Write? {
      SurvivorsOlderWhen(d.slots, ev.op.key, ev.op.now);
    }
  }

  lemma SafeIsClear(d: Disk, evs: seq<Event>, i: nat)
    requires Fits32(d.slots) && PossibleRun(d, evs) && i < |evs| && Safe(d.slots, evs, i)
    ensures Clear(RunEvents(d, evs[..i]), evs[i])
  {
    hide PossibleRun, RunEvents, Possible, Suspect, Latest, Clear, Single, ClockAhead;
    RunAt(d, evs, i);
    var e, ev := RunEvents(d, evs[..i]), evs[i];
    if (ev.op.Write? || ev.op.Delete?) && Suspect(d.slots, evs[..i], ev.op.key) {
      if ev.op.Write? {
        AheadAt(d, evs[..i], ev.op.key, ev.op.now);
      }
      AheadIsClear(e, ev);
    } else {
      if ev.op.Write? || ev.op.Delete? {
        SingleAt(d, evs, i, ev.op.key);
      }
      SingleIsClear(e, ev);
    }
  }

  lemma {:induction false} SafeRunIsClear(d: Disk, evs: seq<Event>, i: nat)
    requires Fits32(d.slots) && PossibleRun(d, evs) && SafeRun(d.slots, evs) && i <= |evs|
    ensures ClearRun(RunEvents(d, evs[..i]), evs[i..])
    decreases |evs| - i
  {
    hide PossibleRun, RunEvents, Possible, NextDisk, Clear, Safe;
    if i < |evs| {
      RunAt(d, evs, i);
      SafeIsClear(d, evs, i);
      SafeRunIsClear(d, evs, i + 1);
      assert evs[i..][1..] == evs[i + 1..];
    }
  }

  /** So operations may fail or crash at any instant, with any clock, and the run is
      explained, as long as those that meet a key with several possible copies
      write it at a later time, to an EMPTY slot if cut off, or finish deleting it. */
  lemma SafeRunIsExplained(d: Disk, evs: seq<Event>)
    requires Fits32(d.slots) && PossibleRun(d, evs) && SafeRun(d.slots, evs)
    ensures Explains(View(d.slots), evs, Replies(d, evs), View(RunEvents(d, evs).slots))
  {
    hide PossibleRun, SafeRun, ClearRun, Explains, View, RunEvents;
    SafeRunIsClear(d, evs, 0);
    NoEvents(d, evs[..0]);
    assert evs[0..] == evs;
    RunIsExplained(d, evs);
  }

  // ---------------------------------------------------------------------
  // A stale value within one second
  // ---------------------------------------------------------------------

  predicate AllAt(evs: seq<Event>, now: bv32) {
    forall i :: 0 <= i < |evs| && evs[i].op.Write? ==> evs[i].op.now == now
  }

  lemma RunCons(d: Disk, ev: Event, rest: seq<Event>)
    requires Fits32(d.slots) && Possible(d, ev) && PossibleRun(NextDisk(d, ev), rest)
    ensures PossibleRun(d, [ev] + rest)
    ensures RunEvents(d, [ev] + rest) == RunEvents(NextDisk(d, ev), rest)
  {
    hide Possible, NextDisk;
    assert ([ev] + rest)[1..] == rest;
  }

  /** Nothing for a scan or a repair to do. */
  predicate Clean(slots: seq<Record>) {
    forall i :: 0 <= i < |slots| ==> Live(slots[i]) || slots[i].state == SLOT_EMPTY
  }

  lemma CleanNeeds(slots: seq<Record>, rule: Rule)
    requires Clean(slots) && !rule.Retire?
    ensures forall i :: 0 <= i < |slots| ==> !Needs(rule, slots[i])
  {
    hide CrcGood;
  }

  lemma NothingToScan(d: Disk)
    requires Fits32(d.slots) && Clean(d.slots)
    ensures Scanned(d).slots == d.slots
  {
    hide Needs, Scanned, Clean, Rewritten;
    CleanNeeds(d.slots, Scan);
    ScannedIs(d);
    assert Applied(Scan, d.slots) == d.slots;
  }

  /** A sweep with one slot to rewrite. */
  lemma AppliedOne(rule: Rule, before: seq<Record>, i: nat, r: Record)
    requires i < |before| && Clean(before) && !rule.Retire? && Needs(rule, r)
    ensures Applied(rule, before[i := r]) == before[i := Rewritten(rule, r)]
  {
    hide Needs, Rewritten, Clean;
    CleanNeeds(before, rule);
  }

  /** A key's first write. */
  lemma FirstCopy(d: Disk, key: Text, value: Text, now: bv32, t: nat)
    requires Fits32(d.slots) && GoodArgs(key, value)
    requires FirstEmpty(d.slots) == t && LastHolder(d.slots, key) == -1
    ensures NextDisk(d, Finished(Write(key, value, now))).slots == d.slots[t := NewRecord(key, value, now)]
  {
    hide Perform, WritePlan, NewRecord, FirstEmpty, LastHolder;
    PerformWrite(d, key, value, now);
  }

  /** A write cut off by a crash before it retires the copy it replaces. */
  lemma CutWrite(d: Disk, key: Text, value: Text, now: bv32, t: nat) returns (ev: Event)
    requires Fits32(d.slots) && GoodArgs(key, value) && FirstEmpty(d.slots) == t && Clean(d.slots)
    ensures Possible(d, ev) && ev.op == Write(key, value, now)
    ensures NextDisk(d, ev).slots == d.slots[t := NewRecord(key, value, now)]
  {
    hide CrcGood, KeyOf, NewRecord, FirstEmpty, LastHolder, WriteMoment, Scanned, Replay, Lands;
    LandsEnds(t, d.slots[t], NewRecord(key, value, now));
    var ios := FirstWrite(d, key, value, now, NewRecord(key, value, now), true);
    ev := Interrupted(Write(key, value, now), ios, true, false);
    NewRecordIs(key, value, now);
    NothingToScan(Replay(d, ios));
  }

  /** A retirement in slot 1 whose second sector does not land. */
  lemma HalfRetired(r: Record)
    requires Live(r)
    ensures var t := Torn(1, {0}, r, WithState(r, SLOT_DELETED));
      t.state == SLOT_DELETED && !CrcGood(t)
  {
    hide Body, Torn;
    var new_ := WithState(r, SLOT_DELETED);
    var t := Torn(1, {0}, r, new_);
    TornStateBody(1, {0}, r, SLOT_DELETED);
    TornCrcField(1, {0}, r, new_);
    BodyIgnoresCrc(new_, t.crc);
    BodyIgnoresCrc(r.(state := SLOT_DELETED), new_.crc);
    BodyWithState(r, SLOT_DELETED, new_.crc);
    BurstDetectedAt(Body(r), Body(new_), 0);
  }

  /** A delete of the key in slot 1, cut off there, and the scan that finds it. */
  lemma CutDelete(d: Disk, key: Text) returns (ev: Event, r: Record)
    requires Fits32(d.slots) && |d.slots| == 4 && Clean(d.slots)
    requires Holds(d.slots[1], key) && forall j :: 0 <= j < 4 && j != 1 ==> !Holds(d.slots[j], key)
    ensures Possible(d, ev) && ev.op == Delete(key)
    ensures NextDisk(d, ev).slots == d.slots[1 := r] && r.state == SLOT_CORRUPT
  {
    hide CrcGood, KeyOf, Torn, WithState, Follows, WithCount, Replay, FirstEmpty, Scanned;
    var retired := WithState(d.slots[1], SLOT_DELETED);
    var torn := Torn(1, {0}, d.slots[1], retired);
    HalfRetired(d.slots[1]);
    var after := d.slots[1 := torn];
    StateUpdateLands(1, {0}, d.slots[1], SLOT_DELETED);
    var ios := SweptIsRun(Retire(key), d, after, 4);
    var sweep, header := SweepPlan(Retire(key), d.slots, 4), [PutHeader(WithCount(d.header, 0))];
    assert (sweep + header)[..|sweep|] == sweep;
    FollowsCut(d, sweep + header, |sweep|, ios);
    ev := Interrupted(Delete(key), ios, true, FirstEmpty(d.slots) == -1);
    r := WithState(torn, SLOT_CORRUPT);
    CorruptState(torn);
    ScannedIs(Replay(d, ios));
    assert Replay(d, ios).slots == after;
    AppliedOne(Scan, d.slots, 1, torn);
  }

  lemma CorruptState(r: Record)
    ensures WithState(r, SLOT_CORRUPT).state == SLOT_CORRUPT
  {}

  lemma RepairSlotOne(d: Disk, before: seq<Record>, r: Record)
    requires Fits32(d.slots) && |before| == 4 && Clean(before)
    requires d.slots == before[1 := r] && r.state == SLOT_CORRUPT
    ensures NextDisk(d, Finished(RepairAll)).slots == before[1 := EmptyRecord()]
  {
    hide CrcGood, EmptyRecord, Perform, RepairPlan, WithCount, LiveCount, Clean, Applied;
    RepairedIs(d);
    AppliedOne(Repair, before, 1, r);
  }

  /** With four slots taken, the last two by one key: the second slot is freed by a
      delete cut off half-way and a repair, and the next write of the key in that
      second leaves its older copy to be read. */
  lemma StaleTail(d: Disk, y: Text, yv: Text, key: Text, first: Text, second: Text, third: Text, now: bv32)
    returns (evs: seq<Event>)
    requires Fits32(d.slots) && GoodArgs(y, yv)
    requires GoodArgs(key, first) && GoodArgs(key, second) && GoodArgs(key, third)
    requires |d.slots| == 4 && Live(d.slots[0]) && KeyOf(d.slots[0]) != key && KeyOf(d.slots[0]) != y && y != key
    requires d.slots[1..] == [NewRecord(y, yv, now), NewRecord(key, first, now), NewRecord(key, second, now)]
    ensures PossibleRun(d, evs) && AllAt(evs, now)
    ensures |evs| > 0 && evs[|evs| - 1] == Finished(Write(key, third, now))
    ensures Lookup(RunEvents(d, evs).slots, key) == Some(first)
  {
    hide CrcGood, KeyOf, NewRecord, EmptyRecord, Possible, NextDisk, Lookup, Written;
    NewRecordIs(y, yv, now);
    NewRecordIs(key, first, now);
    NewRecordIs(key, second, now);
    assert d.slots[1] == d.slots[1..][0] && d.slots[2] == d.slots[1..][1] && d.slots[3] == d.slots[1..][2];
    var cut, r := CutDelete(d, y);
    var e := NextDisk(d, cut);
    RepairSlotOne(e, d.slots, r);
    var f := NextDisk(e, Finished(RepairAll));
    assert f.slots == [d.slots[0], EmptyRecord(), NewRecord(key, first, now), NewRecord(key, second, now)];
    StaleInSameSecond(d.slots[0], key, first, second, third, now);
    var last := Finished(Write(key, third, now));
    FinishedRun(f, last);
    FinishedRun(e, Finished(RepairAll));
    WriteEnds(f, key, third, now);
    RunCons(e, Finished(RepairAll), [last]);
    RunCons(d, cut, [Finished(RepairAll)] + [last]);
    evs := [cut] + ([Finished(RepairAll)] + [last]);
  }

  lemma FinishedRun(d: Disk, ev: Event)
    requires Fits32(d.slots) && ev.Finished?
    ensures Possible(d, ev) && PossibleRun(d, [ev])
    ensures RunEvents(d, [ev]) == NextDisk(d, ev)
  {
    hide NextDisk;
    assert [ev][1..] == [];
  }

  lemma WriteEnds(d: Disk, key: Text, value: Text, now: bv32)
    requires Fits32(d.slots) && GoodArgs(key, value)
    ensures NextDisk(d, Finished(Write(key, value, now))).slots == Written(d.slots, key, value, now)
  {
    hide Perform, WritePlan, Written;
    PerformWrite(d, key, value, now);
  }

  /** The slots in front taken by other keys, the others EMPTY. */
  predicate FilledTo(slots: seq<Record>, n: nat, key: Text) {
    n < |slots| && (forall i :: 0 <= i < n ==> Live(slots[i]) && KeyOf(slots[i]) != key) &&
    forall i :: n <= i < |slots| ==> slots[i] == EmptyRecord()
  }

  /** The first write of a key takes the next slot. */
  lemma TakeNext(d: Disk, n: nat, key: Text, value: Text, now: bv32)
    requires Fits32(d.slots) && GoodArgs(key, value) && FilledTo(d.slots, n, key)
    ensures var after := NextDisk(d, Finished(Write(key, value, now))).slots;
      && after == d.slots[n := NewRecord(key, value, now)]
      && forall k: Text :: k != key && n + 1 < |d.slots| && FilledTo(d.slots, n, k) ==> FilledTo(after, n + 1, k)
  {
    hide CrcGood, KeyOf, EmptyRecord, NewRecord, NextDisk;
    EmptyState();
    FirstEmptyIs(d.slots, n);
    FirstCopy(d, key, value, now, n);
    NewRecordIs(key, value, now);
  }

  lemma CreatedFour()
    ensures var e := EmptyRecord(); Created(4).slots == [e, e, e, e]
  {
    hide EmptyRecord, NewHeader;
  }

  /** Three keys in the first three slots, written in the order of the slots. */
  lemma ThreeWrites(x: Text, xv: Text, y: Text, yv: Text, key: Text, value: Text, now: bv32) returns (evs: seq<Event>)
    requires GoodArgs(x, xv) && GoodArgs(y, yv) && GoodArgs(key, value) && x != key && y != key && x != y
    ensures PossibleRun(Created(4), evs) && AllAt(evs, now)
    ensures RunEvents(Created(4), evs).slots ==
      [NewRecord(x, xv, now), NewRecord(y, yv, now), NewRecord(key, value, now), EmptyRecord()]
  {
    hide NewRecord, EmptyRecord, NextDisk, Created, FilledTo, Possible, PossibleRun, RunEvents;
    CreatedFour();
    var d := Created(4);
    var ev1, ev2 := Finished(Write(x, xv, now)), Finished(Write(y, yv, now));
    var ev3 := Finished(Write(key, value, now));
    NoneFilled(d.slots, x);
    NoneFilled(d.slots, y);
    NoneFilled(d.slots, key);
    TakeNext(d, 0, x, xv, now);
    var d1 := NextDisk(d, ev1);
    TakeNext(d1, 1, y, yv, now);
    var d2 := NextDisk(d1, ev2);
    TakeNext(d2, 2, key, value, now);
    FinishedRun(d2, ev3);
    FinishedRun(d1, ev2);
    FinishedRun(d, ev1);
    RunCons(d1, ev2, [ev3]);
    RunCons(d, ev1, [ev2] + [ev3]);
    evs := [ev1] + ([ev2] + [ev3]);
  }

  lemma NoneFilled(slots: seq<Record>, key: Text)
    requires |slots| > 0 && forall i :: 0 <= i < |slots| ==> slots[i] == EmptyRecord()
    ensures FilledTo(slots, 0, key)
  {
    hide EmptyRecord;
  }

  lemma {:induction false} RunConcat(d: Disk, a: seq<Event>, b: seq<Event>)
    requires Fits32(d.slots) && PossibleRun(d, a) && PossibleRun(RunEvents(d, a), b)
    ensures PossibleRun(d, a + b)
    ensures RunEvents(d, a + b) == RunEvents(RunEvents(d, a), b)
    decreases |a|
  {
    hide Possible, NextDisk;
    if |a| == 0 {
      assert a + b == b;
    } else {
      RunConcat(NextDisk(d, a[0]), a[1..], b);
      assert (a + b)[1..] == a[1..] + b;
    }
  }

  /** From a created file, with every write in the same second: a crash leaves two
      copies of a key, a slot in front of them is freed, and the key's next write
      finishes but does not read back. */
  lemma StaleRun(x: Text, xv: Text, y: Text, yv: Text, key: Text, first: Text, second: Text, third: Text, now: bv32)
    returns (evs: seq<Event>)
    requires GoodArgs(x, xv) && GoodArgs(y, yv) && x != key && y != key && x != y
    requires GoodArgs(key, first) && GoodArgs(key, second) && GoodArgs(key, third)
    ensures PossibleRun(Created(4), evs) && AllAt(evs, now)
    ensures |evs| > 0 && evs[|evs| - 1] == Finished(Write(key, third, now))
    ensures Lookup(RunEvents(Created(4), evs).slots, key) == Some(first)
  {
    hide CrcGood, KeyOf, NewRecord, EmptyRecord, Possible, NextDisk, Lookup, Created, PossibleRun, RunEvents,
      FirstEmpty, Clean;
    NewRecordIs(x, xv, now);
    NewRecordIs(y, yv, now);
    NewRecordIs(key, first, now);
    var start := ThreeWrites(x, xv, y, yv, key, first, now);
    var d := RunEvents(Created(4), start);
    LastIsFree(d.slots);
    var cut := CutWrite(d, key, second, now, 3);
    var e := NextDisk(d, cut);
    var rest := StaleTail(e, y, yv, key, first, second, third, now);
    RunCons(d, cut, rest);
    RunConcat(Created(4), start, [cut] + rest);
    evs := start + ([cut] + rest);
  }

  lemma LastIsFree(slots: seq<Record>)
    requires |slots| == 4 && Live(slots[0]) && Live(slots[1]) && Live(slots[2]) && slots[3] == EmptyRecord()
    ensures FirstEmpty(slots) == 3 && Clean(slots)
  {
    hide CrcGood, EmptyRecord;
    EmptyState();
    FirstEmptyIs(slots, 3);
  }
}
