/** Whole runs of the store in which operations are cut off by crashes or return
    early with failed writes: what a run can never do to a key, and when every
    interrupted operation either took effect or did not. */
module CrashRuns {
  import opened Options
  import opened RecordFormat
  import opened SlotStore
  import opened SlotIo
  import opened Recovery
  import opened CrashSafety
  import opened Compaction
  import opened StoreRuns

  /** An operation whose writes all landed; or one of which only `ios` was done,
      because of a crash followed by a reopen, or because writes failed and the
      program carried on. `inPlace` marks a write that found no EMPTY slot. */
  datatype Event =
    | Finished(op: Op)
    | Interrupted(op: Op, ios: seq<Io>, reopened: bool, inPlace: bool)

  /** The writes a delete makes, up to whatever count it then stores. */
  ghost predicate DeleteMoment(d: Disk, key: Text, ios: seq<Io>) {
    exists count: Uint32 ::
      Follows(d, SweepPlan(Retire(key), d.slots, |d.slots|) + [PutHeader(WithCount(d.header, count))], ios)
  }

  /** What an interrupted `op` may have done: any run of its writes, torn or not,
      on a device that did the record write it reported. A compaction's rewrites
      land in order unless every key survives them in any order. */
  ghost predicate Instant(d: Disk, op: Op, ios: seq<Io>)
    requires Fits32(d.slots)
  {
    match op
    case Write(key, value, now) => if GoodArgs(key, value) then WriteMoment(d, key, value, now, ios) else ios == []
    case Read(_) => ios == []
    case Delete(key) => DeleteMoment(d, key, ios)
    case RepairAll => Follows(d, RepairPlan(d), ios)
    case Compact => Follows(d, CompactPlan(d), ios) && (InOrder(ios) || AllKept(d.slots))
    case Reopen => Follows(d, ScanPlan(d), ios)
  }

  ghost predicate Possible(d: Disk, ev: Event)
    requires Fits32(d.slots)
  {
    ev.Interrupted? ==> Instant(d, ev.op, ev.ios) && ev.inPlace == (FirstEmpty(d.slots) == -1)
  }

  function NextDisk(d: Disk, ev: Event): (e: Disk)
    requires Fits32(d.slots)
    ensures |e.slots| == |d.slots|
  {
    match ev
    case Finished(op) => Exec(d, op)
    case Interrupted(_, ios, reopened, _) => if reopened then Scanned(Replay(d, ios)) else Replay(d, ios)
  }

  /** Each event is possible on the disk the earlier ones left. */
  ghost predicate PossibleRun(d: Disk, evs: seq<Event>)
    requires Fits32(d.slots)
    decreases |evs|
  {
    |evs| > 0 ==> Possible(d, evs[0]) && PossibleRun(NextDisk(d, evs[0]), evs[1..])
  }

  function RunEvents(d: Disk, evs: seq<Event>): (e: Disk)
    requires Fits32(d.slots)
    ensures |e.slots| == |d.slots|
    decreases |evs|
  {
    if |evs| == 0 then d else RunEvents(NextDisk(d, evs[0]), evs[1..])
  }

  // ---------------------------------------------------------------------
  // What interrupted sweeps leave
  // ---------------------------------------------------------------------

  lemma SweepThenHeader(rule: Rule, d: Disk, view: seq<Record>, h: Header, ios: seq<Io>)
    requires |view| == |d.slots|
    requires forall j :: 0 <= j < |view| ==> view[j] == d.slots[j] || !Needs(rule, view[j])
    requires Follows(d, SweepPlan(rule, view, |view|) + [PutHeader(h)], ios)
    ensures Swept(rule, d.slots, Replay(d, ios).slots)
  {
    hide Swept, SweepPlan, Replay, Matches, Needs, Follows;
    var n := |d.slots|;
    var sweep := SweepPlan(rule, view, n);
    var plan, m := sweep + [PutHeader(h)], |sweep|;
    assert plan[..m] == sweep && plan[m] == PutHeader(h);
    FollowsAt(d, plan, ios);
    if |ios| <= m {
      FollowsPrefix(d, plan, ios, m, |ios|);
      assert ios[..|ios|] == ios;
      SweepRun(rule, d, view, n, ios);
    } else {
      FollowsPrefix(d, plan, ios, m, m);
      SweepRun(rule, d, view, n, ios[..m]);
      HeaderLast(d, ios, h);
    }
  }

  lemma FollowsAt(d: Disk, plan: seq<Step>, ios: seq<Io>)
    requires Follows(d, plan, ios)
    ensures |ios| <= |plan|
    ensures |ios| > 0 ==> Matches(Replay(d, ios[..|ios| - 1]), plan[|ios| - 1], ios[|ios| - 1])
  {
    hide Matches, Replay;
  }

  lemma ScanMoment(d: Disk, ios: seq<Io>)
    requires Fits32(d.slots) && Follows(d, ScanPlan(d), ios)
    ensures Swept(Scan, d.slots, Replay(d, ios).slots)
  {
    hide Swept, Follows, WithCount, LiveCount;
    var sweep := SweepPlan(Scan, d.slots, |d.slots|);
    if LiveCount(d.slots) != d.header.recordCount {
      SweepThenHeader(Scan, d, d.slots, WithCount(d.header, LiveCount(d.slots)), ios);
    } else {
      assert ScanPlan(d) == sweep;
      SweepRun(Scan, d, d.slots, |d.slots|, ios);
    }
  }

  lemma RepairMoment(d: Disk, ios: seq<Io>)
    requires Fits32(d.slots) && Follows(d, RepairPlan(d), ios)
    ensures Swept(Repair, d.slots, Replay(d, ios).slots)
  {
    hide Swept, Follows, WithCount, LiveCount;
    SweepThenHeader(Repair, d, d.slots, WithCount(d.header, LiveCount(d.slots)), ios);
  }

  lemma DeleteSwept(d: Disk, key: Text, ios: seq<Io>)
    requires DeleteMoment(d, key, ios)
    ensures Swept(Retire(key), d.slots, Replay(d, ios).slots)
  {
    hide Swept, Follows, WithCount;
    var count: Uint32 :|
      Follows(d, SweepPlan(Retire(key), d.slots, |d.slots|) + [PutHeader(WithCount(d.header, count))], ios);
    SweepThenHeader(Retire(key), d, d.slots, WithCount(d.header, count), ios);
  }

  // ---------------------------------------------------------------------
  // A delete cut off in order
  // ---------------------------------------------------------------------

  predicate AllLanded(ios: seq<Io>) {
    forall j :: 0 <= j < |ios| && ios[j].SlotIo? ==> ios[j].landed == ios[j].intended
  }

  lemma {:induction false} LandedSweep(rule: Rule, d: Disk, n: nat, ios: seq<Io>)
    requires n <= |d.slots|
    requires Follows(d, SweepPlan(rule, d.slots, n), ios) && |ios| == |SweepPlan(rule, d.slots, n)| && AllLanded(ios)
    ensures Replay(d, ios).slots == AppliedUpTo(rule, d.slots, n)
    decreases n
  {
    hide Lands, Needs, Rewritten, Replay, Matches, After, AppliedUpTo;
    if n == 0 {
      assert ios == [];
      ReplayNone(rule, d);
      PerformNone(rule, d);
    } else {
      var plan, front := SweepPlan(rule, d.slots, n), SweepPlan(rule, d.slots, n - 1);
      AppliedNext(rule, d.slots, n - 1);
      if Needs(rule, d.slots[n - 1]) {
        var m := |front|;
        FollowsPrefix(d, plan, ios, m, m);
        assert plan[..m] == front;
        LandedSweep(rule, d, n - 1, ios[..m]);
        ReplayLast(d, ios, plan[m]);
        PutIntended(Replay(d, ios[..m]), plan[m], ios[m]);
      } else {
        assert plan == front;
        LandedSweep(rule, d, n - 1, ios);
      }
    }
  }

  lemma PutIntended(d: Disk, step: Step, io: Io)
    requires step.PutSlot? && Matches(d, step, io)
    ensures io.SlotIo? && io.intended == step.rec
  {
    hide Lands;
  }

  /** Slots of a sweep cut off at slot `k`, whose own rewrite may have torn. */
  ghost predicate CutAt(rule: Rule, slots: seq<Record>, k: nat, after: seq<Record>) {
    k <= |slots| &&
    (|| after == AppliedUpTo(rule, slots, k)
     || (k < |slots| && Needs(rule, slots[k]) &&
         exists t :: Lands(k, slots[k], Rewritten(rule, slots[k]), t) && after == AppliedUpTo(rule, slots, k)[k := t]))
  }

  lemma {:induction false} SweepCut(rule: Rule, d: Disk, n: nat, ios: seq<Io>) returns (k: nat)
    requires n <= |d.slots|
    requires Follows(d, SweepPlan(rule, d.slots, n), ios) && InOrder(ios)
    ensures CutAt(rule, d.slots, k, Replay(d, ios).slots)
    decreases n
  {
    hide Lands, Needs, Rewritten, Replay, Matches, After, AppliedUpTo;
    if n == 0 {
      assert ios == [];
      ReplayNone(rule, d);
      PerformNone(rule, d);
      k := 0;
    } else {
      var plan, front := SweepPlan(rule, d.slots, n), SweepPlan(rule, d.slots, n - 1);
      var m := |front|;
      if |ios| <= m {
        FollowsPrefix(d, plan, ios, m, |ios|);
        assert plan[..m] == front && ios[..|ios|] == ios;
        k := SweepCut(rule, d, n - 1, ios);
      } else {
        FollowsPrefix(d, plan, ios, m, m);
        assert plan[..m] == front && |ios| == m + 1;
        LandedSweep(rule, d, n - 1, ios[..m]);
        ReplayLast(d, ios, plan[m]);
        AppliedUpToAt(rule, d.slots, n - 1, n - 1);
        k := n - 1;
      }
    }
  }

  /** A delete cut off in order reads like a clean cut between two slots. */
  lemma DeleteInOrder(d: Disk, key: Text, ios: seq<Io>) returns (n: nat)
    requires DeleteMoment(d, key, ios) && InOrder(ios)
    ensures n <= |d.slots|
    ensures Lookup(Replay(d, ios).slots, key) == Lookup(DeletedUpTo(d.slots, key, n), key)
  {
    hide Lookup, Replay, Matches, AppliedUpTo, WithCount, CutAt;
    var size := |d.slots|;
    var sweep := SweepPlan(Retire(key), d.slots, size);
    var count: Uint32 :| Follows(d, sweep + [PutHeader(WithCount(d.header, count))], ios);
    var plan := sweep + [PutHeader(WithCount(d.header, count))];
    assert plan[..|sweep|] == sweep;
    if |ios| <= |sweep| {
      FollowsPrefix(d, plan, ios, |sweep|, |ios|);
      assert ios[..|ios|] == ios;
      var k := SweepCut(Retire(key), d, size, ios);
      n := ReadCut(d.slots, key, k, Replay(d, ios).slots);
    } else {
      var m := |sweep|;
      FollowsPrefix(d, plan, ios, m, m);
      assert Matches(Replay(d, ios[..m]), plan[m], ios[m]);
      HeaderLast(d, ios, WithCount(d.header, count));
      LandedSweep(Retire(key), d, size, ios[..m]);
      n := size;
    }
  }

  lemma ReadCut(slots: seq<Record>, key: Text, k: nat, after: seq<Record>) returns (n: nat)
    requires CutAt(Retire(key), slots, k, after)
    ensures n <= |slots| && Lookup(after, key) == Lookup(DeletedUpTo(slots, key, n), key)
  {
    hide Lookup, Lands, AppliedUpTo, Live, KeyOf, WithState;
    var base := AppliedUpTo(Retire(key), slots, k);
    n := k;
    if after != base {
      var t :| Lands(k, slots[k], WithState(slots[k], SLOT_DELETED), t) && after == base[k := t];
      AppliedUpToAt(Retire(key), slots, k, k);
      RetiredIsDead(k, slots[k], t);
      DeadHolds(t, key);
      n := k + 1;
      var b := DeletedUpTo(slots, key, n);
      forall j | 0 <= j < |slots| && (Holds(after[j], key) || Holds(b[j], key))
        ensures after[j] == b[j]
      {
        HoldersFrom(slots, key, k, j);
        HoldersFrom(slots, key, n, j);
      }
      SameHolders(after, b, key);
    }
  }

  // ---------------------------------------------------------------------
  // No run touches another key
  // ---------------------------------------------------------------------

  /** `op` writes or deletes `key`. */
  predicate Owns(op: Op, key: Text) {
    (op.Write? || op.Delete?) && op.key == key
  }

  lemma ExecKeepsOthers(d: Disk, op: Op, key: Text)
    requires Fits32(d.slots) && !Owns(op, key)
    ensures Lookup(Exec(d, op).slots, key) == Lookup(d.slots, key)
  {
    hide Lookup, Perform, WritePlan, DeletePlan, RepairPlan, ScanPlan, CompactPlan, Applied, Written, Packed,
      LiveCount, HolderCount, WithCount, CountAfterWrite;
    match op
    case Write(k, v, now) =>
      if GoodArgs(k, v) {
        PerformWrite(d, k, v, now);
        if Target(d.slots, k) == -1 {
          NoTarget(d.slots, k, v, now);
        } else {
          WriteKeepsOthers(d.slots, k, v, now, key);
        }
      } else {
        PerformNothing(d);
      }
    case Read(_) => PerformNothing(d);
    case Delete(k) =>
      DeletedIs(d, k);
      AppliedIsSwept(Retire(k), d.slots);
      DeleteKeepsOthers(d.slots, Applied(Retire(k), d.slots), k, key);
    case RepairAll => RepairRecovers(d, key);
    case Compact =>
      CompactedIs(d);
      PackedKeepsLookup(d.slots, key);
    case Reopen => OpenRecovers(d, key);
  }

  lemma InterruptedKeepsOthers(d: Disk, op: Op, ios: seq<Io>, key: Text)
    requires Fits32(d.slots) && Instant(d, op, ios) && !Owns(op, key)
    ensures Lookup(Replay(d, ios).slots, key) == Lookup(d.slots, key)
  {
    hide Lookup, WriteMoment, WriteShape, ScanPlan, RepairPlan, CompactPlan, Follows, Swept, Replay, InOrder,
      KeptAnyhow, DeleteMoment, Scattered, CutShort, FirstEmpty;
    match op
    case Write(k, v, now) =>
      if GoodArgs(k, v) && Target(d.slots, k) != -1 {
        MomentHasShape(d, k, v, now, ios);
        ShapeKeepsOthers(d.slots, k, v, now, Replay(d, ios).slots, key);
      } else {
        NothingWritten(d, op, ios);
      }
    case Read(_) => ReplayNone(Scan, d);
    case Delete(k) =>
      DeleteSwept(d, k, ios);
      DeleteKeepsOthers(d.slots, Replay(d, ios).slots, k, key);
    case RepairAll =>
      RepairMoment(d, ios);
      SweepKeepsLookups(Repair, d.slots, Replay(d, ios).slots, key);
    case Compact =>
      if AllKept(d.slots) {
        ScatteredRun(d, ios);
        KeptSurvives(d.slots, Replay(d, ios).slots, key);
      } else {
        CompactionIsCrashSafe(d, ios, key);
        OpenRecovers(Replay(d, ios), key);
      }
    case Reopen =>
      ScanMoment(d, ios);
      SweepKeepsLookups(Scan, d.slots, Replay(d, ios).slots, key);
  }

  lemma NothingWritten(d: Disk, op: Op, ios: seq<Io>)
    requires Fits32(d.slots) && op.Write? && Instant(d, op, ios)
    requires !GoodArgs(op.key, op.value) || Target(d.slots, op.key) == -1
    ensures Replay(d, ios) == d
  {
    hide Target;
    assert ios == [];
  }

  lemma EventKeepsOthers(d: Disk, ev: Event, key: Text)
    requires Fits32(d.slots) && Possible(d, ev) && !Owns(ev.op, key)
    ensures Lookup(NextDisk(d, ev).slots, key) == Lookup(d.slots, key)
  {
    hide Lookup, Exec, Instant, Owns, Scanned, Replay;
    match ev
    case Finished(op) => ExecKeepsOthers(d, op, key);
    case Interrupted(op, ios, _, _) =>
      InterruptedKeepsOthers(d, op, ios, key);
      OpenRecovers(Replay(d, ios), key);
  }

  /** However operations finish, fail, tear or crash, and whatever the clock does, a
      key that none of them writes or deletes keeps its value. */
  lemma {:induction false} RunKeepsOthers(d: Disk, evs: seq<Event>, key: Text)
    requires Fits32(d.slots) && PossibleRun(d, evs)
    requires forall i :: 0 <= i < |evs| ==> !Owns(evs[i].op, key)
    ensures Lookup(RunEvents(d, evs).slots, key) == Lookup(d.slots, key)
    decreases |evs|
  {
    hide Lookup, Possible, NextDisk, Owns;
    if |evs| > 0 {
      EventKeepsOthers(d, evs[0], key);
      RunKeepsOthers(NextDisk(d, evs[0]), evs[1..], key);
    }
  }

  // ---------------------------------------------------------------------
  // No run invents a record
  // ---------------------------------------------------------------------

  /** Every live record of `after` was there before, or is the one `op` writes. */
  ghost predicate NothingInvented(slots: seq<Record>, op: Op, after: seq<Record>) {
    forall i :: 0 <= i < |after| && Live(after[i]) ==>
      after[i] in slots || (op.Write? && GoodArgs(op.key, op.value) && after[i] == NewRecord(op.key, op.value, op.now))
  }

  lemma InSlots(slots: seq<Record>, i: nat)
    requires i < |slots|
    ensures slots[i] in slots
  {}

  lemma SweptInvents(rule: Rule, slots: seq<Record>, op: Op, after: seq<Record>)
    requires Swept(rule, slots, after)
    ensures NothingInvented(slots, op, after)
  {
    hide Live, Lands, Needs, Rewritten, NewRecord;
    forall i | 0 <= i < |after| && Live(after[i])
      ensures after[i] in slots
    {
      if after[i] != slots[i] {
        SweptSlotDead(rule, i, slots[i], after[i]);
      }
    }
  }

  lemma SweptSlotDead(rule: Rule, i: nat, r: Record, t: Record)
    requires Needs(rule, r) && Lands(i, r, Rewritten(rule, r), t)
    ensures t == r || !Live(t)
  {
    hide Torn;
  }

  lemma ScatteredInvents(slots: seq<Record>, op: Op, after: seq<Record>)
    requires Scattered(slots, after)
    ensures NothingInvented(slots, op, after)
  {
    hide Live, Lands, Sources, EmptyRecord, NewRecord;
    EmptyDead();
    forall i | 0 <= i < |after| && Live(after[i])
      ensures after[i] in slots
    {
      LandsCases(i, slots[i], PackedSlot(slots, i), after[i]);
      InSlots(slots, i);
    }
  }

  lemma WriteInvents(slots: seq<Record>, op: Op, after: seq<Record>)
    requires op.Write? && GoodArgs(op.key, op.value) && Target(slots, op.key) != -1
    requires WriteShape(slots, op.key, NewRecord(op.key, op.value, op.now), after)
    ensures NothingInvented(slots, op, after)
  {
    hide Live, Lands, NewRecord, WithState, FirstEmpty, LastHolder;
    var t, o, new_ := Target(slots, op.key), Retired(slots, op.key), NewRecord(op.key, op.value, op.now);
    if after != slots {
      if torn :| Lands(t, slots[t], new_, torn) && after == slots[t := torn] {
        LandsCases(t, slots[t], new_, torn);
      } else {
        var torn :| Lands(o, slots[o], WithState(slots[o], SLOT_DELETED), torn) && after == slots[t := new_][o := torn];
        RetiredIsDead(o, slots[o], torn);
      }
    }
  }

  lemma ReopenInvents(d: Disk, op: Op, slots: seq<Record>)
    requires Fits32(d.slots) && NothingInvented(slots, op, d.slots)
    ensures NothingInvented(slots, op, Scanned(d).slots)
  {
    hide Live, Swept, NewRecord, Scanned;
    ScannedIs(d);
    AppliedIsSwept(Scan, d.slots);
    SweptInvents(Scan, d.slots, RepairAll, Scanned(d).slots);
    forall i | 0 <= i < |d.slots| && Live(Scanned(d).slots[i])
      ensures exists j :: 0 <= j < |d.slots| && d.slots[j] == Scanned(d).slots[i]
    {
      assert Scanned(d).slots[i] in d.slots;
    }
  }

  lemma InterruptedInvents(d: Disk, op: Op, ios: seq<Io>)
    requires Fits32(d.slots) && Instant(d, op, ios)
    ensures NothingInvented(d.slots, op, Replay(d, ios).slots)
  {
    hide WriteMoment, WriteShape, ScanPlan, RepairPlan, CompactPlan, Follows, Swept, Replay, InOrder,
      AllKept, DeleteMoment, Scattered, NothingInvented, FirstEmpty;
    match op
    case Write(k, v, now) =>
      if GoodArgs(k, v) && Target(d.slots, k) != -1 {
        MomentHasShape(d, k, v, now, ios);
        WriteInvents(d.slots, op, Replay(d, ios).slots);
      } else {
        NothingWritten(d, op, ios);
        ReplayNone(Scan, d);
        SweptInvents(Scan, d.slots, op, d.slots);
      }
    case Read(_) =>
      ReplayNone(Scan, d);
      SweptInvents(Scan, d.slots, op, d.slots);
    case Delete(k) =>
      DeleteSwept(d, k, ios);
      SweptInvents(Retire(k), d.slots, op, Replay(d, ios).slots);
    case RepairAll =>
      RepairMoment(d, ios);
      SweptInvents(Repair, d.slots, op, Replay(d, ios).slots);
    case Compact =>
      ScatteredRun(d, ios);
      ScatteredInvents(d.slots, op, Replay(d, ios).slots);
    case Reopen =>
      ScanMoment(d, ios);
      SweptInvents(Scan, d.slots, op, Replay(d, ios).slots);
  }

  lemma ExecInvents(d: Disk, op: Op)
    requires Fits32(d.slots)
    ensures NothingInvented(d.slots, op, Exec(d, op).slots)
  {
    hide Perform, WritePlan, DeletePlan, RepairPlan, ScanPlan, CompactPlan, Applied, Written, Packed,
      LiveCount, Swept, HolderCount, WithCount, CountAfterWrite, NothingInvented, FirstEmpty, Scattered;
    match op
    case Write(k, v, now) =>
      if GoodArgs(k, v) {
        PerformWrite(d, k, v, now);
        if Target(d.slots, k) == -1 {
          NoTarget(d.slots, k, v, now);
          ReplayNone(Scan, d);
          SweptInvents(Scan, d.slots, op, d.slots);
        } else {
          WrittenHasShape(d.slots, k, v, now);
          WriteInvents(d.slots, op, Written(d.slots, k, v, now));
        }
      } else {
        PerformNothing(d);
        ReplayNone(Scan, d);
        SweptInvents(Scan, d.slots, op, d.slots);
      }
    case Read(_) =>
      PerformNothing(d);
      ReplayNone(Scan, d);
      SweptInvents(Scan, d.slots, op, d.slots);
    case Delete(k) =>
      DeletedIs(d, k);
      AppliedIsSwept(Retire(k), d.slots);
      SweptInvents(Retire(k), d.slots, op, Applied(Retire(k), d.slots));
    case RepairAll =>
      RepairedIs(d);
      AppliedIsSwept(Repair, d.slots);
      SweptInvents(Repair, d.slots, op, Applied(Repair, d.slots));
    case Compact =>
      CompactedIs(d);
      PackedIsScattered(d.slots);
      ScatteredInvents(d.slots, op, Packed(d.slots));
    case Reopen =>
      ScannedIs(d);
      AppliedIsSwept(Scan, d.slots);
      SweptInvents(Scan, d.slots, op, Applied(Scan, d.slots));
  }

  lemma WrittenHasShape(slots: seq<Record>, key: Text, value: Text, now: bv32)
    requires GoodArgs(key, value) && Target(slots, key) != -1
    ensures WriteShape(slots, key, NewRecord(key, value, now), Written(slots, key, value, now))
  {
    hide Lands, NewRecord, WithState, FirstEmpty, LastHolder;
    var t, o := Target(slots, key), Retired(slots, key);
    LandsEnds(t, slots[t], NewRecord(key, value, now));
    if o != -1 {
      LandsEnds(o, slots[o], WithState(slots[o], SLOT_DELETED));
    }
  }

  lemma PackedIsScattered(slots: seq<Record>)
    ensures Scattered(slots, Packed(slots))
  {
    hide Lands, PackedSlot, Packed;
    forall i | 0 <= i < |slots|
      ensures Lands(i, slots[i], PackedSlot(slots, i), Packed(slots)[i])
    {
      PackedAt(slots, i);
      LandsEnds(i, slots[i], PackedSlot(slots, i));
    }
  }

  lemma EventInvents(d: Disk, ev: Event)
    requires Fits32(d.slots) && Possible(d, ev)
    ensures NothingInvented(d.slots, ev.op, NextDisk(d, ev).slots)
  {
    hide NothingInvented, Exec, Instant, Scanned, Replay;
    match ev
    case Finished(op) => ExecInvents(d, op);
    case Interrupted(op, ios, _, _) =>
      InterruptedInvents(d, op, ios);
      ReopenInvents(Replay(d, ios), op, d.slots);
  }

  /** Some write of the run made exactly this record. */
  ghost predicate WrittenInRun(evs: seq<Event>, r: Record) {
    exists i :: 0 <= i < |evs| && evs[i].op.Write? && GoodArgs(evs[i].op.key, evs[i].op.value) &&
      r == NewRecord(evs[i].op.key, evs[i].op.value, evs[i].op.now)
  }

  lemma WrittenLater(evs: seq<Event>, r: Record)
    requires |evs| > 0
    ensures WrittenInRun(evs[1..], r) ==> WrittenInRun(evs, r)
  {
    hide NewRecord;
    if WrittenInRun(evs[1..], r) {
      var i :| 0 <= i < |evs[1..]| && evs[1..][i].op.Write? && GoodArgs(evs[1..][i].op.key, evs[1..][i].op.value) &&
        r == NewRecord(evs[1..][i].op.key, evs[1..][i].op.value, evs[1..][i].op.now);
      assert evs[i + 1] == evs[1..][i];
    }
  }

  lemma WrittenFirst(evs: seq<Event>, slots: seq<Record>, after: seq<Record>, r: Record)
    requires |evs| > 0 && NothingInvented(slots, evs[0].op, after) && Live(r) && r in after
    ensures r in slots || WrittenInRun(evs, r)
  {
    hide NewRecord, Live;
    var i :| 0 <= i < |after| && after[i] == r;
  }

  /** Every live record a run ends with was there at the start, or is exactly what
      some write of the run passed in: no crash, tear or retry makes one up. */
  lemma {:induction false} RunInventsNothing(d: Disk, evs: seq<Event>, r: Record)
    requires Fits32(d.slots) && PossibleRun(d, evs)
    requires Live(r) && r in RunEvents(d, evs).slots
    ensures r in d.slots || WrittenInRun(evs, r)
    decreases |evs|
  {
    hide NothingInvented, Possible, NextDisk, Live, WrittenInRun;
    if |evs| > 0 {
      var e := NextDisk(d, evs[0]);
      RunInventsNothing(e, evs[1..], r);
      WrittenLater(evs, r);
      EventInvents(d, evs[0]);
      if r in e.slots {
        WrittenFirst(evs, d.slots, e.slots, r);
      }
    }
  }

  /** So a read after any run returns a value its key had at the start in some
      slot, or one that a write of that key in the run passed in. */
  lemma ReadsWereWritten(d: Disk, evs: seq<Event>, key: Text)
    requires Fits32(d.slots) && PossibleRun(d, evs)
    requires Lookup(RunEvents(d, evs).slots, key).Some?
    ensures var v := Lookup(RunEvents(d, evs).slots, key).value;
      || (exists i :: 0 <= i < |d.slots| && Holds(d.slots[i], key) && ValueOf(d.slots[i]) == v)
      || (exists i :: 0 <= i < |evs| && evs[i].op.Write? && evs[i].op.key == key && evs[i].op.value == v)
  {
    hide Live, KeyOf, ValueOf, Newest, NewRecord, PossibleRun, RunEvents;
    var after := RunEvents(d, evs).slots;
    var r := after[Newest(after, key)];
    RunInventsNothing(d, evs, r);
    if r in d.slots {
      var i :| 0 <= i < |d.slots| && d.slots[i] == r;
    } else {
      var i :| 0 <= i < |evs| && evs[i].op.Write? && GoodArgs(evs[i].op.key, evs[i].op.value) &&
        r == NewRecord(evs[i].op.key, evs[i].op.value, evs[i].op.now);
      NewRecordIs(evs[i].op.key, evs[i].op.value, evs[i].op.now);
    }
  }

  // ---------------------------------------------------------------------
  // When an interrupted operation is all or nothing
  // ---------------------------------------------------------------------

  /** Every live copy of the key carries the value a read returns. */
  predicate CopiesAgree(slots: seq<Record>, key: Text) {
    forall j :: 0 <= j < |slots| && Holds(slots[j], key) ==> Some(ValueOf(slots[j])) == Lookup(slots, key)
  }

  /** The interrupted operation's key cannot read as anything but before, after,
      or, for an update in place, missing. */
  ghost predicate Decided(d: Disk, op: Op, ios: seq<Io>) {
    match op
    case Write(key, value, now) =>
      GoodArgs(key, value) && Target(d.slots, key) != -1 ==>
        || StaysOldOrNew(d.slots, key, value, now)
        || (FirstEmpty(d.slots) == -1 && Fallback(d.slots, key) == None)
    case Delete(key) => CopiesAgree(d.slots, key) || (InOrder(ios) && LaterCopiesAgree(d.slots, key))
    case _ => true
  }

  ghost predicate Clear(d: Disk, ev: Event) {
    match ev
    case Finished(op) => Timely(d, op)
    case Interrupted(op, ios, _, _) => Decided(d, op, ios)
  }

  ghost predicate ClearRun(d: Disk, evs: seq<Event>)
    requires Fits32(d.slots)
    decreases |evs|
  {
    |evs| > 0 ==> Clear(d, evs[0]) && ClearRun(NextDisk(d, evs[0]), evs[1..])
  }

  lemma SweptAgrees(a: seq<Record>, b: seq<Record>, key: Text)
    requires Swept(Retire(key), a, b) && CopiesAgree(a, key)
    ensures Lookup(b, key) == Lookup(a, key) || Lookup(b, key) == None
  {
    hide Live, KeyOf, ValueOf, Newest, Lands, WithState;
    var m := Newest(b, key);
    if m != -1 {
      if b[m] != a[m] {
        RetiredIsDead(m, a[m], b[m]);
      }
      assert Holds(a[m], key);
    }
  }

  /** Any such slots are what some run of the sweep leaves. */
  lemma {:induction false} SweptIsRun(rule: Rule, d: Disk, after: seq<Record>, n: nat) returns (ios: seq<Io>)
    requires Swept(rule, d.slots, after) && n <= |d.slots|
    ensures Follows(d, SweepPlan(rule, d.slots, n), ios) && |ios| == |SweepPlan(rule, d.slots, n)|
    ensures Replay(d, ios).slots == after[..n] + d.slots[n..]
    decreases n
  {
    hide Lands, Needs, Rewritten, Replay, Follows;
    if n == 0 {
      ios := [];
      NoRun(d, SweepPlan(rule, d.slots, 0));
    } else {
      var front := SweptIsRun(rule, d, after, n - 1);
      var plan, r := SweepPlan(rule, d.slots, n - 1), Rewritten(rule, d.slots[n - 1]);
      if Needs(rule, d.slots[n - 1]) {
        if after[n - 1] == d.slots[n - 1] {
          LandsEnds(n - 1, d.slots[n - 1], r);
        }
        ios := SlotSnoc(d, plan, front, PutSlot(n - 1, r), after[n - 1]);
      } else {
        assert SweepPlan(rule, d.slots, n) == plan;
        ios := front;
      }
      assert after[..n] + d.slots[n..] == (after[..n - 1] + d.slots[n - 1..])[n - 1 := after[n - 1]];
    }
  }

  /** One more slot write that the program takes for failed. */
  lemma SlotSnoc(d: Disk, plan: seq<Step>, ios: seq<Io>, step: Step, landed: Record) returns (longer: seq<Io>)
    requires Follows(d, plan, ios) && |ios| == |plan|
    requires step.PutSlot? && step.i < |d.slots| && Lands(step.i, Replay(d, ios).slots[step.i], step.rec, landed)
    ensures Follows(d, plan + [step], longer) && |longer| == |ios| + 1
    ensures Replay(d, longer).slots == Replay(d, ios).slots[step.i := landed]
  {
    hide Lands, Replay, Follows;
    var io := SlotIo(step.i, step.rec, landed, false);
    FollowsSnoc(d, plan, ios, step, io);
    longer := ios + [io];
  }

  lemma NoRun(d: Disk, plan: seq<Step>)
    ensures Follows(d, plan, []) && Replay(d, []) == d
  {}

  /** The delete that retires every copy but the one in slot `j`. */
  lemma LeaveOnly(d: Disk, key: Text, j: nat) returns (ios: seq<Io>)
    requires j < |d.slots| && Holds(d.slots[j], key)
    ensures DeleteMoment(d, key, ios)
    ensures Lookup(Replay(d, ios).slots, key) == Some(ValueOf(d.slots[j]))
  {
    hide Live, KeyOf, ValueOf, Lookup, Lands, WithState, Follows, WithCount;
    var after := Applied(Retire(key), d.slots)[j := d.slots[j]];
    AppliedIsSwept(Retire(key), d.slots);
    forall k | 0 <= k < |after| && k != j
      ensures !Holds(after[k], key)
    {
      RetiredStateDead(d.slots[k]);
    }
    var n := |d.slots|;
    ios := SweptIsRun(Retire(key), d, after, n);
    assert after[..n] + d.slots[n..] == after;
    OnlyHolder(after, key, j);
    var sweep, header := SweepPlan(Retire(key), d.slots, n), [PutHeader(WithCount(d.header, 0))];
    assert (sweep + header)[..|sweep|] == sweep;
    FollowsCut(d, sweep + header, |sweep|, ios);
  }

  /** A delete goes on past state writes that fail. Whatever lands of it, its key
      reads as before or is gone, exactly when its copies agree. */
  lemma DeletePastFailuresIff(d: Disk, key: Text)
    ensures (forall ios :: DeleteMoment(d, key, ios) ==>
        Lookup(Replay(d, ios).slots, key) == Lookup(d.slots, key) || Lookup(Replay(d, ios).slots, key) == None)
      <==> CopiesAgree(d.slots, key)
  {
    hide DeleteMoment, Replay, Lookup, Swept, Holds, ValueOf;
    if CopiesAgree(d.slots, key) {
      forall ios | DeleteMoment(d, key, ios)
        ensures Lookup(Replay(d, ios).slots, key) == Lookup(d.slots, key) || Lookup(Replay(d, ios).slots, key) == None
      {
        DeleteSwept(d, key, ios);
        SweptAgrees(d.slots, Replay(d, ios).slots, key);
      }
    } else {
      var j :| 0 <= j < |d.slots| && Holds(d.slots[j], key) && Some(ValueOf(d.slots[j])) != Lookup(d.slots, key);
      var ios := LeaveOnly(d, key, j);
    }
  }

  /** What the key of an interrupted, decided operation reads as. */
  lemma DecidedKey(d: Disk, op: Op, ios: seq<Io>)
    requires Fits32(d.slots) && Instant(d, op, ios) && Decided(d, op, ios) && (op.Write? || op.Delete?)
    ensures var before, after := Lookup(d.slots, op.key), Lookup(Replay(d, ios).slots, op.key);
      if op.Write?
      then
        || after == before
        || (GoodArgs(op.key, op.value) && (after == Some(op.value) || (FirstEmpty(d.slots) == -1 && after == None)))
      else after == before || after == None
  {
    hide Lookup, WriteMoment, WriteShape, Follows, Swept, Replay, InOrder, StaysOldOrNew, DeleteMoment,
      FirstEmpty, LaterCopiesAgree, CopiesAgree, Fallback, LastHolder, DeletedUpTo;
    match op
    case Write(k, v, now) =>
      if GoodArgs(k, v) && Target(d.slots, k) != -1 {
        MomentHasShape(d, k, v, now, ios);
        ShapeReading(d.slots, k, v, now, Replay(d, ios).slots);
      } else {
        NothingWritten(d, op, ios);
      }
    case Delete(k) =>
      if CopiesAgree(d.slots, k) {
        DeleteSwept(d, k, ios);
        SweptAgrees(d.slots, Replay(d, ios).slots, k);
      } else {
        var n := DeleteInOrder(d, k, ios);
        DeleteIsAtomicIff(d.slots, k);
      }
  }

  /** The reply a finished operation gives of the map `m`. Only whether a new key
      still finds room is not in the map. */
  predicate Tells(m: map<Text, Text>, op: Op, reply: Reply) {
    match op
    case Write(key, value, _) =>
      if GoodArgs(key, value) then reply == Ok || (reply == Full && key !in m) else reply == BadArg
    case Read(key) => reply == if key in m then Found(m[key]) else NotFound
    case Delete(key) => reply == if key in m then Ok else NotFound
    case _ => reply == Ok
  }

  /** A finished operation takes effect and tells of the map it met. An interrupted
      one takes effect or does not; an interrupted update in place may also lose
      its key, and a write refused for its arguments does nothing. */
  predicate MapStep(m: map<Text, Text>, ev: Event, reply: Reply, n: map<Text, Text>) {
    match ev
    case Finished(op) => Tells(m, op, reply) && n == MapAfter(m, op, reply)
    case Interrupted(op, _, _, inPlace) =>
      || n == m
      || ((op.Write? ==> GoodArgs(op.key, op.value)) &&
          (n == MapAfter(m, op, Ok) || (op.Write? && inPlace && n == m - {op.key})))
  }

  lemma ReplyTells(d: Disk, op: Op)
    ensures Tells(View(d.slots), op, ReplyTo(d, op))
  {
    hide Lookup, View, GoodArgs, Holds, FirstEmpty, Newest;
    match op
    case Write(key, _, _) =>
      NoCopy(d.slots, key);
      assert At(View(d.slots), key) == Lookup(d.slots, key);
    case Read(key) =>
      assert At(View(d.slots), key) == Lookup(d.slots, key);
    case Delete(key) =>
      NoCopy(d.slots, key);
      assert At(View(d.slots), key) == Lookup(d.slots, key);
    case _ =>
  }

  lemma NoCopy(slots: seq<Record>, key: Text)
    ensures Lookup(slots, key).Some? <==> HolderCount(slots, key) > 0
    ensures LastHolder(slots, key) == -1 <==> Lookup(slots, key) == None
  {
    hide Holds, ValueOf, Newest, LastHolder;
    NewestIsMaximal(slots, key);
    HolderCountPositive(slots, key);
  }

  lemma MapsDifferAt(m: map<Text, Text>, n: map<Text, Text>, op: Op)
    requires forall k: Text :: !Owns(op, k) ==> At(n, k) == At(m, k)
    ensures op.Write? || op.Delete? ==>
      n == match At(n, op.key) case None => m - {op.key} case Some(v) => m[op.key := v]
    ensures !op.Write? && !op.Delete? ==> n == m
    ensures (op.Write? || op.Delete?) && At(n, op.key) == At(m, op.key) ==> n == m
  {
    assert forall k: Text :: k in n <==> At(n, k).Some?;
    assert forall k: Text :: k in m <==> At(m, k).Some?;
    if op.Write? || op.Delete? {
      var target := match At(n, op.key) case None => m - {op.key} case Some(v) => m[op.key := v];
      forall k: Text
        ensures At(n, k) == At(target, k)
      {
        assert k != op.key ==> At(target, k) == At(m, k) && !Owns(op, k);
      }
      SameMaps(n, target);
    }
    if (op.Write? || op.Delete? ==> At(n, op.key) == At(m, op.key)) {
      forall k: Text
        ensures At(n, k) == At(m, k)
      {}
      SameMaps(n, m);
    }
  }

  lemma SameMaps(m: map<Text, Text>, n: map<Text, Text>)
    requires forall k: Text :: At(m, k) == At(n, k)
    ensures m == n
  {
    forall k: Text
      ensures (k in m <==> k in n) && (k in m ==> m[k] == n[k])
    {
      assert At(m, k) == At(n, k);
    }
    assert m.Keys == n.Keys;
  }

  lemma EventIsMapStep(d: Disk, ev: Event)
    requires Fits32(d.slots) && Possible(d, ev) && Clear(d, ev)
    ensures MapStep(View(d.slots), ev, ReplyTo(d, ev.op), View(NextDisk(d, ev).slots))
  {
    hide Lookup, View, Exec, Timely, ReplyTo, Instant, Decided, Scanned, Replay, FirstEmpty, GoodArgs, Tells;
    match ev
    case Finished(op) =>
      ExecIsMapStep(d, op);
      ReplyTells(d, op);
    case Interrupted(op, ios, _, _) =>
      var m, n, after := View(d.slots), View(NextDisk(d, ev).slots), NextDisk(d, ev).slots;
      forall k: Text | !Owns(op, k)
        ensures At(n, k) == At(m, k)
      {
        EventKeepsOthers(d, ev, k);
        assert At(m, k) == Lookup(d.slots, k) && At(n, k) == Lookup(after, k);
      }
      MapsDifferAt(m, n, op);
      if op.Write? || op.Delete? {
        DecidedKey(d, op, ios);
        OpenRecovers(Replay(d, ios), op.key);
        assert At(m, op.key) == Lookup(d.slots, op.key) && At(n, op.key) == Lookup(after, op.key);
      }
  }

  function Replies(d: Disk, evs: seq<Event>): (r: seq<Reply>)
    requires Fits32(d.slots)
    ensures |r| == |evs|
    decreases |evs|
  {
    if |evs| == 0 then [] else [ReplyTo(d, evs[0].op)] + Replies(NextDisk(d, evs[0]), evs[1..])
  }

  /** `n` is reachable from `m` by letting every finished operation take effect
      and every interrupted one either take effect or not. */
  ghost predicate Explains(m: map<Text, Text>, evs: seq<Event>, replies: seq<Reply>, n: map<Text, Text>)
    requires |replies| == |evs|
    decreases |evs|
  {
    if |evs| == 0 then n == m
    else exists next :: MapStep(m, evs[0], replies[0], next) && Explains(next, evs[1..], replies[1..], n)
  }

  /** Durability over whole runs: after any series of finished, failed and crashed
      operations, each clear on the disk it met, the store is the map that some
      choice of the interrupted ones explains. */
  lemma {:induction false} RunIsExplained(d: Disk, evs: seq<Event>)
    requires Fits32(d.slots) && PossibleRun(d, evs) && ClearRun(d, evs)
    ensures Explains(View(d.slots), evs, Replies(d, evs), View(RunEvents(d, evs).slots))
    decreases |evs|
  {
    hide View, Possible, Clear, NextDisk, MapStep, ReplyTo;
    if |evs| > 0 {
      EventIsMapStep(d, evs[0]);
      var e := NextDisk(d, evs[0]);
      RunIsExplained(e, evs[1..]);
      assert Replies(d, evs)[1..] == Replies(e, evs[1..]);
      assert MapStep(View(d.slots), evs[0], Replies(d, evs)[0], View(e.slots));
    }
  }
}
