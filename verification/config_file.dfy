/** The open file: the loops of `robust_cfg.c` over its slot array and header,
    on a device that may fail any read and fail or tear any write. How it answers
    one call is an input of that call. */
module ConfigFile {
  import opened Crc32
  import opened RecordFormat
  import opened SlotStore
  import opened SlotIo
  import opened Recovery
  import opened CrashSafety
  import opened Compaction
  import opened StoreRuns
  import opened CrashFree
  import opened CrashRuns

  datatype Status = OK | ERR | NOT_FOUND | CORRUPT | FULL | BAD_ARG

  const DEFAULT_CAPACITY: Uint32 := 64

  /** How many of a delete's state writes the code counts as done. */
  function VerifiedCount(ios: seq<Io>): (c: nat)
    ensures c <= |ios|
  {
    if |ios| == 0 then 0
    else VerifiedCount(ios[..|ios| - 1]) + if Verified(ios[|ios| - 1]) then 1 else 0
  }

  /** Delete's whole plan over the slots it can read, once `deleted` of its state
      writes have succeeded. */
  function DeletePlanFor(d: Disk, view: seq<Record>, key: Text, deleted: nat): seq<Step> {
    SweepPlan(Retire(key), view, |view|) +
    if deleted > 0 && d.header.recordCount >= deleted
    then [PutHeader(WithCount(d.header, d.header.recordCount - deleted))] else []
  }

  /** Header checks made at open, in the order they are made. */
  function HeaderStatus(h: Header): Status {
    if h.magic != MAGIC then CORRUPT
    else if h.crc != HeaderCrc(h) then CORRUPT
    else if h.version != FORMAT_VERSION then ERR
    else OK
  }

  /** What a slot holds after only the sectors in `landed` were rewritten; a
      mixture that would pass its CRC by accident is taken not to happen. */
  function Landed(i: nat, landed: set<nat>, old_: Record, new_: Record): Record {
    var t := Torn(i, landed, old_, new_);
    if t == new_ || !CrcGood(t) then t else old_
  }

  lemma NoneLanded(i: nat, old_: Record, new_: Record)
    ensures Landed(i, {}, old_, new_) == old_
  {
    hide Torn, CrcGood;
    TornNone(i, old_, new_);
  }

  lemma LandedLands(i: nat, landed: set<nat>, old_: Record, new_: Record)
    ensures Lands(i, old_, new_, Landed(i, landed, old_, new_))
  {
    hide Torn, CrcGood;
    LandsEnds(i, old_, new_);
  }

  // ---------------------------------------------------------------------
  // How the device answers
  // ---------------------------------------------------------------------

  /** One disk write: whether what it starts from could be read, which sectors
      landed, and whether its calls, read-back included, reported success. */
  datatype RawFate = Fate(found: bool, sectors: set<nat>, ok: bool)

  /** Nothing is written when there is nothing to start from. */
  type Fate = f: RawFate | !f.found ==> f.sectors == {} && !f.ok witness Fate(true, {}, false)

  /** The second read of the record a read settles on. */
  datatype Reread = Fails | Damaged | Intact

  /** Everything the device answers during one call: whether the header can be
      read at open, which slots the pass can read, and the call's disk writes in
      their order. */
  datatype Answers = Answers(header: bool, readable: set<nat>, winner: Reread, writes: nat -> Fate)

  /** `io` is what `fate` makes of its write on disk `d`. */
  predicate AnsweredBy(fate: Fate, d: Disk, io: Io) {
    match io
    case SlotIo(i, intended, landed, ok) =>
      i < |d.slots| && ok == fate.ok && landed == Landed(i, fate.sectors, d.slots[i], intended)
    case HeaderIo(_, whole, ok) => ok == fate.ok && whole == (0 in fate.sectors)
  }

  /** The run's writes went as the device answered them, in their order. */
  ghost predicate Answered(writes: nat -> Fate, d: Disk, ios: seq<Io>) {
    forall j :: 0 <= j < |ios| ==> AnsweredBy(writes(j), Replay(d, ios[..j]), ios[j])
  }

  lemma AnsweredNone(writes: nat -> Fate, d: Disk)
    ensures Answered(writes, d, [])
  {}

  lemma AnsweredSnoc(writes: nat -> Fate, d: Disk, ios: seq<Io>, io: Io)
    requires Answered(writes, d, ios) && AnsweredBy(writes(|ios|), Replay(d, ios), io)
    ensures Answered(writes, d, ios + [io])
  {
    hide AnsweredBy, Replay;
    var longer := ios + [io];
    forall j | 0 <= j < |longer|
      ensures AnsweredBy(writes(j), Replay(d, longer[..j]), longer[j])
    {
      assert longer[..j] == ios[..j];
      assert ios[..|ios|] == ios;
    }
  }

  /** A write that was done whole and reported so. */
  ghost predicate Whole(fate: Fate, capacity: nat) {
    fate.found && fate.ok && forall s: nat :: s <= Sector(capacity, 0) ==> s in fate.sectors
  }

  /** The device reads everything and does everything. */
  ghost predicate Flawless(answers: Answers, capacity: nat) {
    && answers.header && answers.winner == Intact
    && (forall i :: 0 <= i < capacity ==> i in answers.readable)
    && forall j: nat :: Whole(answers.writes(j), capacity)
  }

  /** There is such a device. */
  lemma FlawlessExists(capacity: nat) returns (answers: Answers)
    ensures Flawless(answers, capacity)
  {
    var sectors := Below(Sector(capacity, 0) + 1);
    answers := Answers(true, Below(capacity), Intact, _ => Fate(true, sectors, true));
  }

  function Below(n: nat): (s: set<nat>)
    ensures forall i :: 0 <= i < n ==> i in s
  {
    if n == 0 then {} else Below(n - 1) + {n - 1}
  }

  lemma LandedWhole(fate: Fate, capacity: nat, i: nat, old_: Record, new_: Record)
    requires Whole(fate, capacity) && i < capacity
    ensures Landed(i, fate.sectors, old_, new_) == new_
  {
    hide Torn, CrcGood;
    WithinFile(i, 0, capacity);
    WithinFile(i, 296, capacity);
    TornBySectors(i, fate.sectors, SectorsOf(i, RECORD_SIZE), old_, new_);
    TornAll(i, old_, new_);
  }

  lemma WithinFile(i: nat, b: nat, capacity: nat)
    requires i < capacity && b < RECORD_SIZE
    ensures Sector(i, b) <= Sector(capacity, 0)
  {}

  lemma FlawlessRun(writes: nat -> Fate, d: Disk, ios: seq<Io>)
    requires Answered(writes, d, ios) && forall j: nat :: Whole(writes(j), |d.slots|)
    ensures AllHonest(ios) && AllOk(ios)
  {
    hide Replay, Landed, Whole;
    forall j | 0 <= j < |ios|
      ensures Honest(ios[j]) && ios[j].ok
    {
      var before := Replay(d, ios[..j]);
      assert AnsweredBy(writes(j), before, ios[j]);
      WholeIs(writes(j), |d.slots|);
      if ios[j].SlotIo? {
        LandedWhole(writes(j), |d.slots|, ios[j].i, before.slots[ios[j].i], ios[j].intended);
      }
    }
  }

  lemma WholeIs(fate: Fate, capacity: nat)
    requires Whole(fate, capacity)
    ensures fate.ok && 0 in fate.sectors
  {}

  /** A complete run of a flawless device does what was planned. */
  lemma FlawlessPlan(answers: Answers, d: Disk, plan: seq<Step>, ios: seq<Io>)
    requires Flawless(answers, |d.slots|) && Answered(answers.writes, d, ios)
    requires Follows(d, plan, ios) && |ios| == |plan|
    ensures Replay(d, ios) == Perform(d, plan)
  {
    hide Whole, Follows, Answered, AllHonest, AllOk;
    FlawlessRun(answers.writes, d, ios);
    CleanRun(d, plan, ios);
  }

  lemma FlawlessSees(answers: Answers, d: Disk)
    requires Flawless(answers, |d.slots|)
    ensures Part(d, answers.readable) == d
  {
    hide Readable;
    AllReadable(d.slots, answers.readable);
  }

  lemma StartRun(d: Disk)
    ensures Follows(d, [], []) && Replay(d, []) == d
  {}

  lemma FollowsLonger(d: Disk, plan: seq<Step>, m: nat, ios: seq<Io>)
    requires m <= |plan| && Follows(d, plan[..m], ios)
    ensures Follows(d, plan, ios)
  {
    hide Matches;
  }

  lemma SlotEffect(d: Disk, step: Step, io: Io)
    requires step.PutSlot? && Matches(d, step, io)
    ensures io.SlotIo? && step.i < |d.slots| && io.intended == step.rec
    ensures After(d, io) == d.(slots := d.slots[step.i := io.landed])
  {
    hide Lands;
  }

  lemma Advance(d: Disk, plan: seq<Step>, ios: seq<Io>, io: Io)
    requires |ios| < |plan| && Follows(d, plan[..|ios|], ios)
    requires Matches(Replay(d, ios), plan[|ios|], io)
    ensures Follows(d, plan[..|ios + [io]|], ios + [io]) && Replay(d, ios + [io]) == After(Replay(d, ios), io)
  {
    hide Matches, Replay, Follows;
    FollowsSnoc(d, plan[..|ios|], ios, plan[|ios|], io);
    assert plan[..|ios|] + [plan[|ios|]] == plan[..|ios| + 1];
  }

  /** What a pass takes a slot for that it cannot read: one in a state that no
      operation acts on. */
  function Unread(): Record {
    Record(0x03, [0, 0, 0], 0, seq(KEY_MAX, _ => 0), seq(VALUE_MAX, _ => 0), 0)
  }

  /** The slots as a pass sees them when only those in `seen` can be read. */
  function Readable(slots: seq<Record>, seen: set<nat>): (s: seq<Record>)
    ensures |s| == |slots|
  {
    seq(|slots|, i requires 0 <= i < |slots| => if i in seen then slots[i] else Unread())
  }

  function Part(d: Disk, seen: set<nat>): (e: Disk)
    ensures |e.slots| == |d.slots| && e.header == d.header
  {
    d.(slots := Readable(d.slots, seen))
  }

  lemma ReadableAt(slots: seq<Record>, seen: set<nat>, i: nat)
    requires i < |slots|
    ensures Readable(slots, seen)[i] == if i in seen then slots[i] else Unread()
  {
    hide Unread;
  }

  /** When every slot can be read, a pass sees the store. */
  lemma AllReadable(slots: seq<Record>, seen: set<nat>)
    requires forall i :: 0 <= i < |slots| ==> i in seen
    ensures Readable(slots, seen) == slots
  {
    hide Unread;
  }

  /** No pass acts on a slot it cannot read. */
  lemma UnreadIdle(rule: Rule)
    ensures !Needs(rule, Unread()) && !Live(Unread()) && Unread().state != SLOT_EMPTY
  {}

  /** `ios` is the sweep over the first `i` slots of `view`, and the rest are
      untouched. */
  ghost predicate SweepDone(
    writes: nat -> Fate, rule: Rule, d: Disk, view: seq<Record>, i: nat, ios: seq<Io>, now: Disk) {
    && Answered(writes, d, ios)
    && i <= |d.slots| == |now.slots| == |view|
    && Follows(d, SweepPlan(rule, view, i), ios) && |ios| == |SweepPlan(rule, view, i)|
    && now == Replay(d, ios) && now.header == d.header
    && forall j :: i <= j < |d.slots| ==> now.slots[j] == d.slots[j]
  }

  lemma SweepStart(writes: nat -> Fate, rule: Rule, d: Disk, view: seq<Record>)
    requires |view| == |d.slots|
    ensures SweepDone(writes, rule, d, view, 0, [], d)
  {}

  lemma SweepSkip(
    writes: nat -> Fate, rule: Rule, d: Disk, view: seq<Record>, i: nat, ios: seq<Io>, now: Disk)
    requires SweepDone(writes, rule, d, view, i, ios, now) && i < |view| && !Needs(rule, view[i])
    ensures SweepDone(writes, rule, d, view, i + 1, ios, now)
  {
    hide Follows, Replay, Needs, Answered;
    assert SweepPlan(rule, view, i) + [] == SweepPlan(rule, view, i);
  }

  lemma SweepPut(
    writes: nat -> Fate, rule: Rule, d: Disk, view: seq<Record>, i: nat, ios: seq<Io>, now: Disk, io: Io)
    requires SweepDone(writes, rule, d, view, i, ios, now) && i < |view| && Needs(rule, view[i])
    requires Matches(now, PutSlot(i, Rewritten(rule, view[i])), io) && AnsweredBy(writes(|ios|), now, io)
    ensures SweepDone(writes, rule, d, view, i + 1, ios + [io], After(now, io))
  {
    hide Follows, Replay, Needs, Rewritten, Matches, After, Answered, AnsweredBy;
    AnsweredSnoc(writes, d, ios, io);
    FollowsSnoc(d, SweepPlan(rule, view, i), ios, PutSlot(i, Rewritten(rule, view[i])), io);
    SlotEffect(now, PutSlot(i, Rewritten(rule, view[i])), io);
  }

  /** What a delete wrote: its state updates, then the count less those verified. */
  ghost predicate DeleteRan(d: Disk, view: seq<Record>, key: Text, ios: seq<Io>, rc: Status) {
    var marks := |SweepPlan(Retire(key), view, |view|)|;
    && |view| == |d.slots| && marks <= |ios|
    && var deleted := VerifiedCount(ios[..marks]);
    && |ios| == |DeletePlanFor(d, view, key, deleted)|
    && Follows(d, DeletePlanFor(d, view, key, deleted), ios)
    && rc == if deleted > 0 then OK else NOT_FOUND
  }

  lemma DeleteEnd(
    writes: nat -> Fate, d: Disk, view: seq<Record>, key: Text, ios: seq<Io>, now: Disk, deleted: nat,
    last: seq<Io>, rc: Status)
    requires SweepDone(writes, Retire(key), d, view, |view|, ios, now)
    requires deleted == VerifiedCount(ios) && rc == if deleted > 0 then OK else NOT_FOUND
    requires if deleted > 0 && d.header.recordCount >= deleted
      then
        && |last| == 1
        && Matches(Replay(d, ios), PutHeader(WithCount(d.header, d.header.recordCount - deleted)), last[0])
      else last == []
    ensures DeleteRan(d, view, key, ios + last, rc)
    ensures Replay(d, ios + last) == if last == [] then Replay(d, ios) else After(Replay(d, ios), last[0])
  {
    hide Matches, Replay, Follows, After, Answered, VerifiedCount, WithCount, DeleteRan, SweepPlan;
    if last == [] {
      assert ios + last == ios;
      DeleteEndBare(writes, d, view, key, ios, now, deleted, rc);
    } else {
      assert last == [last[0]];
      DeleteEndCounted(writes, d, view, key, ios, now, deleted, last[0], rc);
    }
  }

  lemma DeleteEndBare(
    writes: nat -> Fate, d: Disk, view: seq<Record>, key: Text, ios: seq<Io>, now: Disk, deleted: nat, rc: Status)
    requires SweepDone(writes, Retire(key), d, view, |view|, ios, now)
    requires deleted == VerifiedCount(ios) && rc == if deleted > 0 then OK else NOT_FOUND
    requires !(deleted > 0 && d.header.recordCount >= deleted)
    ensures DeleteRan(d, view, key, ios, rc)
  {
    hide Replay, Follows, Answered, VerifiedCount, WithCount, SweepPlan;
    var sweep := SweepPlan(Retire(key), view, |view|);
    assert ios[..|sweep|] == ios && sweep + [] == sweep;
  }

  lemma DeleteEndCounted(
    writes: nat -> Fate, d: Disk, view: seq<Record>, key: Text, ios: seq<Io>, now: Disk, deleted: nat,
    last: Io, rc: Status)
    requires SweepDone(writes, Retire(key), d, view, |view|, ios, now)
    requires deleted == VerifiedCount(ios) && rc == OK
    requires deleted > 0 && d.header.recordCount >= deleted
    requires Matches(Replay(d, ios), PutHeader(WithCount(d.header, d.header.recordCount - deleted)), last)
    ensures DeleteRan(d, view, key, ios + [last], rc)
    ensures Replay(d, ios + [last]) == After(Replay(d, ios), last)
  {
    hide Matches, Replay, Follows, After, Answered, VerifiedCount, WithCount, SweepPlan;
    var sweep := SweepPlan(Retire(key), view, |view|);
    assert (ios + [last])[..|sweep|] == ios;
    FollowsSnoc(d, sweep, ios, PutHeader(WithCount(d.header, d.header.recordCount - deleted)), last);
  }

  lemma {:induction false} RetireSteps(slots: seq<Record>, key: Text, n: nat)
    requires n <= |slots|
    ensures |SweepPlan(Retire(key), slots, n)| == HolderCount(slots[..n], key)
    decreases n
  {
    hide Holds, WithState;
    if n > 0 {
      RetireSteps(slots, key, n - 1);
      assert slots[..n][..n - 1] == slots[..n - 1];
    }
  }

  lemma {:induction false} AllVerified(ios: seq<Io>)
    requires AllHonest(ios) && AllOk(ios) && forall j :: 0 <= j < |ios| ==> ios[j].SlotIo?
    ensures VerifiedCount(ios) == |ios|
    decreases |ios|
  {
    if |ios| > 0 {
      AllVerified(ios[..|ios| - 1]);
      assert Honest(ios[|ios| - 1]);
    }
  }

  /** A delete on a device that did everything it reported, and reported no
      failure, is the delete of the crash-free runs. */
  lemma CleanDelete(d: Disk, key: Text, ios: seq<Io>, rc: Status)
    requires DeleteRan(d, d.slots, key, ios, rc) && AllHonest(ios) && AllOk(ios)
    ensures Replay(d, ios) == Perform(d, DeletePlan(d, key))
    ensures rc == if HolderCount(d.slots, key) > 0 then OK else NOT_FOUND
  {
    hide Replay, Perform, WithCount, Matches, HolderCount, VerifiedCount;
    var n := |d.slots|;
    var sweep := SweepPlan(Retire(key), d.slots, n);
    var plan := DeletePlanFor(d, d.slots, key, VerifiedCount(ios[..|sweep|]));
    RetireSteps(d.slots, key, n);
    assert d.slots[..n] == d.slots;
    forall j | 0 <= j < |sweep|
      ensures ios[..|sweep|][j].SlotIo? && Honest(ios[..|sweep|][j]) && ios[..|sweep|][j].ok
    {
      assert Matches(Replay(d, ios[..j]), plan[j], ios[j]);
      assert plan[j] == sweep[j];
      SweepPuts(d.slots, key, n, j);
      PutMatched(Replay(d, ios[..j]), plan[j], ios[j]);
      assert Honest(ios[j]);
    }
    AllVerified(ios[..|sweep|]);
    CleanRun(d, plan, ios);
  }

  lemma PutMatched(d: Disk, step: Step, io: Io)
    requires step.PutSlot? && Matches(d, step, io)
    ensures io.SlotIo?
  {
    hide Lands;
  }

  lemma {:induction false} SweepPuts(slots: seq<Record>, key: Text, n: nat, j: nat)
    requires n <= |slots| && j < |SweepPlan(Retire(key), slots, n)|
    ensures SweepPlan(Retire(key), slots, n)[j].PutSlot?
    decreases n
  {
    hide Holds, WithState;
    if n > 0 && j < |SweepPlan(Retire(key), slots, n - 1)| {
      SweepPuts(slots, key, n - 1, j);
    }
  }

  /** Every instant of a write between two of its disk writes is one the crash
      results speak of. */
  lemma InstantsOfWrite(d: Disk, key: Text, value: Text, now: bv32, ios: seq<Io>, n: nat)
    requires GoodArgs(key, value) && AllHonest(ios) && n <= |ios|
    requires Follows(d, WritePlan(d, key, value, now), ios) && (|ios| >= 2 ==> Verified(ios[0]))
    ensures WriteMoment(d, key, value, now, ios[..n])
  {
    hide Matches, Replay, WritePlan, Honest;
    var plan := WritePlan(d, key, value, now);
    FollowsPrefix(d, plan, ios, |plan|, n);
    assert plan[..|plan|] == plan;
  }

  /** So is every instant inside a disk write, which the crash leaves `cut`. */
  lemma InstantsInsideWrite(d: Disk, key: Text, value: Text, now: bv32, ios: seq<Io>, cut: Io)
    requires GoodArgs(key, value) && WriteMoment(d, key, value, now, ios)
    requires |ios| < |WritePlan(d, key, value, now)| && (|ios| >= 1 ==> Verified(ios[0]))
    requires !cut.ok && Matches(Replay(d, ios), WritePlan(d, key, value, now)[|ios|], cut)
    ensures WriteMoment(d, key, value, now, ios + [cut])
  {
    hide Matches, Replay, Follows, WritePlan;
    var plan := WritePlan(d, key, value, now);
    FollowsPrefix(d, plan, ios, |ios|, |ios|);
    assert ios[..|ios|] == ios;
    Advance(d, plan, ios, cut);
    FollowsLonger(d, plan, |ios + [cut]|, ios + [cut]);
  }

  /** Every instant of a delete, on a device that may fail any of its writes. */
  lemma InstantsOfDelete(d: Disk, key: Text, ios: seq<Io>, rc: Status, n: nat)
    requires DeleteRan(d, d.slots, key, ios, rc) && n <= |ios|
    ensures DeleteMoment(d, key, ios[..n])
  {
    hide Matches, Replay, VerifiedCount, WithCount, SweepPlan;
    var sweep := SweepPlan(Retire(key), d.slots, |d.slots|);
    var deleted := VerifiedCount(ios[..|sweep|]);
    var plan := DeletePlanFor(d, d.slots, key, deleted);
    FollowsPrefix(d, plan, ios, |plan|, n);
    assert plan[..|plan|] == plan;
    var count := if deleted > 0 && d.header.recordCount >= deleted then d.header.recordCount - deleted else 0;
    var whole := sweep + [PutHeader(WithCount(d.header, count))];
    assert whole[..|plan|] == plan;
    FollowsLonger(d, whole, |plan|, ios[..n]);
  }

  /** And every instant of a repair, an open, or a compaction that the runs allow. */
  lemma InstantsOfPass(d: Disk, op: Op, ios: seq<Io>, n: nat)
    requires Fits32(d.slots) && (op.RepairAll? || op.Compact? || op.Reopen?) && n <= |ios|
    requires Follows(d, Plan(d, op), ios) && (op.Compact? ==> InOrder(ios) || AllKept(d.slots))
    ensures Instant(d, op, ios[..n])
  {
    hide Matches, Replay, RepairPlan, CompactPlan, ScanPlan, AllKept;
    var plan := Plan(d, op);
    FollowsPrefix(d, plan, ios, |plan|, n);
    assert plan[..|plan|] == plan;
  }

  lemma EmptiesOnly(slots: seq<Record>)
    requires forall i :: 0 <= i < |slots| ==> slots[i] == EmptyRecord()
    ensures slots == Empties(|slots|)
  {
    hide EmptyRecord, Empties;
  }

  lemma CreatedParts(n: Uint32)
    ensures Created(n) == Disk(NewHeader(n), Empties(n))
  {
    hide NewHeader, Empties;
  }

  lemma LiveCountNone(slots: seq<Record>)
    ensures LiveCount(slots[..0]) == 0
  {}

  lemma LiveCountNext(slots: seq<Record>, i: nat)
    requires i < |slots|
    ensures LiveCount(slots[..i + 1]) == LiveCount(slots[..i]) + if Live(slots[i]) then 1 else 0
  {
    hide Live;
    assert slots[..i + 1][..i] == slots[..i];
  }

  lemma PackedFrom(slots: seq<Record>, valid: seq<Record>, i: nat)
    requires i < |slots| && |valid| == |Sources(slots)|
    requires forall j :: 0 <= j < |valid| ==> valid[j] == slots[Sources(slots)[j]]
    ensures PackedSlot(slots, i) == if i < |valid| then valid[i] else EmptyRecord()
  {}

  lemma SweepUntouched(
    writes: nat -> Fate, rule: Rule, d: Disk, view: seq<Record>, i: nat, ios: seq<Io>, now: Disk)
    requires SweepDone(writes, rule, d, view, i, ios, now) && i < |now.slots|
    ensures i < |d.slots| == |view| && now.slots[i] == d.slots[i]
  {}

  lemma SweepEnd(writes: nat -> Fate, rule: Rule, d: Disk, view: seq<Record>, ios: seq<Io>, now: Disk)
    requires SweepDone(writes, rule, d, view, |view|, ios, now)
    ensures Follows(d, SweepPlan(rule, view, |view|), ios) && |ios| == |SweepPlan(rule, view, |view|)|
    ensures now == Replay(d, ios) && now.header == d.header && Answered(writes, d, ios)
  {}

  lemma VerifiedCountNone()
    ensures VerifiedCount([]) == 0
  {}

  lemma VerifiedCountSnoc(ios: seq<Io>, io: Io)
    ensures VerifiedCount(ios + [io]) == VerifiedCount(ios) + if Verified(io) then 1 else 0
  {
    assert (ios + [io])[..|ios|] == ios;
  }

  function CountedFor(h: Header, isNew: bool): Header {
    if isNew then h.(recordCount := (h.recordCount + 1) % 0x1_0000_0000) else h
  }

  /** The steps after the first of a write's plan. */
  ghost predicate HasWriteShape(d: Disk, plan: seq<Step>, oldIdx: int, emptyIdx: int) {
    && oldIdx < |d.slots|
    && |plan| == (if emptyIdx != -1 && oldIdx >= 0 then 3 else 2)
    && (emptyIdx != -1 && oldIdx >= 0 ==> plan[1] == PutSlot(oldIdx, WithState(d.slots[oldIdx], SLOT_DELETED)))
    && plan[|plan| - 1] == PutHeader(SealedHeader(CountedFor(d.header, oldIdx < 0)))
  }

  lemma PlanStart(d: Disk, key: Text, value: Text, now: bv32)
    requires GoodArgs(key, value) && Target(d.slots, key) != -1
    ensures var plan := WritePlan(d, key, value, now);
      && |plan| > 0
      && plan[0] == PutSlot(
        Target(d.slots, key),
        Sealed(Record(SLOT_VALID, [0, 0, 0], now, Padded(key, KEY_MAX), Padded(value, VALUE_MAX), 0)))
  {
    hide WithState, Retired, Target, Sealed, Padded;
  }

  /** The first disk write of a plan. */
  lemma WroteFirst(d: Disk, plan: seq<Step>, io: Io, now: Disk)
    requires |plan| > 0 && plan[0].PutSlot? && Matches(d, plan[0], io) && now == After(d, io)
    ensures Follows(d, plan[..1], [io]) && Replay(d, [io]) == now
    ensures io.SlotIo? && plan[0].i < |d.slots| && now == d.(slots := d.slots[plan[0].i := io.landed])
  {
    hide Matches, Replay, Follows, After;
    StartRun(d);
    FollowsSnoc(d, [], [], plan[0], io);
    SlotEffect(d, plan[0], io);
    assert [] + [io] == [io] && [] + [plan[0]] == plan[..1];
  }

  lemma WritePlanShape(d: Disk, key: Text, value: Text, now: bv32)
    requires GoodArgs(key, value) && Target(d.slots, key) != -1
    ensures HasWriteShape(d, WritePlan(d, key, value, now), LastHolder(d.slots, key), FirstEmpty(d.slots))
  {
    hide NewRecord, WithState, SealedHeader, LastHolder, FirstEmpty;
  }

  // ---------------------------------------------------------------------
  // What failing reads can do
  // ---------------------------------------------------------------------

  /** Any instant of an open, a repair or a delete some of whose slots cannot be
      read, on a device that may fail any write, with or without its header write. */
  ghost predicate PartMoment(rule: Rule, d: Disk, seen: set<nat>, ios: seq<Io>) {
    exists h ::
      Follows(d, SweepPlan(rule, Readable(d.slots, seen), |d.slots|) + [PutHeader(h)], ios)
  }

  /** Slots that cannot be read are left alone, so every key keeps its reading but
      the one a delete is for. */
  lemma PartKeepsLookups(rule: Rule, d: Disk, seen: set<nat>, ios: seq<Io>, key: Text)
    requires PartMoment(rule, d, seen, ios) && (rule.Retire? ==> rule.key != key)
    ensures Swept(rule, d.slots, Replay(d, ios).slots)
    ensures Lookup(Replay(d, ios).slots, key) == Lookup(d.slots, key)
  {
    hide Needs, Readable, Unread, Swept, Lookup, Follows, Replay;
    var view := Readable(d.slots, seen);
    var h :| Follows(d, SweepPlan(rule, view, |d.slots|) + [PutHeader(h)], ios);
    forall j | 0 <= j < |view|
      ensures view[j] == d.slots[j] || !Needs(rule, view[j])
    {
      ReadableAt(d.slots, seen, j);
      UnreadIdle(rule);
    }
    SweepThenHeader(rule, d, view, h, ios);
    if rule.Retire? {
      DeleteKeepsOthers(d.slots, Replay(d, ios).slots, rule.key, key);
    } else {
      SweepKeepsLookups(rule, d.slots, Replay(d, ios).slots, key);
    }
  }

  /** Each instant of the three methods' runs is such a moment. */
  lemma InstantsOfPart(d: Disk, seen: set<nat>, ios: seq<Io>, n: nat, key: Text, rc: Status)
    requires Fits32(d.slots) && n <= |ios|
    ensures Follows(d, ScanPlan(Part(d, seen)), ios) ==> PartMoment(Scan, d, seen, ios[..n])
    ensures Follows(d, RepairPlan(Part(d, seen)), ios) ==> PartMoment(Repair, d, seen, ios[..n])
    ensures DeleteRan(d, Readable(d.slots, seen), key, ios, rc) ==> PartMoment(Retire(key), d, seen, ios[..n])
  {
    hide Needs, Readable, Follows, Replay, WithCount, LiveCount, VerifiedCount, SweepPlan;
    var view := Readable(d.slots, seen);
    if Follows(d, ScanPlan(Part(d, seen)), ios) {
      PartInstant(Scan, d, seen, LiveCount(view), ScanPlan(Part(d, seen)), ios, n);
    }
    if Follows(d, RepairPlan(Part(d, seen)), ios) {
      PartInstant(Repair, d, seen, LiveCount(view), RepairPlan(Part(d, seen)), ios, n);
    }
    if DeleteRan(d, view, key, ios, rc) {
      var deleted := VerifiedCount(ios[..|SweepPlan(Retire(key), view, |view|)|]);
      var count := if deleted > 0 && d.header.recordCount >= deleted then d.header.recordCount - deleted else 0;
      PartInstant(Retire(key), d, seen, count, DeletePlanFor(d, view, key, deleted), ios, n);
    }
  }

  lemma PartInstant(rule: Rule, d: Disk, seen: set<nat>, count: Uint32, plan: seq<Step>, ios: seq<Io>, n: nat)
    requires n <= |ios| && Follows(d, plan, ios)
    requires var sweep := SweepPlan(rule, Readable(d.slots, seen), |d.slots|);
      plan == sweep + [] || plan == sweep + [PutHeader(WithCount(d.header, count))]
    ensures PartMoment(rule, d, seen, ios[..n])
  {
    hide Needs, Readable, Matches, Replay, WithCount, SweepPlan;
    var whole := SweepPlan(rule, Readable(d.slots, seen), |d.slots|) + [PutHeader(WithCount(d.header, count))];
    FollowsPrefix(d, plan, ios, |plan|, n);
    assert plan[..|plan|] == plan && whole[..|plan|] == plan;
    FollowsLonger(d, whole, |plan|, ios[..n]);
  }

  lemma {:induction false} PackPart(d: Disk, view: seq<Record>, n: nat)
    requires n <= |d.slots| == |view|
    ensures Perform(d, PackPlan(view, n)) == d.(slots := Packed(view)[..n] + d.slots[n..])
    decreases n
  {
    hide PackedSlot;
    if n == 0 {
      assert Packed(view)[..0] + d.slots[0..] == d.slots;
    } else {
      hide Perform, Packed;
      PackPart(d, view, n - 1);
      PackedAt(view, n - 1);
      var step := PutSlot(n - 1, PackedSlot(view, n - 1));
      assert PackPlan(view, n) == PackPlan(view, n - 1) + [step];
      PerformSnoc(d, PackPlan(view, n - 1), step);
      var before := Packed(view)[..n - 1] + d.slots[n - 1..];
      assert before[n - 1 := PackedSlot(view, n - 1)] == Packed(view)[..n] + d.slots[n..];
    }
  }

  /** A compaction drops the records it cannot read: afterwards each key reads as
      it did from the slots that could be read, and the count is of those. */
  lemma CompactedPart(d: Disk, seen: set<nat>, key: Text)
    requires Fits32(d.slots)
    ensures var view, e := Readable(d.slots, seen), Perform(d, CompactPlan(Part(d, seen)));
      && e.slots == Packed(view) && e.header == WithCount(d.header, LiveCount(view))
      && Lookup(e.slots, key) == Lookup(view, key)
  {
    hide PackedSlot, WithCount, LiveCount, Perform, Readable, Packed, Lookup;
    var view, n := Readable(d.slots, seen), |d.slots|;
    PackPart(d, view, n);
    PerformSnoc(d, PackPlan(view, n), PutHeader(WithCount(d.header, LiveCount(view))));
    assert Packed(view)[..n] + d.slots[n..] == Packed(view);
    PackedKeepsLookup(view, key);
  }

  /** The copy a write retires is one it has read. */
  lemma RetiredIsSeen(slots: seq<Record>, seen: set<nat>, key: Text)
    ensures var o := LastHolder(Readable(slots, seen), key);
      o != -1 ==> Readable(slots, seen)[o] == slots[o]
  {
    hide CrcGood, KeyOf, Readable, LastHolder, Unread;
    UnreadIdle(Scan);
    var o := LastHolder(Readable(slots, seen), key);
    if o != -1 {
      ReadableAt(slots, seen, o);
    }
  }

  /** One turn of a write's pass. */
  lemma FindNext(view: seq<Record>, i: nat, key: Text)
    requires i < |view|
    ensures LastHolder(view[..i + 1], key) == if Holds(view[i], key) then i else LastHolder(view[..i], key)
    ensures FirstEmpty(view[..i + 1]) ==
      if FirstEmpty(view[..i]) == -1 && view[i].state == SLOT_EMPTY then i else FirstEmpty(view[..i])
  {
    hide Holds;
    assert view[..i + 1][..i] == view[..i];
  }

  lemma FindNone(view: seq<Record>, key: Text)
    ensures LastHolder(view[..0], key) == -1 && FirstEmpty(view[..0]) == -1
  {}

  lemma NewestNone(key: Text)
    ensures Newest([], key) == -1
  {}

  /** One turn of the read scan. */
  lemma NewestSnoc(s: seq<Record>, r: Record, key: Text)
    ensures Newest(s + [r], key) ==
      if Holds(r, key) && (Newest(s, key) == -1 || Time(r) >= Time(s[Newest(s, key)])) then |s| else Newest(s, key)
  {
    hide Holds, Time;
    assert (s + [r])[..|s|] == s;
  }

  lemma AnsweredFirst(writes: nat -> Fate, d: Disk, io: Io)
    requires AnsweredBy(writes(0), d, io)
    ensures Answered(writes, d, [io])
  {
    hide AnsweredBy, Answered, Replay;
    StartRun(d);
    AnsweredNone(writes, d);
    AnsweredSnoc(writes, d, [], io);
    assert [] + [io] == [io];
  }

  // ---------------------------------------------------------------------
  // Calls on a flawless device
  // ---------------------------------------------------------------------

  function StatusOf(reply: Reply): Status {
    match reply
    case Ok => OK
    case Found(_) => OK
    case NotFound => NOT_FOUND
    case Full => FULL
    case BadArg => BAD_ARG
  }

  lemma FlawlessOp(answers: Answers, d: Disk, op: Op, ios: seq<Io>)
    requires Fits32(d.slots) && (op.RepairAll? || op.Compact? || op.Reopen?)
    requires Answered(answers.writes, d, ios)
    requires var plan := Plan(Part(d, answers.readable), op); |ios| == |plan| && Follows(d, plan, ios)
    ensures Flawless(answers, |d.slots|) ==> Replay(d, ios) == Exec(d, op)
    ensures Flawless(answers, |d.slots|) && op.Compact? ==>
      forall key: Text :: Lookup(Exec(d, op).slots, key) == Lookup(d.slots, key)
  {
    hide Answered, Follows, Plan, Perform, Replay, Flawless, Lookup, Exec;
    if Flawless(answers, |d.slots|) {
      FlawlessSees(answers, d);
      FlawlessPlan(answers, d, Plan(d, op), ios);
      ExecIs(d, op);
      if op.Compact? {
        forall key: Text
          ensures Lookup(Exec(d, op).slots, key) == Lookup(d.slots, key)
        {
          ExecKeepsOthers(d, op, key);
        }
      }
    }
  }

  lemma ExecIs(d: Disk, op: Op)
    requires Fits32(d.slots)
    ensures Exec(d, op) == Perform(d, Plan(d, op))
  {
    hide Perform, Plan;
  }

  lemma RefusedIs(d: Disk, key: Text, value: Text, now: bv32)
    requires Fits32(d.slots) && !GoodArgs(key, value)
    ensures Exec(d, Op.Write(key, value, now)) == d && ReplyTo(d, Op.Write(key, value, now)) == BadArg
  {
    PerformNothing(d);
  }

  lemma FlawlessFull(answers: Answers, d: Disk, key: Text, value: Text, now: bv32)
    requires Fits32(d.slots) && GoodArgs(key, value) && Target(Part(d, answers.readable).slots, key) == -1
    ensures Follows(d, WritePlan(Part(d, answers.readable), key, value, now), [])
    ensures Flawless(answers, |d.slots|) ==>
      Exec(d, Op.Write(key, value, now)) == d && ReplyTo(d, Op.Write(key, value, now)) == Full
  {
    hide Flawless, Target, Readable;
    if Flawless(answers, |d.slots|) {
      FlawlessSees(answers, d);
      PerformNothing(d);
    }
  }

  lemma FlawlessWrite(answers: Answers, d: Disk, key: Text, value: Text, now: bv32, rc: Status, ios: seq<Io>)
    requires Fits32(d.slots) && GoodArgs(key, value) && Target(Part(d, answers.readable).slots, key) != -1
    requires Answered(answers.writes, d, ios)
    requires var plan := WritePlan(Part(d, answers.readable), key, value, now);
      Follows(d, plan, ios) && |ios| == if rc == OK then |plan| else 1
    requires |ios| > 0 && rc == if Verified(ios[0]) then OK else if ios[0].ok then CORRUPT else ERR
    ensures Flawless(answers, |d.slots|) ==>
      Replay(d, ios) == Exec(d, Op.Write(key, value, now)) && rc == OK && ReplyTo(d, Op.Write(key, value, now)) == Ok
  {
    hide Answered, Perform, Replay, Target, Readable, Lands, Whole, NewRecord, WithState, Retired;
    if Flawless(answers, |d.slots|) {
      FlawlessSees(answers, d);
      FlawlessRun(answers.writes, d, ios);
      var plan := WritePlan(d, key, value, now);
      assert Matches(Replay(d, ios[..0]), plan[0], ios[0]) && Honest(ios[0]);
      FlawlessPlan(answers, d, plan, ios);
    }
  }

  lemma FlawlessDelete(answers: Answers, d: Disk, key: Text, ios: seq<Io>, rc: Status)
    requires Fits32(d.slots) && Answered(answers.writes, d, ios)
    requires DeleteRan(d, Readable(d.slots, answers.readable), key, ios, rc)
    ensures Flawless(answers, |d.slots|) ==>
      Replay(d, ios) == Exec(d, Op.Delete(key)) && rc == StatusOf(ReplyTo(d, Op.Delete(key)))
  {
    hide Answered, DeleteRan, Perform, Replay, Readable, Whole, HolderCount, DeletePlan;
    if Flawless(answers, |d.slots|) {
      FlawlessSees(answers, d);
      FlawlessRun(answers.writes, d, ios);
      CleanDelete(d, key, ios, rc);
    }
  }

  class File {
    var header: Header
    const slots: array<Record>
    /** Every disk write so far, and what it left behind. A write that a failed
        read called off is one that left nothing. */
    ghost var trace: seq<Io>

    ghost predicate Valid()
      reads this
    {
      slots.Length < 0x8000_0000
    }

    function Now(): (d: Disk)
      reads this, slots
      ensures |d.slots| == slots.Length
    {
      Disk(header, slots[..])
    }

    /** A new file: header, then every slot written as EMPTY. */
    constructor Create(capacity: Uint32)
      requires capacity < 0x8000_0000
      ensures Valid() && fresh(slots) && trace == []
      ensures Now() == Created(if capacity == 0 then DEFAULT_CAPACITY else capacity)
    {
      var n := if capacity == 0 then DEFAULT_CAPACITY else capacity;
      hide NewHeader, EmptyRecord, Empties, Created;
      header := NewHeader(n);
      slots := new Record[n](_ => EmptyRecord());
      trace := [];
      new;
      EmptiesOnly(slots[..]);
      CreatedParts(n);
    }

    // -------------------------------------------------------------------
    // Low-level writes
    // -------------------------------------------------------------------

    /** One slot write and the calls that check it. Any of the slot's sectors may
        have landed, whatever the calls report. */
    method PutSlotBytes(i: nat, rec: Record, fate: Fate) returns (ok: bool, ghost io: Io)
      requires Valid() && i < slots.Length
      modifies this`trace, slots
      ensures trace == old(trace) + [io] && Matches(old(Now()), PutSlot(i, rec), io) && io.ok == ok
      ensures AnsweredBy(fate, old(Now()), io)
      ensures slots[..] == old(slots[..])[i := io.landed]
    {
      hide Lands, Landed;
      var t := Landed(i, fate.sectors, slots[i], rec);
      LandedLands(i, fate.sectors, slots[i], rec);
      ok := fate.ok;
      io := SlotIo(i, rec, t, ok);
      slots[i] := t;
      trace := trace + [io];
    }

    /** The header lies inside one sector: it lands whole or not at all. One that
        could not be read before is not written, and nothing lands. */
    method PutHeaderBytes(h: Header, fate: Fate) returns (ghost io: Io)
      requires Valid()
      modifies this`trace, this`header
      ensures trace == old(trace) + [io] && Matches(old(Now()), PutHeader(h), io)
      ensures AnsweredBy(fate, old(Now()), io)
      ensures Now() == After(old(Now()), io)
    {
      if 0 in fate.sectors {
        header := h;
      }
      io := HeaderIo(h, 0 in fate.sectors, fate.ok);
      trace := trace + [io];
    }

    method WriteHeader(h: Header, fate: Fate) returns (ghost io: Io)
      requires Valid()
      modifies this`trace, this`header
      ensures trace == old(trace) + [io] && Matches(old(Now()), PutHeader(SealedHeader(h)), io)
      ensures AnsweredBy(fate, old(Now()), io)
      ensures Now() == After(old(Now()), io)
    {
      io := PutHeaderBytes(h.(crc := HeaderCrc(h)), fate);
    }

    method WriteRecordVerified(i: nat, rec: Record, fate: Fate) returns (rc: Status, ghost io: Io)
      requires Valid() && i < slots.Length
      modifies this`trace, slots
      ensures trace == old(trace) + [io] && Matches(old(Now()), PutSlot(i, Sealed(rec)), io)
      ensures AnsweredBy(fate, old(Now()), io)
      ensures Now() == After(old(Now()), io)
      ensures rc == if Verified(io) then OK else if io.ok then CORRUPT else ERR
    {
      hide Lands, RecordCrc, Landed;
      var sealed := rec.(crc := RecordCrc(rec));
      var ok;
      ok, io := PutSlotBytes(i, sealed, fate);
      assert slots[..][i] == io.landed;
      if !ok {
        return ERR, io;
      }
      var verify := slots[i];
      if verify.crc != sealed.crc {
        return CORRUPT, io;
      }
      return OK, io;
    }

    method SetSlotState(i: nat, state: Byte, fate: Fate) returns (rc: Status, ghost io: Io)
      requires Valid() && i < slots.Length
      modifies this`trace, slots
      ensures trace == old(trace) + [io]
      ensures Matches(old(Now()), PutSlot(i, WithState(old(slots[i]), state)), io)
      ensures AnsweredBy(fate, old(Now()), io)
      ensures Now() == After(old(Now()), io)
      ensures rc == if Verified(io) then OK else if io.ok then CORRUPT else ERR
    {
      hide Lands, RecordCrc, Landed;
      if !fate.found {
        LandsEnds(i, slots[i], WithState(slots[i], state));
        NoneLanded(i, slots[i], WithState(slots[i], state));
        io := SlotIo(i, WithState(slots[i], state), slots[i], false);
        trace := trace + [io];
        assert slots[..][i := slots[i]] == slots[..];
        return ERR, io;
      }
      var rec := slots[i];
      rec := rec.(state := state);
      rc, io := WriteRecordVerified(i, rec, fate);
    }

    // -------------------------------------------------------------------
    // Read
    // -------------------------------------------------------------------

    /** Slots that cannot be read are skipped. The record the scan settles on is
        read once more, which may fail or fail its CRC. */
    method Read(key: Text, buflen: nat, answers: Answers) returns (rc: Status, value: Text)
      requires Valid()
      ensures buflen == 0 ==> rc == BAD_ARG
      ensures buflen > 0 ==>
        match Lookup(Readable(slots[..], answers.readable), key)
        case None => rc == NOT_FOUND
        case Some(v) =>
          match answers.winner
          case Fails => rc == ERR
          case Damaged => rc == CORRUPT
          case Intact => rc == OK && value == if |v| < buflen then v else v[..buflen - 1]
      ensures buflen > 0 && Flawless(answers, slots.Length) ==>
        match ReplyTo(Now(), Op.Read(key))
        case Found(v) => rc == OK && value == if |v| < buflen then v else v[..buflen - 1]
        case _ => rc == NOT_FOUND
    {
      hide Live, KeyOf, ValueOf, Newest, Readable, Whole;
      value := [];
      if buflen == 0 {
        return BAD_ARG, value;
      }
      if Flawless(answers, slots.Length) {
        FlawlessSees(answers, Now());
      }
      var bestIdx := FindNewest(key, answers.readable);
      if bestIdx == -1 {
        return NOT_FOUND, value;
      }
      if answers.winner == Fails {
        return ERR, value;
      }
      if answers.winner == Damaged {
        return CORRUPT, value;
      }
      var text := ValueOf(slots[bestIdx]);
      value := if |text| < buflen then text else text[..buflen - 1];
      rc := OK;
    }

    /** The scan of a read: the newest copy among the slots that can be read. */
    method FindNewest(key: Text, readable: set<nat>) returns (bestIdx: int)
      requires Valid()
      ensures bestIdx == Newest(Readable(slots[..], readable), key)
      ensures bestIdx != -1 ==> Readable(slots[..], readable)[bestIdx] == slots[bestIdx]
    {
      hide CrcGood, KeyOf, Newest, Readable, Unread, Time;
      UnreadIdle(Scan);
      NewestNone(key);
      ghost var view := Readable(slots[..], readable);
      bestIdx := -1;
      var bestTime := 0;
      for i := 0 to slots.Length
        invariant bestIdx == Newest(view[..i], key) && bestIdx < i
        invariant bestIdx != -1 ==> bestIdx in readable && bestTime == Time(view[bestIdx])
      {
        ReadableAt(slots[..], readable, i);
        NewestSnoc(view[..i], view[i], key);
        assert view[..i + 1] == view[..i] + [view[i]];
        if i in readable {
          var rec := slots[i];
          if rec.state == SLOT_VALID && CrcGood(rec) && KeyOf(rec) == key {
            if bestIdx == -1 || Time(rec) >= bestTime {
              bestIdx := i;
              bestTime := Time(rec);
            }
          }
        }
      }
      assert view[..slots.Length] == view;
      if bestIdx != -1 {
        ReadableAt(slots[..], readable, bestIdx);
      }
    }

    // -------------------------------------------------------------------
    // Write
    // -------------------------------------------------------------------

    /** The plan is made from the slots its pass can read. */
    method Write(key: Text, value: Text, now: bv32, answers: Answers) returns (rc: Status, ghost ios: seq<Io>)
      requires Valid()
      modifies this`trace, this`header, slots
      ensures trace == old(trace) + ios && Now() == Replay(old(Now()), ios)
      ensures Answered(answers.writes, old(Now()), ios)
      ensures !GoodArgs(key, value) ==> rc == BAD_ARG && ios == []
      ensures GoodArgs(key, value) ==>
        var part := Part(old(Now()), answers.readable);
        var plan := WritePlan(part, key, value, now);
        && Follows(old(Now()), plan, ios)
        && (rc == FULL <==> Target(part.slots, key) == -1)
        && (rc != FULL ==> |ios| > 0 && rc == if Verified(ios[0]) then OK else if ios[0].ok then CORRUPT else ERR)
        && |ios| == if rc == OK then |plan| else if rc == FULL then 0 else 1
      ensures Flawless(answers, slots.Length) ==>
        var op := Op.Write(key, value, now);
        Now() == Exec(old(Now()), op) && rc == StatusOf(ReplyTo(old(Now()), op))
    {
      hide Readable, Follows, Replay, Answered, Whole, FirstEmpty, LastHolder, WritePlan, Verified, Exec;
      ghost var d := Now();
      ios := [];
      AnsweredNone(answers.writes, d);
      StartRun(d);
      if |key| >= KEY_MAX {
        RefusedIs(d, key, value, now);
        return BAD_ARG, ios;
      }
      if |value| >= VALUE_MAX {
        RefusedIs(d, key, value, now);
        return BAD_ARG, ios;
      }
      var oldIdx, emptyIdx := FindSlots(key, answers.readable);
      if emptyIdx == -1 && oldIdx == -1 {
        FlawlessFull(answers, d, key, value, now);
        return FULL, ios;
      }
      rc, ios := WriteFound(key, value, now, oldIdx, emptyIdx, answers);
      FlawlessWrite(answers, d, key, value, now, rc, ios);
    }

    /** The single pass of a write: an empty slot, and the last slot of the key. */
    method FindSlots(key: Text, readable: set<nat>) returns (oldIdx: int, emptyIdx: int)
      requires Valid()
      ensures oldIdx == LastHolder(Readable(slots[..], readable), key)
      ensures emptyIdx == FirstEmpty(Readable(slots[..], readable))
    {
      hide CrcGood, KeyOf, Readable, Unread, FirstEmpty, LastHolder;
      UnreadIdle(Scan);
      ghost var view := Readable(slots[..], readable);
      oldIdx, emptyIdx := -1, -1;
      FindNone(view, key);
      for i := 0 to slots.Length
        invariant oldIdx == LastHolder(view[..i], key)
        invariant emptyIdx == FirstEmpty(view[..i])
      {
        ReadableAt(slots[..], readable, i);
        FindNext(view, i, key);
        if i in readable {
          var rec := slots[i];
          if rec.state == SLOT_EMPTY && emptyIdx == -1 {
            emptyIdx := i;
          } else if rec.state == SLOT_VALID {
            if CrcGood(rec) && KeyOf(rec) == key {
              oldIdx := i;
            }
          }
        }
      }
      assert view[..slots.Length] == view;
    }

    method WriteFound(key: Text, value: Text, now: bv32, oldIdx: int, emptyIdx: int, answers: Answers)
      returns (rc: Status, ghost ios: seq<Io>)
      requires Valid() && GoodArgs(key, value)
      requires oldIdx == LastHolder(Readable(slots[..], answers.readable), key)
      requires emptyIdx == FirstEmpty(Readable(slots[..], answers.readable))
      requires emptyIdx != -1 || oldIdx != -1
      modifies this`trace, this`header, slots
      ensures trace == old(trace) + ios && Now() == Replay(old(Now()), ios)
      ensures Answered(answers.writes, old(Now()), ios)
      ensures Follows(old(Now()), WritePlan(Part(old(Now()), answers.readable), key, value, now), ios)
      ensures |ios| > 0 && rc == if Verified(ios[0]) then OK else if ios[0].ok then CORRUPT else ERR
      ensures |ios| == if rc == OK then |WritePlan(Part(old(Now()), answers.readable), key, value, now)| else 1
    {
      hide Lands, RecordCrc, Matches, After, Replay, Follows, FirstEmpty, LastHolder, Verified,
        HasWriteShape, WritePlan, Padded, Sealed, Readable, Answered, AnsweredBy;
      ghost var d := Now();
      ghost var part := Part(d, answers.readable);
      ghost var plan := WritePlan(part, key, value, now);
      PlanStart(part, key, value, now);
      var newRec := Record(SLOT_VALID, [0, 0, 0], now, Padded(key, KEY_MAX), Padded(value, VALUE_MAX), 0);
      ghost var io;
      rc, io := WriteRecordVerified(if emptyIdx != -1 then emptyIdx else oldIdx, newRec, answers.writes(0));
      ios := [io];
      WroteFirst(d, plan, io, Now());
      AnsweredFirst(answers.writes, d, io);
      if rc == OK {
        WritePlanShape(part, key, value, now);
        RetiredIsSeen(d.slots, answers.readable, key);
        ios := FinishWrite(d, part, plan, io, oldIdx, emptyIdx, answers.writes);
      } else {
        FollowsLonger(d, plan, 1, ios);
      }
    }

    /** After the new record is verified: retire the old one, then the header. */
    method FinishWrite(
      ghost d: Disk, ghost part: Disk, ghost plan: seq<Step>, ghost first: Io, oldIdx: int, emptyIdx: int,
      writes: nat -> Fate)
      returns (ghost ios: seq<Io>)
      requires Valid() && -1 <= oldIdx < slots.Length
      requires HasWriteShape(part, plan, oldIdx, emptyIdx)
      requires Follows(d, plan[..1], [first]) && Replay(d, [first]) == Now() && Answered(writes, d, [first])
      requires header == part.header && (emptyIdx != -1 && oldIdx >= 0 ==> slots[oldIdx] == part.slots[oldIdx])
      modifies this`trace, this`header, slots
      ensures |ios| == |plan| && ios[0] == first
      ensures trace == old(trace) + ios[1..] && Now() == Replay(d, ios)
      ensures Follows(d, plan, ios) && Answered(writes, d, ios)
    {
      hide Lands, RecordCrc, Matches, After, Replay, Follows, WithState, Verified, SealedHeader, Answered, AnsweredBy;
      ios := [first];
      var done := 1;
      if emptyIdx != -1 && oldIdx >= 0 {
        ghost var b := Now();
        var ignored;
        ghost var retired;
        ignored, retired := SetSlotState(oldIdx, SLOT_DELETED, writes(1));
        SlotEffect(b, plan[1], retired);
        Advance(d, plan, ios, retired);
        AnsweredSnoc(writes, d, ios, retired);
        ios := ios + [retired];
        done := 2;
      }
      assert plan[|ios|] == plan[|plan| - 1];
      ghost var last := CountWrite(d, plan, ios, oldIdx < 0, writes(done));
      AnsweredSnoc(writes, d, ios, last);
      ios := ios + [last];
    }

    /** The header write that ends a write, one record up if the key is new. */
    method CountWrite(ghost d: Disk, ghost plan: seq<Step>, ghost ios: seq<Io>, isNew: bool, fate: Fate)
      returns (ghost last: Io)
      requires Valid() && |plan| == |ios| + 1
      requires Follows(d, plan[..|ios|], ios) && Replay(d, ios) == Now()
      requires plan[|ios|] == PutHeader(SealedHeader(CountedFor(header, isNew)))
      modifies this`trace, this`header
      ensures trace == old(trace) + [last] && Now() == Replay(d, ios + [last])
      ensures AnsweredBy(fate, old(Now()), last)
      ensures Follows(d, plan, ios + [last])
    {
      hide Matches, After, Replay, Follows, SealedHeader, AnsweredBy;
      var hdr := header;
      if isNew {
        hdr := hdr.(recordCount := (hdr.recordCount + 1) % 0x1_0000_0000);
      }
      last := WriteHeader(hdr, fate);
      Advance(d, plan, ios, last);
      assert plan[..|ios + [last]|] == plan;
    }

    // -------------------------------------------------------------------
    // Delete, repair, scan at open
    // -------------------------------------------------------------------

    method Delete(key: Text, answers: Answers) returns (rc: Status, ghost ios: seq<Io>)
      requires Valid()
      modifies this`trace, this`header, slots
      ensures trace == old(trace) + ios && Now() == Replay(old(Now()), ios)
      ensures Answered(answers.writes, old(Now()), ios)
      ensures DeleteRan(old(Now()), Readable(old(slots[..]), answers.readable), key, ios, rc)
      ensures Flawless(answers, slots.Length) ==>
        Now() == Exec(old(Now()), Op.Delete(key)) && rc == StatusOf(ReplyTo(old(Now()), Op.Delete(key)))
    {
      hide Matches, After, SweepDone, VerifiedCount, DeleteRan, Readable, Answered, AnsweredBy, Whole, Exec, HeaderCrc,
        HolderCount;
      ghost var d := Now();
      var deleted, next;
      deleted, next, ios := RetireCopies(key, answers);
      ghost var view, swept := Readable(d.slots, answers.readable), Now();
      SweepEnd(answers.writes, Retire(key), d, view, ios, swept);
      rc := if deleted > 0 then OK else NOT_FOUND;
      ghost var last := [];
      if deleted > 0 {
        var hdr := header;
        if hdr.recordCount >= deleted {
          hdr := hdr.(recordCount := hdr.recordCount - deleted);
          ghost var io := WriteHeader(hdr, answers.writes(next));
          AnsweredSnoc(answers.writes, d, ios, io);
          last := [io];
        }
      }
      DeleteEnd(answers.writes, d, view, key, ios, swept, deleted, last, rc);
      assert last == [] ==> ios + last == ios;
      ios := ios + last;
      FlawlessDelete(answers, d, key, ios, rc);
    }

    /** Delete's loop: retire every copy that can be read, past any failure. */
    method RetireCopies(key: Text, answers: Answers) returns (deleted: nat, next: nat, ghost ios: seq<Io>)
      requires Valid()
      modifies this`trace, slots
      ensures trace == old(trace) + ios && deleted == VerifiedCount(ios) && next == |ios|
      ensures SweepDone(
        answers.writes, Retire(key), old(Now()), Readable(old(slots[..]), answers.readable), slots.Length, ios, Now())
    {
      hide Matches, After, SweepDone, VerifiedCount, Readable, Unread, Needs, AnsweredBy;
      ghost var d := Now();
      ghost var view := Readable(d.slots, answers.readable);
      deleted, next := 0, 0;
      ios := [];
      SweepStart(answers.writes, Retire(key), d, view);
      VerifiedCountNone();
      for i := 0 to slots.Length
        invariant trace == old(trace) + ios && next == |ios|
        invariant SweepDone(answers.writes, Retire(key), d, view, i, ios, Now())
        invariant deleted == VerifiedCount(ios)
      {
        ReadableAt(d.slots, answers.readable, i);
        if i in answers.readable {
          var done, put;
          ghost var more;
          done, put, more := DeleteSlot(answers.writes, d, view, key, i, next, ios);
          ios := ios + more;
          if put {
            next := next + 1;
          }
          if done {
            deleted := deleted + 1;
          }
        } else {
          UnreadIdle(Retire(key));
          SweepSkip(answers.writes, Retire(key), d, view, i, ios, Now());
        }
      }
    }

    /** One turn of delete's loop; `put` when it wrote, `done` when the write was
        verified. */
    method DeleteSlot(
      writes: nat -> Fate, ghost d: Disk, ghost view: seq<Record>, key: Text, i: nat, next: nat, ghost ios: seq<Io>)
      returns (done: bool, put: bool, ghost more: seq<Io>)
      requires Valid() && i < slots.Length && next == |ios|
      requires SweepDone(writes, Retire(key), d, view, i, ios, Now()) && view[i] == d.slots[i]
      modifies this`trace, slots
      ensures trace == old(trace) + more && |more| == if put then 1 else 0
      ensures SweepDone(writes, Retire(key), d, view, i + 1, ios + more, Now())
      ensures VerifiedCount(ios + more) == VerifiedCount(ios) + if done then 1 else 0
    {
      hide CrcGood, KeyOf, WithState, Matches, After, SweepDone, VerifiedCount, Verified, AnsweredBy;
      var rec := slots[i];
      SweepUntouched(writes, Retire(key), d, view, i, ios, Now());
      if rec.state != SLOT_VALID || !CrcGood(rec) || KeyOf(rec) != key {
        SweepSkip(writes, Retire(key), d, view, i, ios, Now());
        assert ios + [] == ios;
        return false, false, [];
      }
      ghost var b := Now();
      ghost var io;
      var rc;
      rc, io := SetSlotState(i, SLOT_DELETED, writes(next));
      SweepPut(writes, Retire(key), d, view, i, ios, b, io);
      VerifiedCountSnoc(ios, io);
      return rc == OK, true, [io];
    }

    method Repair(answers: Answers) returns (rc: Status, ghost ios: seq<Io>)
      requires Valid()
      modifies this`trace, this`header, slots
      ensures rc == OK
      ensures trace == old(trace) + ios && Now() == Replay(old(Now()), ios)
      ensures Answered(answers.writes, old(Now()), ios)
      ensures var plan := RepairPlan(Part(old(Now()), answers.readable));
        |ios| == |plan| && Follows(old(Now()), plan, ios)
      ensures Flawless(answers, slots.Length) ==> Now() == Exec(old(Now()), Op.RepairAll)
    {
      hide Matches, After, SweepDone, LiveCount, SealedHeader, Readable, Unread, Needs, Live, AnsweredBy,
        Answered, Whole, Exec;
      ghost var d := Now();
      ghost var view := Readable(d.slots, answers.readable);
      var validCount, next := 0, 0;
      ios := [];
      SweepStart(answers.writes, SlotIo.Repair, d, view);
      LiveCountNone(view);
      for i := 0 to slots.Length
        invariant trace == old(trace) + ios && next == |ios|
        invariant SweepDone(answers.writes, SlotIo.Repair, d, view, i, ios, Now())
        invariant validCount == LiveCount(view[..i])
      {
        ReadableAt(d.slots, answers.readable, i);
        LiveCountNext(view, i);
        if i in answers.readable {
          var live, put;
          ghost var more;
          live, put, more := RepairSlot(answers.writes, d, view, i, next, ios);
          ios := ios + more;
          if put {
            next := next + 1;
          }
          if live {
            validCount := validCount + 1;
          }
        } else {
          UnreadIdle(SlotIo.Repair);
          SweepSkip(answers.writes, SlotIo.Repair, d, view, i, ios, Now());
        }
      }
      assert view[..slots.Length] == view;
      SweepEnd(answers.writes, SlotIo.Repair, d, view, ios, Now());
      ghost var last := StoreCount(validCount, answers.writes(next));
      FollowsSnoc(d, SweepPlan(SlotIo.Repair, view, |view|), ios, PutHeader(WithCount(d.header, validCount)), last);
      AnsweredSnoc(answers.writes, d, ios, last);
      ios := ios + [last];
      rc := OK;
      FlawlessOp(answers, d, Op.RepairAll, ios);
    }

    /** One turn of repair's loop; `put` when it wrote, `live` when the slot is
        counted. */
    method RepairSlot(
      writes: nat -> Fate, ghost d: Disk, ghost view: seq<Record>, i: nat, next: nat, ghost ios: seq<Io>)
      returns (live: bool, put: bool, ghost more: seq<Io>)
      requires Valid() && i < slots.Length && next == |ios|
      requires SweepDone(writes, SlotIo.Repair, d, view, i, ios, Now()) && view[i] == d.slots[i]
      modifies this`trace, slots
      ensures trace == old(trace) + more && |more| == if put then 1 else 0
      ensures SweepDone(writes, SlotIo.Repair, d, view, i + 1, ios + more, Now())
      ensures live == Live(d.slots[i])
    {
      hide CrcGood, EmptyRecord, Matches, SweepDone, After, AnsweredBy;
      var rec := slots[i];
      SweepUntouched(writes, SlotIo.Repair, d, view, i, ios, Now());
      live, put := false, false;
      more := [];
      ghost var b := Now();
      ghost var io;
      if rec.state == SLOT_CORRUPT {
        io := PutEmpty(i, writes(next));
        SweepPut(writes, SlotIo.Repair, d, view, i, ios, b, io);
        put, more := true, [io];
      } else if rec.state == SLOT_VALID {
        if !CrcGood(rec) {
          io := PutEmpty(i, writes(next));
          SweepPut(writes, SlotIo.Repair, d, view, i, ios, b, io);
          put, more := true, [io];
        } else {
          SweepSkip(writes, SlotIo.Repair, d, view, i, ios, Now());
          live := true;
          assert ios + [] == ios;
        }
      } else {
        SweepSkip(writes, SlotIo.Repair, d, view, i, ios, Now());
        assert ios + [] == ios;
      }
    }

    method PutEmpty(i: nat, fate: Fate) returns (ghost io: Io)
      requires Valid() && i < slots.Length
      modifies this`trace, slots
      ensures trace == old(trace) + [io] && Matches(old(Now()), PutSlot(i, EmptyRecord()), io)
      ensures AnsweredBy(fate, old(Now()), io)
      ensures Now() == After(old(Now()), io)
    {
      hide Lands, EmptyRecord, Landed;
      var ignored;
      ignored, io := PutSlotBytes(i, EmptyRecord(), fate);
    }

    /** Read the header, set its count, write it back. */
    method StoreCount(count: Uint32, fate: Fate) returns (ghost io: Io)
      requires Valid()
      modifies this`trace, this`header
      ensures trace == old(trace) + [io] && Matches(old(Now()), PutHeader(WithCount(old(header), count)), io)
      ensures AnsweredBy(fate, old(Now()), io)
      ensures Now() == After(old(Now()), io)
    {
      var hdr := header.(recordCount := count);
      io := WriteHeader(hdr, fate);
    }

    /** Open on an existing file: check the header, then scan every slot. The header
        itself may be impossible to read. */
    method ValidateAndScan(answers: Answers) returns (rc: Status, ghost ios: seq<Io>)
      requires Valid()
      modifies this`trace, this`header, slots
      ensures rc == if answers.header then HeaderStatus(old(header)) else ERR
      ensures trace == old(trace) + ios && Now() == Replay(old(Now()), ios)
      ensures Answered(answers.writes, old(Now()), ios)
      ensures rc != OK ==> ios == []
      ensures rc == OK ==>
        var plan := ScanPlan(Part(old(Now()), answers.readable));
        |ios| == |plan| && Follows(old(Now()), plan, ios)
      ensures rc == OK && Flawless(answers, slots.Length) ==> Now() == Exec(old(Now()), Op.Reopen)
    {
      hide Matches, After, SweepDone, LiveCount, HeaderCrc, Readable, Answered, Whole, Exec;
      ghost var d := Now();
      ios := [];
      StartRun(d);
      AnsweredNone(answers.writes, d);
      if !answers.header {
        return ERR, ios;
      }
      if header.magic != MAGIC {
        return CORRUPT, ios;
      }
      if header.crc != HeaderCrc(header) {
        return CORRUPT, ios;
      }
      if header.version != FORMAT_VERSION {
        return ERR, ios;
      }
      rc := OK;
      ios := ScanSlots(answers);
      FlawlessOp(answers, d, Op.Reopen, ios);
    }

    method ScanSlots(answers: Answers) returns (ghost ios: seq<Io>)
      requires Valid()
      modifies this`trace, this`header, slots
      ensures trace == old(trace) + ios && Now() == Replay(old(Now()), ios)
      ensures Answered(answers.writes, old(Now()), ios)
      ensures var plan := ScanPlan(Part(old(Now()), answers.readable));
        |ios| == |plan| && Follows(old(Now()), plan, ios)
    {
      hide Matches, After, SweepDone, LiveCount, WithCount, Readable, Unread, Needs, Live, AnsweredBy, Answered;
      ghost var d := Now();
      ghost var view := Readable(d.slots, answers.readable);
      var validCount, next := 0, 0;
      ios := [];
      SweepStart(answers.writes, Scan, d, view);
      LiveCountNone(view);
      for i := 0 to slots.Length
        invariant trace == old(trace) + ios && next == |ios|
        invariant SweepDone(answers.writes, Scan, d, view, i, ios, Now())
        invariant validCount == LiveCount(view[..i])
      {
        ReadableAt(d.slots, answers.readable, i);
        LiveCountNext(view, i);
        if i in answers.readable {
          var live, put;
          ghost var more;
          live, put, more := ScanSlot(answers.writes, d, view, i, next, ios);
          ios := ios + more;
          if put {
            next := next + 1;
          }
          if live {
            validCount := validCount + 1;
          }
        } else {
          UnreadIdle(Scan);
          SweepSkip(answers.writes, Scan, d, view, i, ios, Now());
        }
      }
      assert view[..slots.Length] == view;
      SweepEnd(answers.writes, Scan, d, view, ios, Now());
      ghost var sweep := SweepPlan(Scan, view, |view|);
      assert sweep + [] == sweep;
      if validCount != header.recordCount {
        ghost var last := StoreCount(validCount, answers.writes(next));
        FollowsSnoc(d, sweep, ios, PutHeader(WithCount(d.header, validCount)), last);
        AnsweredSnoc(answers.writes, d, ios, last);
        ios := ios + [last];
      }
    }

    /** One turn of the scan at open; `put` when it wrote, `live` when the slot is
        counted. */
    method ScanSlot(
      writes: nat -> Fate, ghost d: Disk, ghost view: seq<Record>, i: nat, next: nat, ghost ios: seq<Io>)
      returns (live: bool, put: bool, ghost more: seq<Io>)
      requires Valid() && i < slots.Length && next == |ios|
      requires SweepDone(writes, Scan, d, view, i, ios, Now()) && view[i] == d.slots[i]
      modifies this`trace, slots
      ensures trace == old(trace) + more && |more| == if put then 1 else 0
      ensures SweepDone(writes, Scan, d, view, i + 1, ios + more, Now())
      ensures live == Live(d.slots[i])
    {
      hide CrcGood, WithState, Matches, SweepDone, After, AnsweredBy;
      var rec := slots[i];
      SweepUntouched(writes, Scan, d, view, i, ios, Now());
      if rec.state == SLOT_VALID || rec.state == SLOT_DELETED {
        if !CrcGood(rec) {
          ghost var b := Now();
          ghost var io;
          var ignored;
          ignored, io := SetSlotState(i, SLOT_CORRUPT, writes(next));
          SweepPut(writes, Scan, d, view, i, ios, b, io);
          return false, true, [io];
        }
      }
      SweepSkip(writes, Scan, d, view, i, ios, Now());
      assert ios + [] == ios;
      return rec.state == SLOT_VALID, false, [];
    }

    // -------------------------------------------------------------------
    // Compaction
    // -------------------------------------------------------------------

    /** The live records it can read move to the front; every other record is
        overwritten. On a flawless device every key keeps its value. */
    method Compact(answers: Answers) returns (rc: Status, ghost ios: seq<Io>)
      requires Valid()
      modifies this`trace, this`header, slots
      ensures rc == OK
      ensures trace == old(trace) + ios && Now() == Replay(old(Now()), ios)
      ensures Answered(answers.writes, old(Now()), ios)
      ensures var plan := CompactPlan(Part(old(Now()), answers.readable));
        |ios| == |plan| && Follows(old(Now()), plan, ios)
      ensures Flawless(answers, slots.Length) ==>
        Now() == Exec(old(Now()), Op.Compact) &&
        forall key: Text :: Lookup(slots[..], key) == Lookup(old(slots[..]), key)
    {
      hide Matches, After, Follows, Replay, WithCount, Sources, PackedSlot, LiveCount, Readable, AnsweredBy,
        Answered, Whole, Exec, Lookup;
      ghost var d := Now();
      var valid := CollectLive(answers.readable);
      ghost var view := Readable(d.slots, answers.readable);
      ios := [];
      StartRun(d);
      AnsweredNone(answers.writes, d);
      for i := 0 to slots.Length
        invariant |ios| == i && trace == old(trace) + ios
        invariant Follows(d, PackPlan(view, i), ios) && Now() == Replay(d, ios) && header == d.header
        invariant Answered(answers.writes, d, ios)
      {
        ghost var b := Now();
        ghost var io := PackOne(d, view, valid, i, ios, answers.writes(i));
        AnsweredSnoc(answers.writes, d, ios, io);
        ios := ios + [io];
      }
      SourcesCount(view);
      ghost var last := StoreCount(|valid|, answers.writes(slots.Length));
      FollowsSnoc(d, PackPlan(view, |view|), ios, PutHeader(WithCount(d.header, |valid|)), last);
      AnsweredSnoc(answers.writes, d, ios, last);
      ios := ios + [last];
      rc := OK;
      FlawlessOp(answers, d, Op.Compact, ios);
    }

    /** One rewrite of a compaction; its result is ignored. */
    method PackOne(
      ghost d: Disk, ghost view: seq<Record>, valid: seq<Record>, i: nat, ghost ios: seq<Io>, fate: Fate)
      returns (ghost io: Io)
      requires Valid() && i < slots.Length == |d.slots| == |view|
      requires |valid| == |Sources(view)|
      requires forall j :: 0 <= j < |valid| ==> valid[j] == view[Sources(view)[j]]
      requires |ios| == i && Follows(d, PackPlan(view, i), ios) && Now() == Replay(d, ios)
      modifies this`trace, slots
      ensures trace == old(trace) + [io]
      ensures AnsweredBy(fate, old(Now()), io)
      ensures Follows(d, PackPlan(view, i + 1), ios + [io]) && Now() == Replay(d, ios + [io])
    {
      hide Matches, After, Follows, Replay, Sources, PackedSlot, EmptyRecord, AnsweredBy;
      var src := if i < |valid| then valid[i] else EmptyRecord();
      PackedFrom(view, valid, i);
      ghost var b := Now();
      var ignored;
      ignored, io := PutSlotBytes(i, src, fate);
      SlotEffect(b, PutSlot(i, src), io);
      FollowsSnoc(d, PackPlan(view, i), ios, PutSlot(i, src), io);
      assert PackPlan(view, i) + [PutSlot(i, src)] == PackPlan(view, i + 1);
    }

    /** Copies of the live records that can be read, in scan order. */
    method CollectLive(readable: set<nat>) returns (valid: seq<Record>)
      requires Valid()
      ensures var view := Readable(slots[..], readable);
        |valid| == |Sources(view)| && forall j :: 0 <= j < |valid| ==> valid[j] == view[Sources(view)[j]]
    {
      hide CrcGood, Readable, Unread;
      UnreadIdle(Scan);
      ghost var view := Readable(slots[..], readable);
      valid := [];
      for i := 0 to slots.Length
        invariant |valid| == |Sources(view[..i])|
        invariant forall j :: 0 <= j < |valid| ==> valid[j] == view[Sources(view[..i])[j]]
      {
        ReadableAt(slots[..], readable, i);
        assert view[..i + 1][..i] == view[..i];
        if i in readable {
          var rec := slots[i];
          if rec.state == SLOT_VALID && CrcGood(rec) {
            valid := valid + [rec];
          }
        }
      }
      assert view[..slots.Length] == view;
    }
  }
}
