/** Runs without crashes: the store is exactly a map with a budget of slots,
    whatever the clock returns. */
module CrashFree {
  import opened Options
  import opened Crc32
  import opened RecordFormat
  import opened SlotStore
  import opened SlotIo
  import opened Recovery
  import opened CrashSafety
  import opened Compaction
  import opened StoreRuns

  // ---------------------------------------------------------------------
  // What every crash-free run keeps
  // ---------------------------------------------------------------------

  predicate Sound(r: Record) {
    CrcGood(r) && (r.state == SLOT_EMPTY || r.state == SLOT_VALID || r.state == SLOT_DELETED)
  }

  predicate AllSound(slots: seq<Record>) {
    forall i :: 0 <= i < |slots| ==> Sound(slots[i])
  }

  /** Every slot sound, one live record per key, and a header count that is
      the number of VALID slots. */
  predicate Inv(d: Disk) {
    && Fits32(d.slots) && AllSound(d.slots) && UniqueKeys(d.slots)
    && d.header.capacity == |d.slots|
    && d.header.recordCount == StateCount(d.slots, SLOT_VALID)
  }

  /** The store seen by its callers: the map, the number of EMPTY slots, and the
      fixed number of slots. */
  datatype Spec = Spec(contents: map<Text, Text>, free: nat, capacity: nat)

  ghost function Abs(d: Disk): Spec {
    Spec(View(d.slots), StateCount(d.slots, SLOT_EMPTY), |d.slots|)
  }

  function SpecStep(s: Spec, op: Op): Spec {
    match op
    case Write(key, value, _) =>
      if !GoodArgs(key, value) || (s.free == 0 && key !in s.contents) then s
      else s.(contents := s.contents[key := value], free := if s.free == 0 then 0 else s.free - 1)
    case Delete(key) => s.(contents := s.contents - {key})
    case Compact => s.(free := if |s.contents| <= s.capacity then s.capacity - |s.contents| else 0)
    case _ => s
  }

  function SpecReply(s: Spec, op: Op): Reply {
    match op
    case Write(key, value, _) =>
      if !GoodArgs(key, value) then BadArg else if s.free == 0 && key !in s.contents then Full else Ok
    case Read(key) => if key in s.contents then Found(s.contents[key]) else NotFound
    case Delete(key) => if key in s.contents then Ok else NotFound
    case _ => Ok
  }

  // ---------------------------------------------------------------------
  // Counting slots
  // ---------------------------------------------------------------------

  lemma {:induction false} StateCountUpdate(slots: seq<Record>, i: nat, r: Record, state: Byte)
    requires i < |slots|
    ensures StateCount(slots[i := r], state) ==
      StateCount(slots, state) - (if slots[i].state == state then 1 else 0) + (if r.state == state then 1 else 0)
    decreases |slots|
  {
    var n := |slots| - 1;
    if i < n {
      assert slots[i := r][..n] == slots[..n][i := r];
      StateCountUpdate(slots[..n], i, r, state);
    } else {
      assert slots[i := r][..n] == slots[..n];
    }
  }

  lemma {:induction false} NoneEmpty(slots: seq<Record>)
    ensures StateCount(slots, SLOT_EMPTY) == 0 <==> FirstEmpty(slots) == -1
    decreases |slots|
  {
    if |slots| > 0 {
      NoneEmpty(slots[..|slots| - 1]);
    }
  }

  lemma SoundLive(r: Record)
    requires Sound(r)
    ensures Live(r) <==> r.state == SLOT_VALID
  {}

  lemma {:induction false} SoundCounts(slots: seq<Record>)
    requires AllSound(slots)
    ensures LiveCount(slots) == StateCount(slots, SLOT_VALID)
    ensures StateCount(slots, SLOT_CORRUPT) == 0
    ensures StateCount(slots, SLOT_EMPTY) + StateCount(slots, SLOT_VALID) + StateCount(slots, SLOT_DELETED) == |slots|
    decreases |slots|
  {
    hide CrcGood, Live;
    if |slots| > 0 {
      var n := |slots| - 1;
      assert Sound(slots[n]);
      SoundLive(slots[n]);
      SoundCounts(slots[..n]);
    }
  }

  lemma {:induction false} KeysCount(slots: seq<Record>)
    requires UniqueKeys(slots)
    ensures |Keys(slots)| == LiveCount(slots)
    decreases |slots|
  {
    hide Live, KeyOf;
    if |slots| == 0 {
      assert Keys(slots) == {};
    } else {
      var n := |slots| - 1;
      var front := slots[..n];
      KeysCount(front);
      if Live(slots[n]) {
        assert Keys(slots) == Keys(front) + {KeyOf(slots[n])} by {
          KeysSplit(slots);
        }
        assert KeyOf(slots[n]) !in Keys(front);
      } else {
        assert Keys(slots) == Keys(front) by {
          KeysSplit(slots);
        }
      }
    }
  }

  lemma KeysSplit(slots: seq<Record>)
    requires |slots| > 0
    ensures var n := |slots| - 1;
      Keys(slots) == Keys(slots[..n]) + if Live(slots[n]) then {KeyOf(slots[n])} else {}
  {
    hide Live, KeyOf;
    var n := |slots| - 1;
    var both := Keys(slots[..n]) + if Live(slots[n]) then {KeyOf(slots[n])} else {};
    forall k: Text
      ensures k in Keys(slots) <==> k in both
    {
      if k in Keys(slots) {
        var i :| 0 <= i < |slots| && Live(slots[i]) && KeyOf(slots[i]) == k;
        assert i < n ==> slots[..n][i] == slots[i];
      }
      if k in Keys(slots[..n]) {
        var i :| 0 <= i < n && Live(slots[..n][i]) && KeyOf(slots[..n][i]) == k;
        assert slots[i] == slots[..n][i];
      }
    }
  }

  lemma ViewSize(slots: seq<Record>)
    requires UniqueKeys(slots)
    ensures |View(slots)| == LiveCount(slots)
  {
    hide View, Lookup, Keys, UniqueKeys, LiveCount;
    forall k: Text
      ensures k in View(slots).Keys <==> k in Keys(slots)
    {
      LookupFinds(slots, k);
      assert At(View(slots), k) == Lookup(slots, k);
    }
    assert View(slots).Keys == Keys(slots);
    KeysCount(slots);
  }

  lemma HolderInView(slots: seq<Record>, key: Text)
    ensures LastHolder(slots, key) == -1 <==> key !in View(slots)
    ensures HolderCount(slots, key) > 0 <==> key in View(slots)
  {
    hide View, Live, KeyOf, ValueOf, Newest, LastHolder, HolderCount;
    NewestIsMaximal(slots, key);
    HolderCountPositive(slots, key);
    assert At(View(slots), key) == Lookup(slots, key);
  }

  // ---------------------------------------------------------------------
  // Each operation keeps the invariant and the budget
  // ---------------------------------------------------------------------

  lemma SoundNew(key: Text, value: Text, now: bv32)
    requires GoodArgs(key, value)
    ensures Sound(NewRecord(key, value, now)) && NewRecord(key, value, now).state == SLOT_VALID
  {
    hide RecordCrc, TextOf, Padded;
    NewRecordIs(key, value, now);
  }

  lemma SoundRetired(r: Record)
    ensures Sound(WithState(r, SLOT_DELETED)) && WithState(r, SLOT_DELETED).state == SLOT_DELETED
  {
    hide RecordCrc;
    SealedIsGood(r.(state := SLOT_DELETED));
  }

  lemma SoundEmpty()
    ensures Sound(EmptyRecord()) && EmptyRecord().state == SLOT_EMPTY
  {
    hide RecordCrc;
    SealedIsGood(Record(SLOT_EMPTY, [0, 0, 0], 0, seq(KEY_MAX, _ => 0), seq(VALUE_MAX, _ => 0), 0));
  }

  lemma WriteKeepsInv(d: Disk, key: Text, value: Text, now: bv32)
    requires Inv(d) && GoodArgs(key, value)
    ensures var e := Perform(d, WritePlan(d, key, value, now));
      && Inv(e)
      && StateCount(e.slots, SLOT_EMPTY) == StateCount(d.slots, SLOT_EMPTY) - if FirstEmpty(d.slots) != -1 then 1 else 0
  {
    hide CrcGood, KeyOf, NewRecord, WithState, WithCount, FirstEmpty, LastHolder, StateCount, Sound, Perform, WritePlan;
    PerformWrite(d, key, value, now);
    var t, o := Target(d.slots, key), Retired(d.slots, key);
    if t != -1 {
      var new_ := NewRecord(key, value, now);
      SoundNew(key, value, now);
      NewRecordIs(key, value, now);
      SoundCounts(d.slots);
      var one := d.slots[t := new_];
      StateCountUpdate(d.slots, t, new_, SLOT_EMPTY);
      StateCountUpdate(d.slots, t, new_, SLOT_VALID);
      CountedHeader(d.header, CountAfterWrite(d, key));
      if o != -1 {
        var gone := WithState(d.slots[o], SLOT_DELETED);
        SoundRetired(d.slots[o]);
        StateCountUpdate(one, o, gone, SLOT_EMPTY);
        StateCountUpdate(one, o, gone, SLOT_VALID);
      }
      WrittenUnique(d.slots, key, value, now);
      LiveStates(d.slots);
    }
  }

  lemma CountedHeader(h: Header, count: Uint32)
    ensures WithCount(h, count).recordCount == count && WithCount(h, count).capacity == h.capacity
  {}

  lemma LiveStates(slots: seq<Record>)
    ensures forall i :: 0 <= i < |slots| && Live(slots[i]) ==> slots[i].state == SLOT_VALID
  {}

  lemma WrittenUnique(slots: seq<Record>, key: Text, value: Text, now: bv32)
    requires UniqueKeys(slots) && GoodArgs(key, value) && Target(slots, key) != -1
    ensures UniqueKeys(Written(slots, key, value, now))
  {
    hide Live, KeyOf, NewRecord, WithState, FirstEmpty, LastHolder;
    var after := Written(slots, key, value, now);
    var t, o := Target(slots, key), Retired(slots, key);
    NewRecordIs(key, value, now);
    if o != -1 {
      RetiredStateDead(slots[o]);
    }
    assert forall j :: 0 <= j < |slots| && j != t && Live(after[j]) ==> after[j] == slots[j] && j != o;
    forall j | 0 <= j < |slots| && j != t && Live(after[j])
      ensures KeyOf(after[j]) != key
    {
      var last := LastHolder(slots, key);
      assert last != -1 ==> Holds(slots[last], key);
    }
    forall i, j | 0 <= i < j < |after| && Live(after[i]) && Live(after[j])
      ensures KeyOf(after[i]) != KeyOf(after[j])
    {
    }
  }

  lemma {:induction false} RetireCounts(slots: seq<Record>, key: Text)
    ensures StateCount(Applied(Retire(key), slots), SLOT_VALID) ==
      StateCount(slots, SLOT_VALID) - HolderCount(slots, key)
    ensures StateCount(Applied(Retire(key), slots), SLOT_EMPTY) == StateCount(slots, SLOT_EMPTY)
    decreases |slots|
  {
    hide CrcGood, KeyOf, WithState;
    if |slots| > 0 {
      var n := |slots| - 1;
      RetireCounts(slots[..n], key);
      SoundRetired(slots[n]);
      assert Applied(Retire(key), slots)[..n] == Applied(Retire(key), slots[..n]);
    }
  }

  lemma DeleteKeepsInv(d: Disk, key: Text)
    requires Inv(d)
    ensures var e := Perform(d, DeletePlan(d, key));
      Inv(e) && StateCount(e.slots, SLOT_EMPTY) == StateCount(d.slots, SLOT_EMPTY)
  {
    hide CrcGood, KeyOf, WithCount, StateCount, Perform, DeletePlan, WithState, HolderCount;
    DeletedIs(d, key);
    RetireCounts(d.slots, key);
    CountedHeader(d.header, d.header.recordCount);
    if d.header.recordCount >= HolderCount(d.slots, key) {
      CountedHeader(d.header, d.header.recordCount - HolderCount(d.slots, key));
    }
    var after := Applied(Retire(key), d.slots);
    forall i | 0 <= i < |after|
      ensures Sound(after[i]) && (Live(after[i]) ==> after[i] == d.slots[i])
    {
      assert Sound(d.slots[i]);
      SoundRetired(d.slots[i]);
      RetiredStateDead(d.slots[i]);
    }
    forall i, j | 0 <= i < j < |after| && Live(after[i]) && Live(after[j])
      ensures KeyOf(after[i]) != KeyOf(after[j])
    {
    }
  }

  lemma SoundNeedsNothing(rule: Rule, slots: seq<Record>)
    requires AllSound(slots) && (rule.Scan? || rule.Repair?)
    ensures Applied(rule, slots) == slots
  {
    hide CrcGood;
    forall i | 0 <= i < |slots|
      ensures !Needs(rule, slots[i])
    {
      assert Sound(slots[i]);
    }
  }

  lemma StateCountNone(slots: seq<Record>, state: Byte)
    ensures StateCount(slots[..0], state) == 0
  {}

  lemma StateCountLast(slots: seq<Record>, n: nat, state: Byte)
    requires n < |slots|
    ensures StateCount(slots[..n + 1], state) ==
      StateCount(slots[..n], state) + if slots[n].state == state then 1 else 0
  {
    assert slots[..n + 1][..n] == slots[..n];
  }

  lemma PackedSlotState(slots: seq<Record>, i: nat)
    requires i < |slots|
    ensures Packed(slots)[i].state == if i < |Sources(slots)| then SLOT_VALID else SLOT_EMPTY
  {
    hide CrcGood, Sources, EmptyRecord, Packed;
    PackedAt(slots, i);
    SoundEmpty();
  }

  lemma {:induction false} PackedCounts(slots: seq<Record>, n: nat)
    requires n <= |slots|
    ensures var live := if n <= |Sources(slots)| then n else |Sources(slots)|;
      && StateCount(Packed(slots)[..n], SLOT_VALID) == live
      && StateCount(Packed(slots)[..n], SLOT_EMPTY) == n - live
    decreases n
  {
    hide Sources, Packed, StateCount;
    if n == 0 {
      StateCountNone(Packed(slots), SLOT_VALID);
      StateCountNone(Packed(slots), SLOT_EMPTY);
    } else {
      PackedCounts(slots, n - 1);
      PackedSlotState(slots, n - 1);
      StateCountLast(Packed(slots), n - 1, SLOT_VALID);
      StateCountLast(Packed(slots), n - 1, SLOT_EMPTY);
    }
  }

  lemma PackedSound(slots: seq<Record>)
    requires AllSound(slots) && UniqueKeys(slots)
    ensures AllSound(Packed(slots)) && UniqueKeys(Packed(slots))
  {
    hide Sound, Live, KeyOf, Sources, EmptyRecord, Packed;
    var after, p := Packed(slots), Sources(slots);
    SoundEmpty();
    EmptyDead();
    forall i | 0 <= i < |after|
      ensures Sound(after[i]) && (Live(after[i]) ==> i < |p| && after[i] == slots[p[i]])
    {
      PackedAt(slots, i);
      assert i < |p| ==> Sound(slots[p[i]]);
    }
    forall i, j | 0 <= i < j < |after| && Live(after[i]) && Live(after[j])
      ensures KeyOf(after[i]) != KeyOf(after[j])
    {
      assert p[i] < p[j];
    }
  }

  lemma CompactKeepsInv(d: Disk)
    requires Inv(d)
    ensures Inv(Compacted(d))
    ensures StateCount(Compacted(d).slots, SLOT_EMPTY) == |d.slots| - LiveCount(d.slots)
  {
    hide AllSound, UniqueKeys, WithCount, StateCount, Compacted, Sources, LiveCount, Packed;
    CompactedIs(d);
    var after := Packed(d.slots);
    PackedCounts(d.slots, |d.slots|);
    assert after[..|d.slots|] == after;
    SourcesCount(d.slots);
    CountedHeader(d.header, LiveCount(d.slots));
    PackedSound(d.slots);
  }

  lemma QuietKeepsInv(d: Disk)
    requires Inv(d)
    ensures Repaired(d).slots == d.slots && Inv(Repaired(d))
    ensures Scanned(d) == d
  {
    hide CrcGood, KeyOf, WithCount, StateCount, Repaired, Scanned, LiveCount;
    RepairedIs(d);
    ScannedIs(d);
    SoundNeedsNothing(Repair, d.slots);
    SoundNeedsNothing(Scan, d.slots);
    SoundCounts(d.slots);
    CountedHeader(d.header, LiveCount(d.slots));
  }

  // ---------------------------------------------------------------------
  // Refinement
  // ---------------------------------------------------------------------

  lemma UniqueIsTimely(d: Disk, op: Op)
    requires Inv(d)
    ensures Fits32(d.slots) && Timely(d, op)
  {
    hide AllSound, UniqueKeys, SurvivorsOlder;
    if op.Write? {
      SurvivorsOlderWhen(d.slots, op.key, op.now);
    }
  }

  /** One operation: the invariant is kept, the reply is the map's, and the map
      and the slot budget move as specified, for every clock value. */
  lemma StepRefines(d: Disk, op: Op)
    requires Inv(d)
    ensures Inv(Exec(d, op))
    ensures Abs(Exec(d, op)) == SpecStep(Abs(d), op)
    ensures ReplyTo(d, op) == SpecReply(Abs(d), op)
  {
    hide Inv, View, StateCount, Perform, WritePlan, DeletePlan, RepairPlan, CompactPlan, ScanPlan, Lookup,
      FirstEmpty, LastHolder, HolderCount, Timely, Repaired, Scanned, Compacted;
    UniqueIsTimely(d, op);
    ExecIsMapStep(d, op);
    NoneEmpty(d.slots);
    match op
    case Write(key, value, now) =>
      HolderInView(d.slots, key);
      if GoodArgs(key, value) {
        WriteKeepsInv(d, key, value, now);
      } else {
        PerformNothing(d);
      }
    case Read(key) =>
      PerformNothing(d);
      assert At(View(d.slots), key) == Lookup(d.slots, key);
    case Delete(key) =>
      HolderInView(d.slots, key);
      DeleteKeepsInv(d, key);
    case RepairAll =>
      QuietKeepsInv(d);
      RepairedUnfold(d);
    case Compact =>
      CompactKeepsInv(d);
      InvUnique(d);
      ViewSize(d.slots);
      CompactedUnfold(d);
    case Reopen =>
      QuietKeepsInv(d);
      ScannedUnfold(d);
  }

  lemma InvUnique(d: Disk)
    requires Inv(d)
    ensures UniqueKeys(d.slots)
  {}

  lemma RepairedUnfold(d: Disk)
    requires Fits32(d.slots)
    ensures Repaired(d) == Perform(d, RepairPlan(d))
  {}

  lemma ScannedUnfold(d: Disk)
    requires Fits32(d.slots)
    ensures Scanned(d) == Perform(d, ScanPlan(d))
  {}

  lemma CompactedUnfold(d: Disk)
    requires Fits32(d.slots)
    ensures Compacted(d) == Perform(d, CompactPlan(d))
  {}

  /** A newly created file: the header and `capacity` EMPTY slots. */
  function Created(capacity: Uint32): Disk {
    Disk(NewHeader(capacity), Empties(capacity))
  }

  function Empties(n: nat): (s: seq<Record>)
    ensures |s| == n && forall i :: 0 <= i < n ==> s[i] == EmptyRecord()
  {
    seq(n, _ => EmptyRecord())
  }

  lemma {:induction false} EmptySlots(slots: seq<Record>)
    requires forall i :: 0 <= i < |slots| ==> slots[i] == EmptyRecord()
    ensures StateCount(slots, SLOT_EMPTY) == |slots| && StateCount(slots, SLOT_VALID) == 0
  {
    hide EmptyRecord;
    SoundEmpty();
    if |slots| > 0 {
      EmptySlots(slots[..|slots| - 1]);
    }
  }

  lemma CreatedSlots(capacity: Uint32)
    ensures var slots := Created(capacity).slots;
      && AllSound(slots) && UniqueKeys(slots)
      && (forall i, k: Text :: 0 <= i < |slots| ==> !Holds(slots[i], k))
  {
    hide EmptyRecord, Empties, Sound, Live, KeyOf, NewHeader;
    SoundEmpty();
    EmptyDead();
  }

  lemma CreatedIsEmpty(capacity: Uint32)
    requires capacity < 0x8000_0000
    ensures Inv(Created(capacity))
    ensures Abs(Created(capacity)) == Spec(map[], capacity, capacity)
  {
    hide AllSound, UniqueKeys, StateCount, View, Lookup, EmptyRecord, Empties, SealedHeader, Holds;
    var slots := Created(capacity).slots;
    CreatedSlots(capacity);
    EmptySlots(slots);
    CreatedHeader(capacity);
    forall k: Text
      ensures Lookup(slots, k) == At(map[], k)
    {
      LookupNothing(slots, k);
    }
    ViewIs(slots, map[]);
  }

  lemma CreatedHeader(capacity: Uint32)
    ensures NewHeader(capacity).capacity == capacity && NewHeader(capacity).recordCount == 0
  {
    hide HeaderCrc;
  }

  function RunOps(d: Disk, ops: seq<Op>): (e: Disk)
    requires Fits32(d.slots)
    ensures |e.slots| == |d.slots|
    decreases |ops|
  {
    if |ops| == 0 then d else RunOps(Exec(d, ops[0]), ops[1..])
  }

  function RunReplies(d: Disk, ops: seq<Op>): seq<Reply>
    requires Fits32(d.slots)
    decreases |ops|
  {
    if |ops| == 0 then [] else [ReplyTo(d, ops[0])] + RunReplies(Exec(d, ops[0]), ops[1..])
  }

  function SpecRun(s: Spec, ops: seq<Op>): Spec
    decreases |ops|
  {
    if |ops| == 0 then s else SpecRun(SpecStep(s, ops[0]), ops[1..])
  }

  function SpecReplies(s: Spec, ops: seq<Op>): seq<Reply>
    decreases |ops|
  {
    if |ops| == 0 then [] else [SpecReply(s, ops[0])] + SpecReplies(SpecStep(s, ops[0]), ops[1..])
  }

  /** Any interleaving of operations refines the map with its slot budget: same
      contents, same replies (FULL included), same number of EMPTY slots, and a
      header count that never drifts. */
  lemma {:induction false} RunRefines(d: Disk, ops: seq<Op>)
    requires Inv(d)
    ensures Inv(RunOps(d, ops))
    ensures Abs(RunOps(d, ops)) == SpecRun(Abs(d), ops)
    ensures RunReplies(d, ops) == SpecReplies(Abs(d), ops)
    decreases |ops|
  {
    hide Abs, Exec, SpecStep, SpecReply, ReplyTo;
    if |ops| > 0 {
      StepRefines(d, ops[0]);
      RunRefines(Exec(d, ops[0]), ops[1..]);
    }
  }

  lemma NewStoreRefines(capacity: Uint32, ops: seq<Op>)
    requires capacity < 0x8000_0000
    ensures Inv(RunOps(Created(capacity), ops))
    ensures Abs(RunOps(Created(capacity), ops)) == SpecRun(Spec(map[], capacity, capacity), ops)
    ensures RunReplies(Created(capacity), ops) == SpecReplies(Spec(map[], capacity, capacity), ops)
  {
    hide Abs, SpecRun, SpecReplies, RunOps, RunReplies, Created;
    CreatedIsEmpty(capacity);
    RunRefines(Created(capacity), ops);
  }

  /** The header count and the four state counts, at every point of every run. */
  lemma CountsAdd(d: Disk)
    requires Inv(d)
    ensures d.header.recordCount == StateCount(d.slots, SLOT_VALID) == LiveCount(d.slots) == |View(d.slots)|
    ensures StateCount(d.slots, SLOT_EMPTY) + StateCount(d.slots, SLOT_VALID) + StateCount(d.slots, SLOT_DELETED)
      + StateCount(d.slots, SLOT_CORRUPT) == d.header.capacity
  {
    hide StateCount, View, LiveCount, CrcGood, Live, KeyOf;
    SoundCounts(d.slots);
    ViewSize(d.slots);
  }

  // ---------------------------------------------------------------------
  // The budget after compaction
  // ---------------------------------------------------------------------

  predicate AllWrites(ops: seq<Op>) {
    forall i :: 0 <= i < |ops| ==> ops[i].Write? && GoodArgs(ops[i].key, ops[i].value)
  }

  lemma {:induction false} WritesSpend(s: Spec, ops: seq<Op>)
    requires AllWrites(ops) && |ops| <= s.free
    ensures SpecRun(s, ops).free == s.free - |ops|
    ensures SpecReplies(s, ops) == seq(|ops|, _ => Ok)
    decreases |ops|
  {
    if |ops| > 0 {
      WritesSpend(SpecStep(s, ops[0]), ops[1..]);
    }
  }

  /** After a compaction with n live records exactly capacity - n further writes
      go out of place, whatever their keys: each succeeds and uses one slot. */
  lemma BudgetAfterCompact(d: Disk, ops: seq<Op>)
    requires Inv(d) && AllWrites(ops)
    requires |ops| <= |d.slots| - |View(d.slots)|
    ensures RunReplies(Exec(d, Compact), ops) == seq(|ops|, _ => Ok)
    ensures StateCount(RunOps(Exec(d, Compact), ops).slots, SLOT_EMPTY) == |d.slots| - |View(d.slots)| - |ops|
  {
    hide View, StateCount, Exec, ReplyTo, SpecRun, SpecReplies, RunOps, RunReplies, AllSound, UniqueKeys, AllWrites;
    StepRefines(d, Compact);
    WritesSpend(Abs(Exec(d, Compact)), ops);
    RunRefines(Exec(d, Compact), ops);
  }

  /** With the budget spent a write of a new key is refused, and a write of a
      known key succeeds in place. */
  lemma WhenSpent(d: Disk, key: Text, value: Text, now: bv32)
    requires Inv(d) && GoodArgs(key, value)
    requires StateCount(d.slots, SLOT_EMPTY) == 0
    ensures ReplyTo(d, Write(key, value, now)) == if key in View(d.slots) then Ok else Full
    ensures Target(d.slots, key) == LastHolder(d.slots, key) && Retired(d.slots, key) == -1
  {
    hide View, StateCount, Exec, AllSound, UniqueKeys, LastHolder, FirstEmpty;
    NoneEmpty(d.slots);
    HolderInView(d.slots, key);
  }
}
