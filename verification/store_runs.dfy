/** The store's operations with every write landing, and the map they act on. */
module StoreRuns {
  import opened Options
  import opened RecordFormat
  import opened SlotStore
  import opened SlotIo
  import opened Recovery
  import opened CrashSafety
  import opened Compaction

  // ---------------------------------------------------------------------
  // The store as a map
  // ---------------------------------------------------------------------

  function Keys(slots: seq<Record>): set<Text> {
    set i | 0 <= i < |slots| && Live(slots[i]) :: KeyOf(slots[i])
  }

  lemma LookupFinds(slots: seq<Record>, key: Text)
    ensures Lookup(slots, key).Some? <==> key in Keys(slots)
  {
    hide Live, KeyOf, ValueOf, Newest, Time;
    NewestIsMaximal(slots, key);
  }

  ghost function View(slots: seq<Record>): (m: map<Text, Text>)
    ensures forall k: Text :: At(m, k) == Lookup(slots, k)
  {
    var m := map k: Text | k in Keys(slots) ::
      if Lookup(slots, k).Some? then Lookup(slots, k).value else [];
    assert forall k: Text :: At(m, k) == Lookup(slots, k) by {
      forall k: Text
        ensures At(m, k) == Lookup(slots, k)
      {
        hide Lookup, Keys;
        LookupFinds(slots, k);
      }
    }
    m
  }

  lemma ViewIs(slots: seq<Record>, m: map<Text, Text>)
    requires forall k: Text :: Lookup(slots, k) == At(m, k)
    ensures View(slots) == m
  {
    hide Lookup, View;
    var v := View(slots);
    forall k: Text
      ensures (k in v <==> k in m) && (k in v ==> v[k] == m[k])
    {
      assert Lookup(slots, k) == At(v, k) == At(m, k);
    }
    assert v.Keys == m.Keys;
  }

  // ---------------------------------------------------------------------
  // Operations with every write landing
  // ---------------------------------------------------------------------

  datatype Op =
    | Write(key: Text, value: Text, now: bv32)
    | Read(key: Text)
    | Delete(key: Text)
    | RepairAll
    | Compact
    | Reopen

  datatype Reply = Ok | NotFound | Full | BadArg | Found(value: Text)

  function HolderCount(slots: seq<Record>, key: Text): (c: nat)
    ensures c <= |slots|
  {
    if |slots| == 0 then 0
    else HolderCount(slots[..|slots| - 1], key) + if Holds(slots[|slots| - 1], key) then 1 else 0
  }

  function DeletePlan(d: Disk, key: Text): seq<Step> {
    var deleted := HolderCount(d.slots, key);
    SweepPlan(Retire(key), d.slots, |d.slots|) +
    if deleted > 0 && d.header.recordCount >= deleted
    then [PutHeader(WithCount(d.header, d.header.recordCount - deleted))] else []
  }

  function Plan(d: Disk, op: Op): seq<Step>
    requires Fits32(d.slots)
  {
    match op
    case Write(key, value, now) => if GoodArgs(key, value) then WritePlan(d, key, value, now) else []
    case Read(_) => []
    case Delete(key) => DeletePlan(d, key)
    case RepairAll => RepairPlan(d)
    case Compact => CompactPlan(d)
    case Reopen => ScanPlan(d)
  }

  function Exec(d: Disk, op: Op): (e: Disk)
    requires Fits32(d.slots)
    ensures |e.slots| == |d.slots|
  {
    Perform(d, Plan(d, op))
  }

  function ReplyTo(d: Disk, op: Op): Reply {
    match op
    case Write(key, value, _) =>
      if !GoodArgs(key, value) then BadArg else if Target(d.slots, key) == -1 then Full else Ok
    case Read(key) => if Lookup(d.slots, key).Some? then Found(Lookup(d.slots, key).value) else NotFound
    case Delete(key) => if HolderCount(d.slots, key) > 0 then Ok else NotFound
    case _ => Ok
  }

  lemma DeletedIs(d: Disk, key: Text)
    ensures Perform(d, DeletePlan(d, key)).slots == Applied(Retire(key), d.slots)
    ensures Perform(d, DeletePlan(d, key)).header ==
      var n := HolderCount(d.slots, key);
      if n > 0 && d.header.recordCount >= n then WithCount(d.header, d.header.recordCount - n) else d.header
  {
    hide Needs, Rewritten, HolderCount, WithCount, Perform, Applied;
    var sweep := SweepPlan(Retire(key), d.slots, |d.slots|);
    PerformWholeSweep(Retire(key), d);
    assert sweep + [] == sweep;
    var deleted := HolderCount(d.slots, key);
    if deleted > 0 && d.header.recordCount >= deleted {
      PerformSnoc(d, sweep, PutHeader(WithCount(d.header, d.header.recordCount - deleted)));
    }
  }

  lemma {:induction false} HolderCountPositive(slots: seq<Record>, key: Text)
    ensures HolderCount(slots, key) > 0 <==> exists i :: 0 <= i < |slots| && Holds(slots[i], key)
  {
    hide Holds;
    if |slots| > 0 {
      var front := slots[..|slots| - 1];
      HolderCountPositive(front, key);
      if HolderCount(front, key) > 0 {
        var i :| 0 <= i < |front| && Holds(front[i], key);
        assert slots[i] == front[i];
      }
      if i :| 0 <= i < |slots| && Holds(slots[i], key) {
        assert i < |front| ==> front[i] == slots[i];
      }
    }
  }

  // ---------------------------------------------------------------------
  // What any finished operation does to the map
  // ---------------------------------------------------------------------

  function MapAfter(m: map<Text, Text>, op: Op, reply: Reply): map<Text, Text> {
    match op
    case Write(key, value, _) => if reply == Ok then m[key := value] else m
    case Delete(key) => m - {key}
    case _ => m
  }

  /** A write must leave no copy behind that is newer than its own. */
  predicate Timely(d: Disk, op: Op) {
    op.Write? && Target(d.slots, op.key) != -1 ==> SurvivorsOlder(d.slots, op.key, op.now)
  }

  lemma ExecKey(d: Disk, op: Op, key: Text)
    requires Fits32(d.slots) && Timely(d, op)
    ensures Lookup(Exec(d, op).slots, key) == At(MapAfter(View(d.slots), op, ReplyTo(d, op)), key)
  {
    hide Lookup, View, Perform, WritePlan, DeletePlan, RepairPlan, ScanPlan, CompactPlan, Applied, Written,
      Packed, LiveCount, Fits32, Timely, HolderCount, WithCount, CountAfterWrite;
    assert At(View(d.slots), key) == Lookup(d.slots, key);
    match op
    case Write(k, v, now) =>
      if GoodArgs(k, v) {
        PerformWrite(d, k, v, now);
        if Target(d.slots, k) == -1 {
          NoTarget(d.slots, k, v, now);
        } else if key == k {
          TimelyWrite(d, op);
          ReadsBackIff(d.slots, k, v, now);
        } else {
          WriteKeepsOthers(d.slots, k, v, now, key);
        }
      } else {
        PerformNothing(d);
      }
    case Read(_) =>
      PerformNothing(d);
    case Delete(k) =>
      DeletedIs(d, k);
      if key == k {
        DeleteRemoves(d.slots, k);
      } else {
        AppliedIsSwept(Retire(k), d.slots);
        DeleteKeepsOthers(d.slots, Applied(Retire(k), d.slots), k, key);
      }
    case RepairAll =>
      RepairRecovers(d, key);
    case Compact =>
      CompactedIs(d);
      PackedKeepsLookup(d.slots, key);
    case Reopen =>
      OpenRecovers(d, key);
  }

  lemma TimelyWrite(d: Disk, op: Op)
    requires op.Write? && Timely(d, op) && Target(d.slots, op.key) != -1
    ensures SurvivorsOlder(d.slots, op.key, op.now)
  {}

  lemma PerformNothing(d: Disk)
    ensures Perform(d, []) == d
  {}

  lemma NoTarget(slots: seq<Record>, key: Text, value: Text, now: bv32)
    requires GoodArgs(key, value) && Target(slots, key) == -1
    ensures Written(slots, key, value, now) == slots
  {}

  lemma WriteKeepsOthers(slots: seq<Record>, key: Text, value: Text, now: bv32, other: Text)
    requires GoodArgs(key, value) && Target(slots, key) != -1 && other != key
    ensures Lookup(Written(slots, key, value, now), other) == Lookup(slots, other)
  {
    hide Lookup, Lands, NewRecord, WithState, FirstEmpty, LastHolder, Holds;
    var t, o := Target(slots, key), Retired(slots, key);
    var new_ := NewRecord(key, value, now);
    LandsEnds(t, slots[t], new_);
    if o != -1 {
      LandsEnds(o, slots[o], WithState(slots[o], SLOT_DELETED));
    }
    ShapeKeepsOthers(slots, key, value, now, Written(slots, key, value, now), other);
  }

  /** Any finished operation acts on the map as its name says. */
  lemma ExecIsMapStep(d: Disk, op: Op)
    requires Fits32(d.slots) && Timely(d, op)
    ensures View(Exec(d, op).slots) == MapAfter(View(d.slots), op, ReplyTo(d, op))
  {
    hide Lookup, View, Exec, MapAfter, Timely, Fits32, ReplyTo;
    forall k: Text
      ensures Lookup(Exec(d, op).slots, k) == At(MapAfter(View(d.slots), op, ReplyTo(d, op)), k)
    {
      ExecKey(d, op, k);
    }
    ViewIs(Exec(d, op).slots, MapAfter(View(d.slots), op, ReplyTo(d, op)));
  }
}
