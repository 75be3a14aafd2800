/** The store's disk writes, one at a time.

    Every operation is a plan: the writes it intends, in order. A run of a plan
    records what each write left behind, which for a slot may be any torn form;
    a run shorter than its plan is an operation cut off by a crash. */
module SlotIo {
  import opened Crc32
  import opened RecordFormat
  import opened SlotStore

  datatype Disk = Disk(header: Header, slots: seq<Record>)

  datatype Step =
    | PutSlot(i: nat, rec: Record)
    | PutHeader(header: Header)

  /** One performed write. `ok` is what its write, sync and read-back calls reported. */
  datatype Io =
    | SlotIo(i: nat, intended: Record, landed: Record, ok: bool)
    | HeaderIo(header: Header, landedWhole: bool, ok: bool)

  /** What slot `i` may hold after an interrupted write of `new_` over `old_`:
      some of its sectors rewritten, and no mixture passing the CRC by accident. */
  ghost predicate Lands(i: nat, old_: Record, new_: Record, t: Record) {
    (exists landed: set<nat> :: t == Torn(i, landed, old_, new_)) &&
    (t == old_ || t == new_ || !CrcGood(t))
  }

  /** For a state update the CRC condition is a theorem, not an assumption. */
  lemma StateUpdateLands(i: nat, landed: set<nat>, old_: Record, state: Byte)
    ensures Lands(i, old_, WithState(old_, state), Torn(i, landed, old_, WithState(old_, state)))
  {
    TornStateUpdate(i, landed, old_, state);
  }

  lemma LandsEnds(i: nat, old_: Record, new_: Record)
    ensures Lands(i, old_, new_, old_) && Lands(i, old_, new_, new_)
  {
    hide Torn;
    TornNone(i, old_, new_);
    TornAll(i, old_, new_);
  }

  lemma TornNone(i: nat, old_: Record, new_: Record)
    ensures Torn(i, {}, old_, new_) == old_
  {
    assert Mix(i, {}, Encode(old_), Encode(new_)) == Encode(old_);
    DecodeEncode(old_);
  }

  function SectorsOf(i: nat, n: nat): (s: set<nat>)
    ensures forall b :: 0 <= b < n ==> Sector(i, b) in s
  {
    if n == 0 then {} else SectorsOf(i, n - 1) + {Sector(i, n - 1)}
  }

  lemma TornAll(i: nat, old_: Record, new_: Record)
    ensures Torn(i, SectorsOf(i, RECORD_SIZE), old_, new_) == new_
  {
    assert Mix(i, SectorsOf(i, RECORD_SIZE), Encode(old_), Encode(new_)) == Encode(new_);
    DecodeEncode(new_);
  }

  /** Rewriting a slot with what it already holds cannot damage it. */
  lemma LandsSame(i: nat, r: Record, t: Record)
    requires Lands(i, r, r, t)
    ensures t == r
  {
    var landed: set<nat> :| t == Torn(i, landed, r, r);
    TornSame(i, landed, r);
  }

  // ---------------------------------------------------------------------
  // Which rewrites can tear
  // ---------------------------------------------------------------------

  /** However the sectors of a rewrite land, the slot holds the old record, the
      new one, or one that passes its CRC. */
  ghost predicate Untearable(i: nat, old_: Record, new_: Record) {
    forall landed: set<nat> :: NotBroken(Torn(i, landed, old_, new_), old_, new_)
  }

  predicate NotBroken(t: Record, old_: Record, new_: Record) {
    t == old_ || t == new_ || CrcGood(t)
  }

  /** The two mixtures of a slot that lies in two sectors are the only ones to
      look at. */
  predicate CannotTear(i: nat, old_: Record, new_: Record) {
    || Sector(i, 0) == Sector(i, 296)
    || (&& NotBroken(Torn(i, {Sector(i, 0)}, old_, new_), old_, new_)
        && NotBroken(Torn(i, {Sector(i, 296)}, old_, new_), old_, new_))
  }

  lemma UntearableIff(i: nat, old_: Record, new_: Record)
    ensures Untearable(i, old_, new_) <==> CannotTear(i, old_, new_)
  {
    hide Torn, Sector, NotBroken;
    var head, tail := Sector(i, 0), Sector(i, 296);
    EndsNotBroken(old_, new_);
    if CannotTear(i, old_, new_) {
      forall landed: set<nat>
        ensures NotBroken(Torn(i, landed, old_, new_), old_, new_)
      {
        if head in landed && tail in landed {
          TornBySectors(i, landed, SectorsOf(i, RECORD_SIZE), old_, new_);
          TornAll(i, old_, new_);
        } else if head in landed {
          TornBySectors(i, landed, {head}, old_, new_);
        } else if tail in landed {
          TornBySectors(i, landed, {tail}, old_, new_);
        } else {
          TornBySectors(i, landed, {}, old_, new_);
          TornNone(i, old_, new_);
        }
      }
    }
  }

  lemma EndsNotBroken(old_: Record, new_: Record)
    ensures NotBroken(old_, old_, new_) && NotBroken(new_, old_, new_)
  {}

  lemma LandsUntorn(i: nat, old_: Record, new_: Record, t: Record)
    requires Lands(i, old_, new_, t)
    ensures t == old_ || t == new_ || !CrcGood(t)
    ensures CannotTear(i, old_, new_) ==> t == old_ || t == new_
  {
    hide Torn, CrcGood, CannotTear;
    UntearableIff(i, old_, new_);
  }

  /** Sectors whose landing alone leaves a record that fails its CRC. */
  lemma TearingSectors(i: nat, old_: Record, new_: Record) returns (landed: set<nat>)
    requires !CannotTear(i, old_, new_)
    ensures !CrcGood(Torn(i, landed, old_, new_))
    ensures Lands(i, old_, new_, Torn(i, landed, old_, new_))
  {
    hide Torn, CrcGood, Sector;
    landed := if NotBroken(Torn(i, {Sector(i, 0)}, old_, new_), old_, new_) then {Sector(i, 296)} else {Sector(i, 0)};
  }

  function After(d: Disk, io: Io): Disk {
    match io
    case SlotIo(i, _, landed, _) => if i < |d.slots| then d.(slots := d.slots[i := landed]) else d
    case HeaderIo(h, whole, _) => if whole then d.(header := h) else d
  }

  function Replay(d: Disk, ios: seq<Io>): (e: Disk)
    ensures |e.slots| == |d.slots|
  {
    if |ios| == 0 then d else After(Replay(d, ios[..|ios| - 1]), ios[|ios| - 1])
  }

  /** `io` is one way the write `step` can turn out on disk `d`. */
  ghost predicate Matches(d: Disk, step: Step, io: Io) {
    match step
    case PutSlot(i, rec) =>
      io.SlotIo? && io.i == i && io.intended == rec && i < |d.slots| && Lands(i, d.slots[i], rec, io.landed)
    case PutHeader(h) => io.HeaderIo? && io.header == h
  }

  /** `ios` is a run of `plan` on `d`, complete or cut short. */
  ghost predicate Follows(d: Disk, plan: seq<Step>, ios: seq<Io>) {
    |ios| <= |plan| &&
    forall j :: 0 <= j < |ios| ==> Matches(Replay(d, ios[..j]), plan[j], ios[j])
  }

  /** A write that was reported done is done. */
  predicate Honest(io: Io) {
    match io
    case SlotIo(_, intended, landed, ok) => ok ==> landed == intended
    case HeaderIo(_, whole, ok) => ok ==> whole
  }

  predicate AllHonest(ios: seq<Io>) {
    forall j :: 0 <= j < |ios| ==> Honest(ios[j])
  }

  predicate AllOk(ios: seq<Io>) {
    forall j :: 0 <= j < |ios| ==> ios[j].ok
  }

  function Intend(d: Disk, step: Step): Disk {
    match step
    case PutSlot(i, rec) => if i < |d.slots| then d.(slots := d.slots[i := rec]) else d
    case PutHeader(h) => d.(header := h)
  }

  /** The disk after every write of the plan has landed. */
  function Perform(d: Disk, plan: seq<Step>): (e: Disk)
    ensures |e.slots| == |d.slots|
  {
    if |plan| == 0 then d else Intend(Perform(d, plan[..|plan| - 1]), plan[|plan| - 1])
  }

  lemma {:induction false} CleanRun(d: Disk, plan: seq<Step>, ios: seq<Io>)
    requires Follows(d, plan, ios) && |ios| == |plan|
    requires AllHonest(ios) && AllOk(ios)
    ensures Replay(d, ios) == Perform(d, plan)
    decreases |plan|
  {
    hide Lands, Matches, Honest, After, Intend, Replay, Perform;
    if |plan| == 0 {
      NothingDone(d, ios, plan);
    } else {
      var n := |plan| - 1;
      FollowsPrefix(d, plan, ios, n, n);
      CleanRun(d, plan[..n], ios[..n]);
      CleanStep(Replay(d, ios[..n]), plan[n], ios[n]);
      LastDone(d, ios, plan);
    }
  }

  lemma NothingDone(d: Disk, ios: seq<Io>, plan: seq<Step>)
    requires |ios| == 0 && |plan| == 0
    ensures Replay(d, ios) == d == Perform(d, plan)
  {}

  lemma LastDone(d: Disk, ios: seq<Io>, plan: seq<Step>)
    requires |ios| > 0 && |plan| > 0
    ensures Replay(d, ios) == After(Replay(d, ios[..|ios| - 1]), ios[|ios| - 1])
    ensures Perform(d, plan) == Intend(Perform(d, plan[..|plan| - 1]), plan[|plan| - 1])
  {
    hide After, Intend;
  }

  lemma CleanStep(d: Disk, step: Step, io: Io)
    requires Matches(d, step, io) && Honest(io) && io.ok
    ensures After(d, io) == Intend(d, step)
  {
    hide Lands;
  }

  lemma FollowsPrefix(d: Disk, plan: seq<Step>, ios: seq<Io>, m: nat, n: nat)
    requires Follows(d, plan, ios)
    requires n <= |ios| && n <= m <= |plan|
    ensures Follows(d, plan[..m], ios[..n])
  {
    hide Matches;
    forall j | 0 <= j < n
      ensures Matches(Replay(d, ios[..n][..j]), plan[..m][j], ios[..n][j])
    {
      assert ios[..n][..j] == ios[..j];
    }
  }

  lemma FollowsSnoc(d: Disk, plan: seq<Step>, ios: seq<Io>, step: Step, io: Io)
    requires Follows(d, plan, ios) && |ios| == |plan|
    requires Matches(Replay(d, ios), step, io)
    ensures Follows(d, plan + [step], ios + [io])
    ensures Replay(d, ios + [io]) == After(Replay(d, ios), io)
  {
    hide Matches;
    var longer := ios + [io];
    assert longer[..|ios|] == ios;
    forall j | 0 <= j < |longer|
      ensures Matches(Replay(d, longer[..j]), (plan + [step])[j], longer[j])
    {
      assert longer[..j] == ios[..j];
      if j == |ios| {
        assert ios[..j] == ios;
      }
    }
  }

  // ---------------------------------------------------------------------
  // Sweeps: scan at open, repair, delete
  // ---------------------------------------------------------------------

  /** The three operations that walk the slots once and rewrite some of them. */
  datatype Rule = Scan | Repair | Retire(key: Text)

  predicate Needs(rule: Rule, r: Record) {
    match rule
    case Scan => (r.state == SLOT_VALID || r.state == SLOT_DELETED) && !CrcGood(r)
    case Repair => r.state == SLOT_CORRUPT || (r.state == SLOT_VALID && !CrcGood(r))
    case Retire(key) => Holds(r, key)
  }

  function Rewritten(rule: Rule, r: Record): Record {
    match rule
    case Scan => WithState(r, SLOT_CORRUPT)
    case Repair => EmptyRecord()
    case Retire(_) => WithState(r, SLOT_DELETED)
  }

  /** The slot writes a sweep makes while passing the first `n` slots. */
  function SweepPlan(rule: Rule, slots: seq<Record>, n: nat): seq<Step>
    requires n <= |slots|
  {
    if n == 0 then []
    else
      SweepPlan(rule, slots, n - 1) +
      if Needs(rule, slots[n - 1]) then [PutSlot(n - 1, Rewritten(rule, slots[n - 1]))] else []
  }

  /** Slots after a sweep, whole or cut short, with writes that may have torn. */
  ghost predicate Swept(rule: Rule, a: seq<Record>, b: seq<Record>) {
    |a| == |b| &&
    forall j :: 0 <= j < |a| ==>
      b[j] == a[j] || (Needs(rule, a[j]) && Lands(j, a[j], Rewritten(rule, a[j]), b[j]))
  }

  lemma SweepExtend(rule: Rule, a: seq<Record>, b: seq<Record>, n: nat, t: Record)
    requires Swept(rule, a, b)
    requires n < |a| && b[n] == a[n]
    requires Needs(rule, a[n]) && Lands(n, a[n], Rewritten(rule, a[n]), t)
    ensures Swept(rule, a, b[n := t])
  {
    hide Lands, Needs, Rewritten;
  }

  lemma ReplayLast(d: Disk, ios: seq<Io>, step: Step)
    requires |ios| > 0 && Matches(Replay(d, ios[..|ios| - 1]), step, ios[|ios| - 1])
    requires step.PutSlot?
    ensures var b, io := Replay(d, ios[..|ios| - 1]), ios[|ios| - 1];
      && io.SlotIo? && step.i < |d.slots|
      && Lands(step.i, b.slots[step.i], step.rec, io.landed)
      && Replay(d, ios) == b.(slots := b.slots[step.i := io.landed])
  {
    hide Lands;
  }

  lemma HeaderLast(d: Disk, ios: seq<Io>, h: Header)
    requires |ios| > 0 && Matches(Replay(d, ios[..|ios| - 1]), PutHeader(h), ios[|ios| - 1])
    ensures Replay(d, ios).slots == Replay(d, ios[..|ios| - 1]).slots
  {}

  /** A run of the sweep planned from `view`, which may leave out slots. */
  lemma {:induction false} SweepRun(rule: Rule, d: Disk, view: seq<Record>, n: nat, ios: seq<Io>)
    requires n <= |view| == |d.slots|
    requires forall j :: 0 <= j < |view| ==> view[j] == d.slots[j] || !Needs(rule, view[j])
    requires Follows(d, SweepPlan(rule, view, n), ios)
    ensures Replay(d, ios).header == d.header
    ensures Swept(rule, d.slots, Replay(d, ios).slots)
    ensures forall j :: n <= j < |d.slots| ==> Replay(d, ios).slots[j] == d.slots[j]
    decreases n
  {
    hide Lands, Needs, Rewritten, Replay, Matches, Swept, After;
    if n == 0 {
      assert ios == [];
      ReplayNone(rule, d);
    } else {
      var plan, front := SweepPlan(rule, view, n), SweepPlan(rule, view, n - 1);
      var m := |front|;
      if |ios| <= m {
        FollowsPrefix(d, plan, ios, m, |ios|);
        assert plan[..m] == front && ios[..|ios|] == ios;
        SweepRun(rule, d, view, n - 1, ios);
      } else {
        FollowsPrefix(d, plan, ios, m, m);
        assert plan[..m] == front;
        SweepRun(rule, d, view, n - 1, ios[..m]);
        assert |ios| == m + 1;
        ReplayLast(d, ios, plan[m]);
        SweepExtend(rule, d.slots, Replay(d, ios[..m]).slots, n - 1, ios[m].landed);
      }
    }
  }

  lemma ReplayNone(rule: Rule, d: Disk)
    ensures Replay(d, []) == d
    ensures Swept(rule, d.slots, d.slots)
  {}
}
