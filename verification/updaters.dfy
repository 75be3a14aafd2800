/** Concurrent `config_update_key` calls as a state machine: any number of
    processes, each able to die at any step, and power loss at any moment. */
module Updaters {
  import opened Options
  import opened CStrings
  import opened ConfigText

  /** `synced`: the whole text is on stable storage. */
  datatype Inode = Inode(text: string, synced: bool)

  /** One value the config file's directory entry has had; `mark` counts the
      updates its content includes. */
  datatype Entry = Entry(inode: Option<Inode>, mark: nat)

  /** `got` is how many bytes of the file the call managed to read. */
  datatype Update = Update(pid: nat, key: string, value: string, got: nat)

  datatype Proc =
    | Waiting(key: string, value: string)                        // opening and locking the lock file
    | Locked(key: string, value: string)
    | Deciding(key: string, value: string, got: nat, cfg: seq<Pair>)  // config read
    | Writing(key: string, value: string, got: nat, goal: string, tmp: Inode)
    | Renamed(key: string, value: string, got: nat)              // directory not yet synced
    | Finished(key: string, value: string, got: nat, rc: int)    // about to unlock and return

  /** `entries` are the directory entry's values since the last reboot, oldest
      first; those from `committed` on may be what the disk holds. */
  datatype State = State(entries: seq<Entry>, committed: nat, lock: Option<nat>,
                         procs: map<nat, Proc>, log: seq<Update>)

  datatype Action =
    | Begin(p: nat, key: string, value: string)
    | Acquire(p: nat)
    | ReadConfig(p: nat, got: nat)                               // a failing read stops after `got` bytes
    | Decide(p: nat)
    | WriteMore(p: nat, text: string)
    | Sync(p: nat)
    | RenameOver(p: nat)
    | SyncDirectory(p: nat, ok: bool)
    | Fail(p: nat)                                               // create, flush, sync or rename fails
    | Release(p: nat)
    | Die(p: nat)
    | PowerLoss(j: nat, junk: string)                            // entry `j` survives; `junk` if its data did not

  function TextOf(e: Entry): Option<string> {
    match e.inode case None => None case Some(i) => Some(i.text)
  }

  function Visible(s: State): Entry
    requires |s.entries| > 0
  {
    s.entries[|s.entries| - 1]
  }

  /** What a reader of the path sees. */
  function VisibleText(s: State): Option<string>
    requires |s.entries| > 0
  {
    TextOf(Visible(s))
  }

  predicate HoldsLock(q: Proc) {
    !q.Waiting?
  }

  predicate Can(s: State, a: Action) {
    |s.entries| > 0 &&
    match a
    case Begin(p, key, value) => p !in s.procs && IsText(key) && IsText(value)
    case Acquire(p) => p in s.procs && s.procs[p].Waiting? && s.lock.None?
    case ReadConfig(p, got) =>
      p in s.procs && s.procs[p].Locked? && (match VisibleText(s) case None => got == 0 case Some(t) => got <= |t|)
    case Decide(p) => p in s.procs && s.procs[p].Deciding?
    case WriteMore(p, text) =>
      p in s.procs && s.procs[p].Writing? && !s.procs[p].tmp.synced && s.procs[p].tmp.text <= text <= s.procs[p].goal
    case Sync(p) => p in s.procs && s.procs[p].Writing? && s.procs[p].tmp.text == s.procs[p].goal
    case RenameOver(p) => p in s.procs && s.procs[p].Writing? && s.procs[p].tmp.synced
    case SyncDirectory(p, _) => p in s.procs && s.procs[p].Renamed?
    case Fail(p) => p in s.procs && s.procs[p].Writing?
    case Release(p) => p in s.procs && s.procs[p].Finished?
    case Die(p) => p in s.procs
    case PowerLoss(j, _) => s.committed <= j < |s.entries|
  }

  function Move(s: State, p: nat, q: Proc): State {
    s.(procs := s.procs[p := q])
  }

  /** A process is gone; the kernel drops the lock it held. */
  function Gone(s: State, p: nat): State {
    s.(procs := s.procs - {p}, lock := if s.lock == Some(p) then None else s.lock)
  }

  function ReadUpTo(file: Option<string>, got: nat): seq<Pair> {
    match file
    case None => []
    case Some(t) => Parse(if got < |t| then t[..got] else t)
  }

  function AfterRead(s: State, p: nat, q: Proc): State
    requires |s.entries| > 0 && q.Deciding?
  {
    if Get(q.cfg, q.key) == Some(q.value) then
      var e := Visible(s).(mark := |s.log| + 1);
      Move(s, p, Finished(q.key, q.value, q.got, 0)).(
        entries := s.entries[|s.entries| - 1 := e], log := s.log + [Update(p, q.key, q.value, q.got)])
    else
      match Set(q.cfg, q.key, q.value)
      case None => Move(s, p, Finished(q.key, q.value, q.got, -1))
      case Some(c) => Move(s, p, Writing(q.key, q.value, q.got, Print(c), Inode("", false)))
  }

  function Do(s: State, a: Action): State
    requires Can(s, a)
  {
    match a
    case Begin(p, key, value) => Move(s, p, Waiting(key, value))
    case Acquire(p) => Move(s, p, Locked(s.procs[p].key, s.procs[p].value)).(lock := Some(p))
    case ReadConfig(p, got) =>
      Move(s, p, Deciding(s.procs[p].key, s.procs[p].value, got, ReadUpTo(VisibleText(s), got)))
    case Decide(p) => AfterRead(s, p, s.procs[p])
    case WriteMore(p, text) => Move(s, p, s.procs[p].(tmp := Inode(text, false)))
    case Sync(p) => Move(s, p, s.procs[p].(tmp := Inode(s.procs[p].tmp.text, true)))
    case RenameOver(p) =>
      var q := s.procs[p];
      Move(s, p, Renamed(q.key, q.value, q.got)).(
        entries := s.entries + [Entry(Some(q.tmp), |s.log| + 1)], log := s.log + [Update(p, q.key, q.value, q.got)])
    case SyncDirectory(p, ok) =>
      Move(s, p, Finished(s.procs[p].key, s.procs[p].value, s.procs[p].got, 0)).(
        committed := if ok then |s.entries| - 1 else s.committed)
    case Fail(p) => Move(s, p, Finished(s.procs[p].key, s.procs[p].value, s.procs[p].got, -1))
    case Release(p) => Gone(s, p)
    case Die(p) => Gone(s, p)
    case PowerLoss(j, junk) =>
      var e := s.entries[j];
      var after := match e.inode
        case None => None
        case Some(i) => Some(Inode(if i.synced then i.text else junk, true));
      State([Entry(after, e.mark)], 0, None, map[], if e.mark <= |s.log| then s.log[..e.mark] else s.log)
  }

  // ---------------------------------------------------------------------
  // The sequential meaning
  // ---------------------------------------------------------------------

  /** The file after an update that read `cfg` from it. */
  function Rewritten(file: Option<string>, cfg: seq<Pair>, key: string, value: string): Option<string> {
    if Get(cfg, key) == Some(value) then file
    else match Set(cfg, key, value)
      case None => file
      case Some(c) => Some(Print(c))
  }

  /** The file after one undisturbed update, on what it managed to read. */
  function TextAfterOne(file: Option<string>, u: Update): Option<string> {
    Rewritten(file, ReadUpTo(file, u.got), u.key, u.value)
  }

  /** The file after a series of updates, one after another. */
  function TextAfter(file: Option<string>, log: seq<Update>): Option<string> {
    if |log| == 0 then file else TextAfterOne(TextAfter(file, log[..|log| - 1]), log[|log| - 1])
  }

  /** The update finds its value already there, or has room. */
  predicate Succeeds(file: Option<string>, u: Update) {
    Get(ReadUpTo(file, u.got), u.key) == Some(u.value) || Set(ReadUpTo(file, u.got), u.key, u.value).Some?
  }

  predicate AllSucceed(file: Option<string>, log: seq<Update>) {
    |log| == 0 || (
      && AllSucceed(file, log[..|log| - 1])
      && Succeeds(TextAfter(file, log[..|log| - 1]), log[|log| - 1]))
  }

  // ---------------------------------------------------------------------
  // The invariant
  // ---------------------------------------------------------------------

  /** An entry is whole: its data is synced and is exactly what its updates make
      of the initial file. */
  predicate EntryOk(e: Entry, init: Option<string>, log: seq<Update>) {
    && e.mark <= |log|
    && TextOf(e) == TextAfter(init, log[..e.mark])
    && (e.inode.Some? ==> e.inode.value.synced)
  }

  predicate EntriesOk(s: State, init: Option<string>) {
    && |s.entries| > 0 && s.committed < |s.entries|
    && (forall j :: 0 <= j < |s.entries| ==> EntryOk(s.entries[j], init, s.log))
    && (forall i, j :: 0 <= i <= j < |s.entries| ==> s.entries[i].mark <= s.entries[j].mark)
    && Visible(s).mark == |s.log|
  }

  /** What a process knows while it holds the lock. */
  predicate ProcOk(s: State, p: nat, q: Proc)
    requires |s.entries| > 0
  {
    match q
    case Waiting(_, _) => true
    case Locked(_, _) => true
    case Deciding(_, _, got, cfg) => cfg == ReadUpTo(VisibleText(s), got)
    case Writing(key, value, got, goal, tmp) =>
      var cfg := ReadUpTo(VisibleText(s), got);
      && Get(cfg, key) != Some(value) && Set(cfg, key, value).Some?
      && goal == Print(Set(cfg, key, value).value)
      && (tmp.synced ==> tmp.text == goal)
    case Renamed(key, value, got) => |s.log| > 0 && s.log[|s.log| - 1] == Update(p, key, value, got)
    case Finished(key, value, got, rc) => rc == 0 ==> |s.log| > 0 && s.log[|s.log| - 1] == Update(p, key, value, got)
  }

  predicate Locking(s: State) {
    && (s.lock.Some? ==> s.lock.value in s.procs)
    && forall p :: p in s.procs && HoldsLock(s.procs[p]) ==> s.lock == Some(p)
  }

  predicate ProcsOk(s: State)
    requires |s.entries| > 0
  {
    forall p :: p in s.procs ==> ProcOk(s, p, s.procs[p])
  }

  predicate Inv(s: State, init: Option<string>) {
    EntriesOk(s, init) && AllSucceed(init, s.log) && Locking(s) && ProcsOk(s)
  }

  // ---------------------------------------------------------------------

  lemma AppendKeepsEntry(e: Entry, init: Option<string>, log: seq<Update>, u: Update)
    requires EntryOk(e, init, log)
    ensures EntryOk(e, init, log + [u])
  {
    hide TextAfter;
    assert (log + [u])[..e.mark] == log[..e.mark];
  }

  lemma TextAfterAppend(init: Option<string>, log: seq<Update>, u: Update)
    ensures TextAfter(init, (log + [u])[..|log| + 1]) == TextAfterOne(TextAfter(init, log), u)
  {
    hide TextAfterOne;
    assert (log + [u])[..|log| + 1] == log + [u];
    assert (log + [u])[..|log|] == log;
  }

  lemma SucceedsAppend(init: Option<string>, log: seq<Update>, u: Update)
    requires AllSucceed(init, log) && Succeeds(TextAfter(init, log), u)
    ensures AllSucceed(init, log + [u])
  {
    hide Succeeds, TextAfter;
    assert (log + [u])[..|log|] == log;
  }

  lemma {:induction false} SucceedsPrefix(init: Option<string>, log: seq<Update>, n: nat)
    requires AllSucceed(init, log) && n <= |log|
    ensures AllSucceed(init, log[..n])
    decreases |log|
  {
    hide Succeeds, TextAfter;
    if n == |log| {
      assert log[..n] == log;
    } else {
      SucceedsPrefix(init, log[..|log| - 1], n);
      assert log[..|log| - 1][..n] == log[..n];
    }
  }

  lemma VisibleIs(s: State, init: Option<string>)
    requires EntriesOk(s, init)
    ensures VisibleText(s) == TextAfter(init, s.log)
  {
    hide TextAfter;
    assert EntryOk(s.entries[|s.entries| - 1], init, s.log);
    assert s.log[..|s.log|] == s.log;
  }

  /** A step that moves one process and leaves file and log alone. */
  lemma MoveKeepsInv(s: State, t: State, p: nat, init: Option<string>)
    requires Inv(s, init)
    requires t.entries == s.entries && t.log == s.log && t.committed < |t.entries|
    requires t.procs - {p} == s.procs - {p} && Locking(t)
    requires p in t.procs ==> ProcOk(t, p, t.procs[p])
    ensures Inv(t, init)
  {
    hide EntryOk, AllSucceed, ProcOk, Locking;
    EntriesSame(s, t, init);
    forall r | r in t.procs
      ensures ProcOk(t, r, t.procs[r])
    {
      if r != p {
        assert r in t.procs - {p} && (t.procs - {p})[r] == t.procs[r] && (s.procs - {p})[r] == s.procs[r];
        ProcSame(s, t, r, s.procs[r]);
      }
    }
  }

  lemma EntriesSame(s: State, t: State, init: Option<string>)
    requires EntriesOk(s, init) && t.entries == s.entries && t.log == s.log && t.committed < |t.entries|
    ensures EntriesOk(t, init)
  {
    hide EntryOk;
  }

  lemma ProcSame(s: State, t: State, p: nat, q: Proc)
    requires |s.entries| > 0 && t.entries == s.entries && t.log == s.log
    ensures ProcOk(s, p, q) <==> ProcOk(t, p, q)
  {
    hide Parse, Print, Get, Set;
  }

  lemma LockingMoves(s: State, p: nat, q: Proc)
    requires Locking(s) && (HoldsLock(q) ==> s.lock == Some(p))
    ensures Locking(Move(s, p, q)) && Move(s, p, q).procs - {p} == s.procs - {p}
  {}

  lemma LockingGone(s: State, p: nat)
    requires Locking(s)
    ensures Locking(Gone(s, p)) && Gone(s, p).procs - {p} == s.procs - {p}
  {}

  lemma QuietStepsKeepInv(s: State, a: Action, init: Option<string>)
    requires Inv(s, init) && Can(s, a)
    requires !a.Decide? && !a.RenameOver? && !a.PowerLoss?
    ensures Inv(Do(s, a), init)
  {
    hide EntriesOk, AllSucceed, Locking, Parse, Print, Set, Get;
    EntriesBound(s, init);
    var t := Do(s, a);
    if a.Release? || a.Die? {
      LockingGone(s, a.p);
      MoveKeepsInv(s, t, a.p, init);
    } else if a.Acquire? {
      AcquireLocks(s, a.p, t.procs[a.p]);
      MoveKeepsInv(s, t, a.p, init);
    } else {
      if !a.Begin? {
        assert ProcOk(s, a.p, s.procs[a.p]);
        HolderIs(s, a.p);
      }
      LockingMoves(s, a.p, t.procs[a.p]);
      LockingSame(Move(s, a.p, t.procs[a.p]), t);
      MoveKeepsInv(s, t, a.p, init);
    }
  }

  lemma EntriesBound(s: State, init: Option<string>)
    requires EntriesOk(s, init)
    ensures s.committed < |s.entries|
  {}

  lemma HolderIs(s: State, p: nat)
    requires Locking(s) && p in s.procs && HoldsLock(s.procs[p])
    ensures s.lock == Some(p)
  {}

  lemma LockingSame(s: State, t: State)
    requires Locking(s) && s.lock == t.lock && s.procs == t.procs
    ensures Locking(t)
  {}

  lemma AcquireLocks(s: State, p: nat, q: Proc)
    requires Locking(s) && s.lock.None? && p in s.procs
    ensures Locking(Move(s, p, q).(lock := Some(p))) && Move(s, p, q).procs - {p} == s.procs - {p}
  {}

  /** The lock holder adds an update to the log: everyone else is still waiting. */
  lemma CommitKeepsProcs(s: State, t: State, p: nat)
    requires |s.entries| > 0 && |t.entries| > 0
    requires Locking(s) && p in s.procs && HoldsLock(s.procs[p])
    requires t.procs - {p} == s.procs - {p} && t.lock == s.lock
    requires p in t.procs && ProcOk(t, p, t.procs[p])
    ensures Locking(t) && ProcsOk(t)
  {
    forall r | r in t.procs && r != p
      ensures !HoldsLock(t.procs[r])
    {
      assert r in t.procs - {p} && (t.procs - {p})[r] == t.procs[r] && (s.procs - {p})[r] == s.procs[r];
    }
  }

  lemma DecideKeepsInv(s: State, p: nat, init: Option<string>)
    requires Inv(s, init) && Can(s, Decide(p))
    ensures Inv(Do(s, Decide(p)), init)
  {
    hide Parse, Print, Set, Get, TextAfter, EntryOk, AllSucceed;
    var q, t := s.procs[p], Do(s, Decide(p));
    assert ProcOk(s, p, q);
    if Get(q.cfg, q.key) == Some(q.value) {
      var u := Update(p, q.key, q.value, q.got);
      CommitKeepsProcs(s, t, p);
      VisibleIs(s, init);
      NoOpKeepsEntries(s, t, init, u);
      SucceedsAppend(init, s.log, u);
    } else {
      LockingMoves(s, p, t.procs[p]);
      MoveKeepsInv(s, t, p, init);
    }
  }

  lemma NoOpKeepsEntries(s: State, t: State, init: Option<string>, u: Update)
    requires EntriesOk(s, init) && Get(ReadUpTo(VisibleText(s), u.got), u.key) == Some(u.value)
    requires t.committed == s.committed && t.log == s.log + [u]
    requires t.entries == s.entries[|s.entries| - 1 := Visible(s).(mark := |s.log| + 1)]
    ensures EntriesOk(t, init)
  {
    hide Parse, Print, Set, Get, TextAfter;
    VisibleIs(s, init);
    TextAfterAppend(init, s.log, u);
    forall j | 0 <= j < |t.entries|
      ensures EntryOk(t.entries[j], init, t.log)
    {
      if j < |s.entries| - 1 {
        AppendKeepsEntry(s.entries[j], init, s.log, u);
      } else {
        assert EntryOk(Visible(s), init, s.log);
      }
    }
  }

  lemma RenameKeepsInv(s: State, p: nat, init: Option<string>)
    requires Inv(s, init) && Can(s, RenameOver(p))
    ensures Inv(Do(s, RenameOver(p)), init)
  {
    hide Parse, Print, Set, Get, TextAfter, EntryOk, AllSucceed;
    var q, t := s.procs[p], Do(s, RenameOver(p));
    assert ProcOk(s, p, q);
    var u := Update(p, q.key, q.value, q.got);
    CommitKeepsProcs(s, t, p);
    VisibleIs(s, init);
    RenameKeepsEntries(s, t, init, u);
    SucceedsAppend(init, s.log, u);
  }

  lemma RenameKeepsEntries(s: State, t: State, init: Option<string>, u: Update)
    requires EntriesOk(s, init)
    requires t.committed == s.committed && t.log == s.log + [u] && |t.entries| == |s.entries| + 1
    requires t.entries[..|s.entries|] == s.entries
    requires var e := Visible(t);
      && e.mark == |s.log| + 1 && e.inode.Some? && e.inode.value.synced
      && TextOf(e) == TextAfterOne(VisibleText(s), u)
    ensures EntriesOk(t, init)
  {
    hide TextAfter, TextAfterOne;
    VisibleIs(s, init);
    TextAfterAppend(init, s.log, u);
    forall j | 0 <= j < |t.entries|
      ensures EntryOk(t.entries[j], init, t.log) && t.entries[j].mark <= |t.log|
    {
      if j < |s.entries| {
        assert t.entries[..|s.entries|][j] == t.entries[j];
        AppendKeepsEntry(s.entries[j], init, s.log, u);
      }
    }
  }

  lemma PowerLossKeepsInv(s: State, j: nat, junk: string, init: Option<string>)
    requires Inv(s, init) && Can(s, PowerLoss(j, junk))
    ensures Inv(Do(s, PowerLoss(j, junk)), init)
  {
    hide TextAfter, AllSucceed;
    var e := s.entries[j];
    assert EntryOk(e, init, s.log);
    SucceedsPrefix(init, s.log, e.mark);
    assert s.log[..e.mark][..e.mark] == s.log[..e.mark];
  }

  lemma StepKeepsInv(s: State, a: Action, init: Option<string>)
    requires Inv(s, init) && Can(s, a)
    ensures Inv(Do(s, a), init)
  {
    hide Inv, Do, Can;
    match a
    case Decide(p) => DecideKeepsInv(s, p, init);
    case RenameOver(p) => RenameKeepsInv(s, p, init);
    case PowerLoss(j, junk) => PowerLossKeepsInv(s, j, junk, init);
    case _ => QuietStepsKeepInv(s, a, init);
  }

  // ---------------------------------------------------------------------
  // Runs
  // ---------------------------------------------------------------------

  predicate Start(s: State, init: Option<string>) {
    && s.entries == [Entry(match init case None => None case Some(t) => Some(Inode(t, true)), 0)]
    && s.committed == 0 && s.lock == None && s.procs == map[] && s.log == []
  }

  predicate Execution(states: seq<State>, actions: seq<Action>, init: Option<string>) {
    && |states| == |actions| + 1
    && Start(states[0], init)
    && forall i :: 0 <= i < |actions| ==>
      Can(states[i], actions[i]) && states[i + 1] == Do(states[i], actions[i])
  }

  lemma {:induction false} ExecutionKeepsInv(states: seq<State>, actions: seq<Action>, init: Option<string>, i: nat)
    requires Execution(states, actions, init) && i < |states|
    ensures Inv(states[i], init)
    decreases i
  {
    hide Do, Can;
    if i > 0 {
      ExecutionKeepsInv(states, actions, init, i - 1);
      StepKeepsInv(states[i - 1], actions[i - 1], init);
    }
  }

  /** At every moment of every run, however processes interleave, die, lose power,
      or fail to read, a reader of the path sees one complete file: exactly what
      the updates in the log make of the initial file, one after another, each
      on what it managed to read. */
  lemma VisibleIsLog(states: seq<State>, actions: seq<Action>, init: Option<string>, i: nat)
    requires Execution(states, actions, init) && i < |states|
    ensures |states[i].entries| > 0 && VisibleText(states[i]) == TextAfter(init, states[i].log)
  {
    hide Inv, TextAfter;
    ExecutionKeepsInv(states, actions, init, i);
    InvGivesVisible(states[i], init);
  }

  lemma InvGivesVisible(s: State, init: Option<string>)
    requires Inv(s, init)
    ensures |s.entries| > 0 && VisibleText(s) == TextAfter(init, s.log)
  {
    VisibleIs(s, init);
  }

  /** No successful update is lost: a call about to return 0 has just been logged,
      and only power loss ever takes anything out of the log. */
  lemma SuccessIsLogged(states: seq<State>, actions: seq<Action>, init: Option<string>, i: nat, p: nat)
    requires Execution(states, actions, init) && i < |states|
    ensures p in states[i].procs && states[i].procs[p].Finished? && states[i].procs[p].rc == 0 ==>
      var q := states[i].procs[p];
      |states[i].log| > 0 && states[i].log[|states[i].log| - 1] == Update(p, q.key, q.value, q.got)
    ensures i < |actions| && !actions[i].PowerLoss? ==> states[i].log <= states[i + 1].log
  {
    hide TextAfter, EntryOk, Parse;
    ExecutionKeepsInv(states, actions, init, i);
    if p in states[i].procs {
      assert ProcOk(states[i], p, states[i].procs[p]);
    }
  }

  /** Power loss leaves a complete earlier or current file, containing at least
      every update up to the last directory sync that succeeded. */
  lemma PowerLossIsClean(states: seq<State>, actions: seq<Action>, init: Option<string>, i: nat)
    requires Execution(states, actions, init) && i < |actions| && actions[i].PowerLoss?
    ensures states[i + 1].log <= states[i].log
    ensures VisibleText(states[i + 1]) == TextAfter(init, states[i + 1].log)
    ensures |states[i + 1].log| >= states[i].entries[states[i].committed].mark
  {
    hide TextAfter, EntryOk;
    ExecutionKeepsInv(states, actions, init, i);
    VisibleIsLog(states, actions, init, i + 1);
    assert Can(states[i], actions[i]);
    EntryBound(states[i].entries[actions[i].j], init, states[i].log);
  }

  lemma EntryBound(e: Entry, init: Option<string>, log: seq<Update>)
    requires EntryOk(e, init, log)
    ensures e.mark <= |log|
  {}

  /** The first `|l|` updates can no longer be taken out of the log. */
  predicate Durable(s: State, l: seq<Update>)
    requires s.committed < |s.entries|
  {
    l <= s.log && |l| <= s.entries[s.committed].mark
  }

  lemma DurableStep(s: State, a: Action, init: Option<string>, l: seq<Update>)
    requires Inv(s, init) && Can(s, a) && Durable(s, l)
    ensures Do(s, a).committed < |Do(s, a).entries| && Durable(Do(s, a), l)
  {
    hide EntryOk, AllSucceed, Locking, ProcsOk, Parse, Print, Set, Get;
    if a.PowerLoss? {
      EntryBound(s.entries[a.j], init, s.log);
    }
  }

  lemma SyncedIsDurable(s: State, p: nat, init: Option<string>)
    requires Inv(s, init) && Can(s, SyncDirectory(p, true))
    ensures var t := Do(s, SyncDirectory(p, true)); t.committed < |t.entries| && Durable(t, t.log)
  {}

  /** Once a call's directory sync has succeeded, its update and everything before
      it survive whatever happens later, power loss included. */
  lemma {:induction false} SyncMakesDurable(
    states: seq<State>, actions: seq<Action>, init: Option<string>, i: nat, j: nat)
    requires Execution(states, actions, init)
    requires i < |actions| && actions[i].SyncDirectory? && actions[i].ok && i < j < |states|
    ensures states[j].committed < |states[j].entries| && Durable(states[j], states[i + 1].log)
    decreases j
  {
    hide Do, Durable;
    if j == i + 1 {
      ExecutionKeepsInv(states, actions, init, i);
      SyncedIsDurable(states[i], actions[i].p, init);
    } else {
      SyncMakesDurable(states, actions, init, i, j - 1);
      ExecutionKeepsInv(states, actions, init, j - 1);
      DurableStep(states[j - 1], actions[j - 1], init, states[i + 1].log);
    }
  }

  // ---------------------------------------------------------------------
  // What the log means for a reader
  // ---------------------------------------------------------------------

  predicate NormalUpdate(u: Update) {
    NormalPair(Pair(u.key, u.value))
  }

  /** The last value written to a key, if any. */
  function LastValue(log: seq<Update>, key: string): Option<string> {
    if |log| == 0 then None
    else if log[|log| - 1].key == key then Some(log[|log| - 1].value)
    else LastValue(log[..|log| - 1], key)
  }

  /** The call read the whole file. */
  predicate ReadsWhole(file: Option<string>, u: Update) {
    match file case None => true case Some(t) => u.got >= |t|
  }

  predicate AllReadWhole(file: Option<string>, log: seq<Update>) {
    |log| == 0 || (
      && AllReadWhole(file, log[..|log| - 1])
      && ReadsWhole(TextAfter(file, log[..|log| - 1]), log[|log| - 1]))
  }

  lemma OneUpdateReads(file: Option<string>, u: Update, key: string)
    requires NormalUpdate(u) && Succeeds(file, u) && ReadsWhole(file, u)
    ensures Get(Parsed(TextAfterOne(file, u)), key) == if key == u.key then Some(u.value) else Get(Parsed(file), key)
  {
    hide NormalPair, Parse, Print, Get, Set;
    var cfg := Parsed(file);
    if Get(cfg, u.key) != Some(u.value) {
      ParsedIsNormal(file);
      UpdateReadsBackIff(cfg, u.key, u.value);
    }
  }

  /** When every update read the whole file, a key reads as the last update to it,
      or as it did in the initial file. */
  lemma {:induction false} LastWriteWins(init: Option<string>, log: seq<Update>, key: string)
    requires AllSucceed(init, log) && AllReadWhole(init, log) && forall u :: u in log ==> NormalUpdate(u)
    ensures Get(Parsed(TextAfter(init, log)), key) ==
      match LastValue(log, key) case Some(v) => Some(v) case None => Get(Parsed(init), key)
    decreases |log|
  {
    hide Get, Parsed, TextAfterOne, NormalUpdate, Succeeds, ReadsWhole;
    if |log| > 0 {
      var before := log[..|log| - 1];
      LastWriteWins(init, before, key);
      assert log[|log| - 1] in log;
      OneUpdateReads(TextAfter(init, before), log[|log| - 1], key);
    }
  }

  /** In every run, as long as the logged updates are ones the file format can hold
      and each read the whole file, a key reads as the last update to it in lock
      order. */
  lemma ReaderSeesLastWrite(states: seq<State>, actions: seq<Action>, init: Option<string>, i: nat, key: string)
    requires Execution(states, actions, init) && i < |states|
    requires AllReadWhole(init, states[i].log) && forall u :: u in states[i].log ==> NormalUpdate(u)
    ensures |states[i].entries| > 0
    ensures Get(Parsed(VisibleText(states[i])), key) ==
      match LastValue(states[i].log, key) case Some(v) => Some(v) case None => Get(Parsed(init), key)
  {
    hide Parsed, Get, TextAfter, EntriesOk, ProcsOk, Locking, AllSucceed, AllReadWhole, NormalUpdate, Execution;
    ExecutionKeepsInv(states, actions, init, i);
    VisibleIsLog(states, actions, init, i);
    LastWriteWins(init, states[i].log, key);
  }

  // ---------------------------------------------------------------------
  // Reads that fail
  // ---------------------------------------------------------------------

  /** The call ignores its read's result. When the read stops early, the other
      keys survive the call exactly if it writes nothing, because the key already
      has its value or the table is full, or if the part that was read gives the
      others the values the whole file does. */
  lemma ShortReadKeepsIff(file: string, got: nat, key: string, value: string)
    requires NormalPair(Pair(key, value))
    ensures var cfg := ReadUpTo(Some(file), got);
      var after := Parsed(Rewritten(Some(file), cfg, key, value));
      (forall other :: other != key ==> Get(after, other) == Get(Parse(file), other))
      <==> (|| Get(cfg, key) == Some(value)
            || Set(cfg, key, value).None?
            || forall other :: other != key ==> Get(cfg, other) == Get(Parse(file), other))
  {
    hide NormalPair, Parse, Print, Get, Set;
    var cfg := ReadUpTo(Some(file), got);
    ParseIsNormal(if got < |file| then file[..got] else file);
    if Get(cfg, key) != Some(value) && Set(cfg, key, value).Some? {
      UpdateReadsBackIff(cfg, key, value);
    }
  }

  /** A file that cannot be opened for reading is replaced by the one new pair. */
  lemma UnreadFileIsWiped(file: string, key: string, value: string)
    requires NormalPair(Pair(key, value))
    ensures Set(ReadUpTo(Some(file), 0), key, value).Some?
    ensures Parse(Print(Set(ReadUpTo(Some(file), 0), key, value).value)) == [Pair(key, value)]
  {
    hide NormalPair;
    var none := ReadUpTo(Some(file), 0);
    assert none == [] by {
      if |file| > 0 {
        assert file[..0] == "";
      }
    }
    NormalFits(Pair(key, value));
    assert Normal([]);
    SetKeepsNormal([], key, value);
    PrintThenParse(Set([], key, value).value);
  }

  // ---------------------------------------------------------------------
  // An undisturbed update
  // ---------------------------------------------------------------------

  predicate Runs(s: State, actions: seq<Action>, t: State)
    decreases |actions|
  {
    if |actions| == 0 then t == s else Can(s, actions[0]) && Runs(Do(s, actions[0]), actions[1..], t)
  }

  lemma RunsCons(s: State, a: Action, rest: seq<Action>, t: State)
    requires Can(s, a) && Runs(Do(s, a), rest, t)
    ensures Runs(s, [a] + rest, t)
  {
    hide Can, Do;
    assert ([a] + rest)[1..] == rest;
  }

  lemma RunsNone(s: State)
    ensures Runs(s, [], s)
  {}

  /** Whenever the lock is free a new caller can run through, and the file is then
      what its update makes of it, on stable storage if it changed. */
  lemma UpdateCompletes(s: State, p: nat, key: string, value: string) returns (actions: seq<Action>, t: State)
    requires |s.entries| > 0 && s.lock == None && p !in s.procs && IsText(key) && IsText(value)
    ensures Runs(s, actions, t) && |t.entries| > 0 && t.lock == None && t.procs == s.procs
    ensures forall a :: a in actions ==> !a.PowerLoss?
    ensures var u := Update(p, key, value, match VisibleText(s) case None => 0 case Some(text) => |text|);
      && VisibleText(t) == TextAfterOne(VisibleText(s), u)
      && t.log == (if Succeeds(VisibleText(s), u) then s.log + [u] else s.log)
      && (VisibleText(t) != VisibleText(s) ==> t.committed == |t.entries| - 1)
  {
    hide Parse, Print, Get, Set, Do;
    var got := match VisibleText(s) case None => 0 case Some(text) => |text|;
    LockTaken(s, p, key, value);
    var begun := Do(s, Begin(p, key, value));
    var locked := Do(begun, Acquire(p));
    var read := Do(locked, ReadConfig(p, got));
    ReadTaken(locked, p, got);
    var rest;
    rest, t := FromDecision(s, read, p, key, value, got);
    RunsCons(locked, ReadConfig(p, got), rest, t);
    RunsCons(begun, Acquire(p), [ReadConfig(p, got)] + rest, t);
    RunsCons(s, Begin(p, key, value), [Acquire(p)] + ([ReadConfig(p, got)] + rest), t);
    actions := [Begin(p, key, value)] + ([Acquire(p)] + ([ReadConfig(p, got)] + rest));
  }

  lemma LockTaken(s: State, p: nat, key: string, value: string)
    requires |s.entries| > 0 && s.lock == None && p !in s.procs && IsText(key) && IsText(value)
    ensures Can(s, Begin(p, key, value)) && Can(Do(s, Begin(p, key, value)), Acquire(p))
    ensures Do(Do(s, Begin(p, key, value)), Acquire(p)) ==
      s.(procs := s.procs[p := Locked(key, value)], lock := Some(p))
  {
    hide Parse, Print, Get, Set;
  }

  lemma ReadTaken(s: State, p: nat, got: nat)
    requires |s.entries| > 0 && p in s.procs && s.procs[p].Locked?
    requires match VisibleText(s) case None => got == 0 case Some(t) => got <= |t|
    ensures Can(s, ReadConfig(p, got))
    ensures Do(s, ReadConfig(p, got)) ==
      Move(s, p, Deciding(s.procs[p].key, s.procs[p].value, got, ReadUpTo(VisibleText(s), got)))
  {
    hide Parse, Print, Get, Set;
  }

  lemma FromDecision(s: State, read: State, p: nat, key: string, value: string, got: nat)
    returns (actions: seq<Action>, t: State)
    requires |s.entries| > 0 && s.lock == None && p !in s.procs
    requires var q := Deciding(key, value, got, ReadUpTo(VisibleText(s), got));
      read == s.(procs := s.procs[p := q], lock := Some(p))
    ensures Runs(read, actions, t) && |t.entries| > 0 && t.lock == None && t.procs == s.procs
    ensures forall a :: a in actions ==> !a.PowerLoss?
    ensures var u := Update(p, key, value, got);
      && VisibleText(t) == TextAfterOne(VisibleText(s), u)
      && t.log == (if Succeeds(VisibleText(s), u) then s.log + [u] else s.log)
      && (VisibleText(t) != VisibleText(s) ==> t.committed == |t.entries| - 1)
  {
    hide Parse, Print, Get, Set, Runs;
    var decided := Do(read, Decide(p));
    var rest;
    if decided.procs[p].Writing? {
      rest, t := FromWriting(s, decided, p);
    } else {
      t := Do(decided, Release(p));
      RunsNone(t);
      RunsCons(decided, Release(p), [], t);
      rest := [Release(p)] + [];
      assert (decided.procs - {p}) == s.procs;
    }
    RunsCons(read, Decide(p), rest, t);
    actions := [Decide(p)] + rest;
  }

  lemma FromWriting(s: State, w: State, p: nat) returns (actions: seq<Action>, t: State)
    requires |s.entries| > 0 && p !in s.procs && p in w.procs && w.procs[p].Writing?
    requires w == s.(procs := s.procs[p := w.procs[p]], lock := Some(p))
    requires w.procs[p].tmp == Inode("", false)
    ensures Runs(w, actions, t) && |t.entries| > 0 && t.lock == None && t.procs == s.procs
    ensures forall a :: a in actions ==> !a.PowerLoss?
    ensures VisibleText(t) == Some(w.procs[p].goal) && t.committed == |t.entries| - 1
    ensures t.log == s.log + [Update(p, w.procs[p].key, w.procs[p].value, w.procs[p].got)]
  {
    hide Parse, Print, Get, Set, Runs;
    var goal := w.procs[p].goal;
    var put := Do(w, WriteMore(p, goal));
    var synced := Do(put, Sync(p));
    var last;
    last, t := FromSynced(s, synced, p);
    RunsCons(put, Sync(p), last, t);
    RunsCons(w, WriteMore(p, goal), [Sync(p)] + last, t);
    actions := [WriteMore(p, goal)] + ([Sync(p)] + last);
  }

  lemma FromSynced(s: State, w: State, p: nat) returns (actions: seq<Action>, t: State)
    requires |s.entries| > 0 && p !in s.procs && p in w.procs && w.procs[p].Writing?
    requires w == s.(procs := s.procs[p := w.procs[p]], lock := Some(p))
    requires w.procs[p].tmp == Inode(w.procs[p].goal, true)
    ensures Runs(w, actions, t) && |t.entries| > 0 && t.lock == None && t.procs == s.procs
    ensures forall a :: a in actions ==> !a.PowerLoss?
    ensures VisibleText(t) == Some(w.procs[p].goal) && t.committed == |t.entries| - 1
    ensures t.log == s.log + [Update(p, w.procs[p].key, w.procs[p].value, w.procs[p].got)]
  {
    hide Parse, Print, Get, Set, Runs;
    var renamed := Do(w, RenameOver(p));
    var durable := Do(renamed, SyncDirectory(p, true));
    t := Do(durable, Release(p));
    RunsNone(t);
    RunsCons(durable, Release(p), [], t);
    RunsCons(renamed, SyncDirectory(p, true), [Release(p)] + [], t);
    RunsCons(w, RenameOver(p), [SyncDirectory(p, true)] + ([Release(p)] + []), t);
    actions := [RenameOver(p)] + ([SyncDirectory(p, true)] + ([Release(p)] + []));
    assert t.procs == s.procs;
  }
}
