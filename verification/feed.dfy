/** Updaters, daemon and subscribers together: the updaters' renames are the only
    writes to the config file, and each reaches the daemon as a directory event. */
module Feed {
  import opened Options
  import opened ConfigText
  import opened ConfigDelta
  import U = Updaters
  import W = Watcher

  datatype System = System(updaters: U.State, watch: W.State)

  datatype Action = Updater(u: U.Action) | Watching(w: W.Action)

  /** Steps of the daemon, its subscribers and unrelated files. */
  predicate NotAWriter(a: W.Action) {
    !a.Rename? && !a.OpenInPlace? && !a.Scribble? && !a.CloseInPlace?
  }

  predicate Can(s: System, a: Action) {
    match a
    case Updater(u) => U.Can(s.updaters, u)
    case Watching(w) => NotAWriter(w) && W.Can(s.watch, w)
  }

  /** The daemon and its subscribers as they come up on a file. */
  function Booted(file: Option<string>): W.State {
    W.State(file, 0, [], [], W.Starting, [])
  }

  function Visible(u: U.State): Option<string> {
    if |u.entries| > 0 then U.VisibleText(u) else None
  }

  function Do(s: System, a: Action, filename: string): System
    requires Can(s, a)
  {
    match a
    case Watching(w) => s.(watch := W.Do(s.watch, w, filename))
    case Updater(u) =>
      var next := U.Do(s.updaters, u);
      if u.PowerLoss? then System(next, Booted(Visible(next)))
      else if u.RenameOver? then System(next, W.Do(s.watch, W.Rename(s.updaters.procs[u.p].tmp.text), filename))
      else s.(updaters := next)
  }

  predicate Start(s: System, init: Option<string>) {
    U.Start(s.updaters, init) && s.watch == Booted(init)
  }

  predicate Execution(states: seq<System>, actions: seq<Action>, init: Option<string>, filename: string) {
    && |states| == |actions| + 1
    && Start(states[0], init)
    && forall i :: 0 <= i < |actions| ==>
      Can(states[i], actions[i]) && states[i + 1] == Do(states[i], actions[i], filename)
  }

  ghost predicate Inv(s: System, init: Option<string>, filename: string) {
    && U.Inv(s.updaters, init)
    && W.Inv(s.watch, filename)
    && s.watch.file == Visible(s.updaters) && s.watch.open == 0
  }

  lemma BootedIsInv(file: Option<string>, filename: string)
    ensures W.Inv(Booted(file), filename)
  {
    assert Normal([]);
  }

  lemma StartIsInv(s: System, init: Option<string>, filename: string)
    requires Start(s, init)
    ensures Inv(s, init, filename)
  {
    BootedIsInv(init, filename);
    assert s.updaters.log[..0] == [];
  }

  lemma VisibleAfter(u: U.State, a: U.Action)
    requires U.Can(u, a)
    ensures |U.Do(u, a).entries| > 0
    ensures !a.PowerLoss? ==>
      Visible(U.Do(u, a)) == if a.RenameOver? then Some(u.procs[a.p].tmp.text) else Visible(u)
  {
    hide Parse, Print, Get, Set;
  }

  lemma WatchKeepsFile(w: W.State, a: W.Action, filename: string)
    requires W.Can(w, a) && NotAWriter(a)
    ensures W.Do(w, a, filename).file == w.file && W.Do(w, a, filename).open == w.open
  {
    hide Parse, Deltas;
  }

  lemma StepKeepsInv(s: System, a: Action, init: Option<string>, filename: string)
    requires Inv(s, init, filename) && Can(s, a)
    ensures Inv(Do(s, a, filename), init, filename)
  {
    hide U.Inv, W.Inv, U.Do, W.Do, U.Can, Visible, Booted;
    match a
    case Watching(w) =>
      W.StepKeepsInv(s.watch, w, filename);
      WatchKeepsFile(s.watch, w, filename);
    case Updater(u) =>
      U.StepKeepsInv(s.updaters, u, init);
      VisibleAfter(s.updaters, u);
      if u.PowerLoss? {
        BootedIsInv(Visible(U.Do(s.updaters, u)), filename);
        BootedOn(Visible(U.Do(s.updaters, u)));
      } else if u.RenameOver? {
        RenameReaches(s.updaters, u, s.watch, filename);
        W.StepKeepsInv(s.watch, W.Rename(s.updaters.procs[u.p].tmp.text), filename);
      }
  }

  lemma BootedOn(file: Option<string>)
    ensures Booted(file).file == file && Booted(file).open == 0
  {}

  lemma RenameReaches(u: U.State, a: U.Action, w: W.State, filename: string)
    requires a.RenameOver? && U.Can(u, a)
    ensures a.p in u.procs && u.procs[a.p].Writing?
    ensures W.Can(w, W.Rename(u.procs[a.p].tmp.text))
    ensures var t := W.Do(w, W.Rename(u.procs[a.p].tmp.text), filename);
      t.file == Some(u.procs[a.p].tmp.text) && t.open == 0
  {}

  lemma {:induction false} ExecutionKeepsInv(states: seq<System>, actions: seq<Action>, init: Option<string>,
                                             filename: string, i: nat)
    requires Execution(states, actions, init, filename) && i < |states|
    ensures Inv(states[i], init, filename)
    decreases i
  {
    hide Do, Can, Inv, Start;
    if i == 0 {
      StartIsInv(states[0], init, filename);
    } else {
      ExecutionKeepsInv(states, actions, init, filename, i - 1);
      StepKeepsInv(states[i - 1], actions[i - 1], init, filename);
    }
  }

  /** The last value the log gives a key, or the initial file's. */
  function Expected(init: Option<string>, log: seq<U.Update>, key: string): Option<string> {
    match U.LastValue(log, key)
    case Some(v) => Some(v)
    case None => Get(Parsed(init), key)
  }

  /** The updates in the log each read the whole file and wrote what it can hold. */
  ghost predicate Sound(init: Option<string>, log: seq<U.Update>) {
    U.AllReadWhole(init, log) && forall u :: u in log ==> U.NormalUpdate(u)
  }

  /** End to end. At any moment of any run, when the daemon waits with no event
      pending, a subscriber that has read its inbox gives every key the value of
      the last update to it in lock order. */
  lemma SubscriberSeesLastWrite(states: seq<System>, actions: seq<Action>, init: Option<string>, filename: string,
                                i: nat, j: nat, key: string)
    requires Execution(states, actions, init, filename) && i < |states|
    requires W.Waiting(states[i].watch, filename)
    requires j < |states[i].watch.subs| && states[i].watch.subs[j].inbox == []
    requires Sound(init, states[i].updaters.log)
    ensures At(states[i].watch.subs[j].view, key) == Expected(init, states[i].updaters.log, key)
  {
    hide Execution, U.Inv, W.Inv, W.Waiting, Get, Parsed, ViewOf, U.TextAfter, U.AllReadWhole, U.AllSucceed, At;
    ExecutionKeepsInv(states, actions, init, filename, i);
    var s := states[i];
    W.WaitingAgrees(s.watch, filename);
    U.InvGivesVisible(s.updaters, init);
    ViewIsGet(Parsed(s.watch.file), key);
    LogSucceeds(s.updaters, init);
    U.LastWriteWins(init, s.updaters.log, key);
  }

  lemma LogSucceeds(u: U.State, init: Option<string>)
    requires U.Inv(u, init)
    ensures U.AllSucceed(init, u.log)
  {}

  /** And once updaters stop, that is where every run of the daemon and its
      subscribers ends: each of their steps brings it nearer (`SettlingEnds`), and
      when none is left every subscriber agrees with the log. */
  lemma SettledFeedAgrees(states: seq<System>, actions: seq<Action>, init: Option<string>, filename: string,
                          j: nat, key: string)
    requires Execution(states, actions, init, filename)
    requires var s := states[|actions|];
      && (forall a :: W.Settling(a) ==> !W.Can(s.watch, a))
      && j < |s.watch.subs| && Sound(init, s.updaters.log)
    ensures var s := states[|actions|]; At(s.watch.subs[j].view, key) == Expected(init, s.updaters.log, key)
  {
    hide Do, Can, Start, W.Inv, U.Inv, W.Settling, W.Can, Sound, Expected, At;
    var s := states[|actions|];
    W.SettledIsQuiet(s.watch);
    ExecutionKeepsInv(states, actions, init, filename, |actions|);
    SubscriberSeesLastWrite(states, actions, init, filename, |actions|, j, key);
  }

  // ---------------------------------------------------------------------
  // An undisturbed update reaches every subscriber
  // ---------------------------------------------------------------------

  predicate Runs(s: System, actions: seq<Action>, t: System, filename: string)
    decreases |actions|
  {
    if |actions| == 0 then t == s
    else Can(s, actions[0]) && Runs(Do(s, actions[0], filename), actions[1..], t, filename)
  }

  lemma RunsCons(s: System, a: Action, rest: seq<Action>, t: System, filename: string)
    requires Can(s, a) && Runs(Do(s, a, filename), rest, t, filename)
    ensures Runs(s, [a] + rest, t, filename)
  {
    hide Can, Do;
    assert ([a] + rest)[1..] == rest;
  }

  lemma {:induction false} RunsConcat(s: System, a: seq<Action>, t: System, b: seq<Action>, u: System, filename: string)
    requires Runs(s, a, t, filename) && Runs(t, b, u, filename)
    ensures Runs(s, a + b, u, filename)
    decreases |a|
  {
    hide Can, Do;
    if |a| == 0 {
      assert a + b == b;
    } else {
      RunsConcat(Do(s, a[0], filename), a[1..], t, b, u, filename);
      assert (a + b)[1..] == a[1..] + b;
    }
  }

  lemma {:induction false} RunsKeepInv(
    s: System, actions: seq<Action>, t: System, init: Option<string>, filename: string)
    requires Runs(s, actions, t, filename) && Inv(s, init, filename)
    ensures Inv(t, init, filename)
    decreases |actions|
  {
    hide Can, Do, Inv;
    if |actions| > 0 {
      StepKeepsInv(s, actions[0], init, filename);
      RunsKeepInv(Do(s, actions[0], filename), actions[1..], t, init, filename);
    }
  }

  /** A run of the updaters alone; the daemon only gets events. */
  lemma {:induction false} UpdatersRun(s: System, us: seq<U.Action>, ut: U.State, filename: string)
    returns (actions: seq<Action>, t: System)
    requires U.Runs(s.updaters, us, ut) && forall a :: a in us ==> !a.PowerLoss?
    ensures Runs(s, actions, t, filename) && t.updaters == ut
    ensures t.watch.phase == s.watch.phase
    decreases |us|
  {
    hide U.Can, U.Do, Runs;
    if |us| == 0 {
      actions, t := [], s;
      NothingRun(s, filename);
    } else {
      var a := Updater(us[0]);
      UpdaterStep(s, us[0], filename);
      var rest;
      rest, t := UpdatersRun(Do(s, a, filename), us[1..], ut, filename);
      RunsCons(s, a, rest, t, filename);
      actions := [a] + rest;
    }
  }

  lemma NothingRun(s: System, filename: string)
    ensures Runs(s, [], s, filename)
  {}

  lemma UpdaterStep(s: System, u: U.Action, filename: string)
    requires U.Can(s.updaters, u) && !u.PowerLoss?
    ensures Can(s, Updater(u)) && Do(s, Updater(u), filename).updaters == U.Do(s.updaters, u)
    ensures Do(s, Updater(u), filename).watch.phase == s.watch.phase
  {
    hide U.Do;
    if u.RenameOver? {
      RenameReaches(s.updaters, u, s.watch, filename);
    }
  }

  /** A run of the daemon and its subscribers alone. */
  lemma {:induction false} WatchRun(s: System, ws: seq<W.Action>, wt: W.State, filename: string)
    returns (actions: seq<Action>)
    requires W.Runs(s.watch, ws, wt, filename) && W.AllSettling(ws)
    ensures Runs(s, actions, s.(watch := wt), filename)
    decreases |ws|
  {
    hide W.Can, W.Do, Runs;
    if |ws| == 0 {
      actions := [];
      NothingRun(s, filename);
    } else {
      var a := Watching(ws[0]);
      assert W.Settling(ws[0]);
      var next := Do(s, a, filename);
      var rest := WatchRun(next, ws[1..], wt, filename);
      RunsCons(s, a, rest, s.(watch := wt), filename);
      actions := [a] + rest;
    }
  }

  /** From any reachable state in which the daemon polls and nobody holds the lock,
      a new updater can run through and the daemon and its subscribers settle;
      each subscriber then has the updated value and the others' as before. */
  lemma UpdateReachesAll(s: System, p: nat, key: string, value: string, init: Option<string>, filename: string)
    returns (actions: seq<Action>, t: System)
    requires Inv(s, init, filename) && s.watch.phase.Polling? && s.updaters.lock == None && p !in s.updaters.procs
    requires NormalPair(Pair(key, value)) && Set(Parsed(Visible(s.updaters)), key, value).Some?
    ensures Runs(s, actions, t, filename)
    ensures forall j, k: string :: 0 <= j < |t.watch.subs| ==>
      At(t.watch.subs[j].view, k) == if k == key then Some(value) else Get(Parsed(Visible(s.updaters)), k)
  {
    hide Inv, Runs, U.Inv, W.Inv, Get, Set, Parse, Print, U.TextAfterOne, NormalPair, U.Succeeds,
      U.ReadsWhole, U.Runs, W.Runs;
    InvParts(s, init, filename);
    NormalIsText(Pair(key, value));
    var us, ut := U.UpdateCompletes(s.updaters, p, key, value);
    var first, mid := UpdatersRun(s, us, ut, filename);
    var ws, wt := W.QuietRuns(mid.watch, filename);
    var second := WatchRun(mid, ws, wt, filename);
    t := mid.(watch := wt);
    RunsConcat(s, first, mid, second, t, filename);
    actions := first + second;
    RunsKeepInv(s, actions, t, init, filename);
    InvParts(t, init, filename);
    W.WaitingAgrees(t.watch, filename);
    var u := U.Update(p, key, value, match U.VisibleText(s.updaters) case None => 0 case Some(text) => |text|);
    WholeRead(s.updaters, u);
    forall j, k: string | 0 <= j < |t.watch.subs|
      ensures At(t.watch.subs[j].view, k) == if k == key then Some(value) else Get(Parsed(Visible(s.updaters)), k)
    {
      ViewIsGet(Parsed(t.watch.file), k);
      U.OneUpdateReads(Visible(s.updaters), u, k);
    }
  }

  lemma InvParts(s: System, init: Option<string>, filename: string)
    requires Inv(s, init, filename)
    ensures W.Inv(s.watch, filename) && s.watch.open == 0 && s.watch.file == Visible(s.updaters)
    ensures |s.updaters.entries| > 0
  {}

  lemma WholeRead(s: U.State, u: U.Update)
    requires |s.entries| > 0 && Set(Parsed(U.VisibleText(s)), u.key, u.value).Some?
    requires u.got == match U.VisibleText(s) case None => 0 case Some(text) => |text|
    requires NormalPair(Pair(u.key, u.value))
    ensures U.NormalUpdate(u) && U.Succeeds(U.VisibleText(s), u) && U.ReadsWhole(U.VisibleText(s), u)
  {
    hide NormalPair, Get, Set, Parse;
  }
}
