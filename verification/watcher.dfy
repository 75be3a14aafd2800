/** The watch daemon as a state machine. Writers replace or rewrite the config
    file at any time, the kernel queues directory events, and the daemon polls,
    re-reads, publishes one signal per change and only then advances its
    snapshot. Any number of subscribers read the bus at their own pace. */
module Watcher {
  import opened Options
  import opened ConfigText
  import opened ConfigDelta
  import opened JsonDelta

  datatype Phase =
    | Starting                                            // watch added, no snapshot yet
    | Polling
    | Reading                                             // a batch of events has triggered
    | Publishing(cur: seq<Pair>, left: seq<Delta>)

  datatype Subscriber = Subscriber(inbox: seq<string>, view: View)

  /** `open` counts the programs that have the visible file open for writing in
      place; `events` are the names of queued directory events. */
  datatype State = State(file: Option<string>, open: nat, events: seq<string>,
                         prev: seq<Pair>, phase: Phase, subs: seq<Subscriber>)

  datatype Action =
    // writers
    | Rename(text: string)                                // a finished temp file replaces the config file
    | OpenInPlace(truncate: bool)
    | Scribble(text: string)                              // the file is left in any intermediate state
    | CloseInPlace
    | OtherEvent(name: string)                            // temp, lock and unrelated files
    // the daemon
    | Snapshot
    | Wake(n: nat)                                        // one read of the event queue
    | ReadFile
    | PublishOne
    | Advance
    // subscribers
    | Join
    | Deliver(i: nat)

  /** `strncmp(ev->name, filename, strlen(filename)) == 0`: the event's name
      begins with the file's. */
  predicate Triggers(name: string, filename: string) {
    filename <= name
  }

  predicate Pending(events: seq<string>, filename: string) {
    exists i :: 0 <= i < |events| && Triggers(events[i], filename)
  }

  /** An event counts exactly when each character of the file's name is the event
      name's in the same place: the file's own, and those of its temp and lock
      files. */
  lemma TriggersIff(name: string, filename: string)
    ensures Triggers(name, filename)
      <==> |filename| <= |name| && forall i :: 0 <= i < |filename| ==> name[i] == filename[i]
    ensures forall suffix: string :: Triggers(filename + suffix, filename)
  {}

  predicate Can(s: State, a: Action) {
    match a
    case Rename(_) => true
    case OpenInPlace(_) => true
    case Scribble(_) => s.open > 0
    case CloseInPlace => s.open > 0
    case OtherEvent(_) => true
    case Snapshot => s.phase.Starting?
    case Wake(n) => s.phase.Polling? && 0 < n <= |s.events|
    case ReadFile => s.phase.Reading?
    case PublishOne => s.phase.Publishing? && |s.phase.left| > 0
    case Advance => s.phase.Publishing? && |s.phase.left| == 0
    case Join => s.phase.Polling?
    case Deliver(i) => i < |s.subs| && |s.subs[i].inbox| > 0
  }

  function Post(sub: Subscriber, payload: string): Subscriber {
    sub.(inbox := sub.inbox + [payload])
  }

  function PostAll(subs: seq<Subscriber>, payload: string): (r: seq<Subscriber>)
    ensures |r| == |subs| && forall i :: 0 <= i < |subs| ==> r[i] == Post(subs[i], payload)
  {
    seq(|subs|, i requires 0 <= i < |subs| => Post(subs[i], payload))
  }

  /** The subscriber's callback; an unparseable payload is ignored. */
  function Handle(sub: Subscriber): Subscriber
    requires |sub.inbox| > 0
  {
    match Received(sub.inbox[0])
    case None => Subscriber(sub.inbox[1..], sub.view)
    case Some(d) => Subscriber(sub.inbox[1..], Apply(sub.view, d))
  }

  function Do(s: State, a: Action, filename: string): State
    requires Can(s, a)
  {
    match a
    case Rename(text) => s.(file := Some(text), open := 0, events := s.events + [filename])
    case OpenInPlace(truncate) =>
      s.(open := s.open + 1, file := if truncate || s.file.None? then Some("") else s.file)
    case Scribble(text) => s.(file := Some(text))
    case CloseInPlace => s.(open := s.open - 1, events := s.events + [filename])
    case OtherEvent(name) => s.(events := s.events + [name])
    case Snapshot => s.(prev := Parsed(s.file), phase := Polling)
    case Wake(n) =>
      s.(events := s.events[n..], phase := if Pending(s.events[..n], filename) then Reading else Polling)
    case ReadFile =>
      (match s.file
       case None => s.(phase := Polling)
       case Some(text) => s.(phase := Publishing(Parse(text), Deltas(s.prev, Parse(text)))))
    case PublishOne =>
      s.(subs := PostAll(s.subs, Payload(s.phase.left[0])), phase := s.phase.(left := s.phase.left[1..]))
    case Advance => s.(prev := s.phase.cur, phase := Polling)
    case Join => s.(subs := s.subs + [Subscriber([], ViewOf(s.prev))])
    case Deliver(i) => s.(subs := s.subs[i := Handle(s.subs[i])])
  }

  predicate Start(s: State) {
    s.phase.Starting? && s.events == [] && s.prev == [] && s.subs == []
  }

  predicate Execution(states: seq<State>, actions: seq<Action>, filename: string) {
    && |states| == |actions| + 1
    && Start(states[0])
    && forall i :: 0 <= i < |actions| ==>
      Can(states[i], actions[i]) && states[i + 1] == Do(states[i], actions[i], filename)
  }

  // ---------------------------------------------------------------------
  // The invariant
  // ---------------------------------------------------------------------

  function Heard(payload: string): seq<Delta> {
    match Received(payload) case None => [] case Some(d) => [d]
  }

  function Decoded(inbox: seq<string>): seq<Delta> {
    if |inbox| == 0 then [] else Heard(inbox[0]) + Decoded(inbox[1..])
  }

  /** What a subscriber holds once it has read its inbox and `more`. */
  function Caught(sub: Subscriber, more: seq<Delta>): View {
    ApplyAll(sub.view, Decoded(sub.inbox) + more)
  }

  /** The snapshot is the file's, or something will make the daemon look again. */
  predicate Fresh(snapshot: seq<Pair>, s: State, filename: string) {
    snapshot == Parsed(s.file) || s.open > 0 || Pending(s.events, filename)
  }

  predicate SubsAgree(subs: seq<Subscriber>, more: seq<Delta>, target: seq<Pair>) {
    forall i :: 0 <= i < |subs| ==> Caught(subs[i], more) == ViewOf(target)
  }

  predicate Inv(s: State, filename: string) {
    && Normal(s.prev)
    && (s.file.None? ==> s.prev == [] && !s.phase.Publishing?)
    && match s.phase
       case Starting => s.prev == [] && s.subs == []
       case Polling => Fresh(s.prev, s, filename) && SubsAgree(s.subs, [], s.prev)
       case Reading => SubsAgree(s.subs, [], s.prev)
       case Publishing(cur, left) =>
         && Fresh(cur, s, filename) && Normal(cur)
         && (forall d :: d in left ==> Fits(d))
         && SubsAgree(s.subs, left, cur)
  }

  lemma PendingGrows(events: seq<string>, name: string, filename: string)
    ensures Pending(events + [name], filename) <==> Pending(events, filename) || Triggers(name, filename)
  {
    var all := events + [name];
    if Pending(events, filename) {
      var i :| 0 <= i < |events| && Triggers(events[i], filename);
      assert all[i] == events[i];
    }
    assert all[|events|] == name;
  }

  lemma PendingSplits(events: seq<string>, n: nat, filename: string)
    requires n <= |events| && Pending(events, filename)
    ensures Pending(events[..n], filename) || Pending(events[n..], filename)
  {
    var i :| 0 <= i < |events| && Triggers(events[i], filename);
    if i < n {
      assert events[..n][i] == events[i];
    } else {
      assert events[n..][i - n] == events[i];
    }
  }

  lemma WritersKeepInv(s: State, a: Action, filename: string)
    requires Inv(s, filename) && Can(s, a)
    requires a.Rename? || a.OpenInPlace? || a.Scribble? || a.CloseInPlace? || a.OtherEvent?
    ensures Inv(Do(s, a, filename), filename)
  {
    hide Parse, Normal, SubsAgree, Pending;
    match a
    case Rename(_) => PendingGrows(s.events, filename, filename);
    case CloseInPlace => PendingGrows(s.events, filename, filename);
    case OtherEvent(name) => PendingGrows(s.events, name, filename);
    case _ =>
  }

  /** A subscriber that has caught up with one snapshot will have caught up with
      the next once it also applies the deltas between them. */
  lemma CaughtAdvances(subs: seq<Subscriber>, old_: seq<Pair>, cur: seq<Pair>)
    requires Normal(old_) && Normal(cur) && SubsAgree(subs, [], old_)
    ensures SubsAgree(subs, Deltas(old_, cur), cur)
  {
    hide Deltas, ApplyAll, ViewOf, Decoded;
    DeltasAdvance(old_, cur);
    forall i | 0 <= i < |subs|
      ensures Caught(subs[i], Deltas(old_, cur)) == ViewOf(cur)
    {
      assert Caught(subs[i], []) == ViewOf(old_);
      assert Decoded(subs[i].inbox) + [] == Decoded(subs[i].inbox);
      ApplyConcat(subs[i].view, Decoded(subs[i].inbox), Deltas(old_, cur));
    }
  }

  lemma {:induction false} DecodedConcat(a: seq<string>, b: seq<string>)
    ensures Decoded(a + b) == Decoded(a) + Decoded(b)
    decreases |a|
  {
    hide Heard;
    if |a| == 0 {
      assert a + b == b;
    } else {
      DecodedConcat(a[1..], b);
      assert (a + b)[1..] == a[1..] + b;
      assert Heard(a[0]) + (Decoded(a[1..]) + Decoded(b)) == Heard(a[0]) + Decoded(a[1..]) + Decoded(b);
    }
  }

  lemma CaughtByPost(sub: Subscriber, left: seq<Delta>)
    requires |left| > 0 && Fits(left[0])
    ensures Caught(Post(sub, Payload(left[0])), left[1..]) == Caught(sub, left)
  {
    hide Received, Payload, Fits, ApplyAll;
    var p := Payload(left[0]);
    RoundTrip(left[0]);
    DecodedConcat(sub.inbox, [p]);
    assert Decoded([p]) == [left[0]] + Decoded([p][1..]);
    assert Decoded(sub.inbox + [p]) + left[1..] == Decoded(sub.inbox) + left;
  }

  lemma CaughtByHandling(sub: Subscriber, more: seq<Delta>)
    requires |sub.inbox| > 0
    ensures Caught(Handle(sub), more) == Caught(sub, more)
  {
    hide Received, Apply;
    var rest := Decoded(sub.inbox[1..]) + more;
    match Received(sub.inbox[0])
    case None =>
      assert Decoded(sub.inbox) == Decoded(sub.inbox[1..]);
    case Some(d) =>
      assert Decoded(sub.inbox) + more == [d] + rest;
      ApplyConcat(sub.view, [d], rest);
      assert ApplyAll(sub.view, [d]) == Apply(ApplyAll(sub.view, []), d);
  }

  lemma DaemonKeepsInv(s: State, a: Action, filename: string)
    requires Inv(s, filename) && Can(s, a)
    requires a.Snapshot? || a.Wake? || a.ReadFile? || a.Advance?
    ensures Inv(Do(s, a, filename), filename)
  {
    hide Parse, Normal, Pending, SubsAgree, Deltas, Fits;
    ParsedIsNormal(s.file);
    match a
    case Snapshot => NoSubs(Parsed(s.file));
    case Wake(n) =>
      if Pending(s.events, filename) {
        PendingSplits(s.events, n, filename);
      }
    case ReadFile =>
      if s.file.Some? {
        var cur := Parse(s.file.value);
        CaughtAdvances(s.subs, s.prev, cur);
        DeltasFit(s.prev, cur);
      }
    case Advance =>
      assert s.phase.left == [];
  }

  lemma NoSubs(target: seq<Pair>)
    ensures SubsAgree([], [], target)
  {}

  lemma PublishKeepsInv(s: State, filename: string)
    requires Inv(s, filename) && Can(s, PublishOne)
    ensures Inv(Do(s, PublishOne, filename), filename)
  {
    hide Parse, Normal, Pending, Fits, Payload, Caught, Post, Fresh;
    var left := s.phase.left;
    var t := Do(s, PublishOne, filename);
    forall i | 0 <= i < |t.subs|
      ensures Caught(t.subs[i], left[1..]) == ViewOf(s.phase.cur)
    {
      CaughtByPost(s.subs[i], left);
    }
    FreshSame(s.phase.cur, s, t, filename);
  }

  lemma FreshSame(snapshot: seq<Pair>, s: State, t: State, filename: string)
    requires s.file == t.file && s.open == t.open && s.events == t.events
    ensures Fresh(snapshot, s, filename) == Fresh(snapshot, t, filename)
  {}

  lemma SubscribersKeepInv(s: State, a: Action, filename: string)
    requires Inv(s, filename) && Can(s, a)
    requires a.Join? || a.Deliver?
    ensures Inv(Do(s, a, filename), filename)
  {
    hide Parse, Normal, Pending, Fits, Caught, Handle, Fresh;
    var t := Do(s, a, filename);
    match a
    case Join =>
      FreshSame(s.prev, s, t, filename);
      JoinerHasCaughtUp(s.prev);
    case Deliver(i) =>
      forall more
        ensures Caught(t.subs[i], more) == Caught(s.subs[i], more)
      {
        CaughtByHandling(s.subs[i], more);
      }
      FreshSame(if s.phase.Publishing? then s.phase.cur else s.prev, s, t, filename);
  }

  lemma JoinerHasCaughtUp(prev: seq<Pair>)
    ensures Caught(Subscriber([], ViewOf(prev)), []) == ViewOf(prev)
  {}

  lemma StepKeepsInv(s: State, a: Action, filename: string)
    requires Inv(s, filename) && Can(s, a)
    ensures Inv(Do(s, a, filename), filename)
  {
    hide Inv, Do, Can;
    match a
    case Snapshot => DaemonKeepsInv(s, a, filename);
    case Wake(_) => DaemonKeepsInv(s, a, filename);
    case ReadFile => DaemonKeepsInv(s, a, filename);
    case Advance => DaemonKeepsInv(s, a, filename);
    case PublishOne => PublishKeepsInv(s, filename);
    case Join => SubscribersKeepInv(s, a, filename);
    case Deliver(_) => SubscribersKeepInv(s, a, filename);
    case _ => WritersKeepInv(s, a, filename);
  }

  lemma {:induction false} ExecutionKeepsInv(states: seq<State>, actions: seq<Action>, filename: string, i: nat)
    requires Execution(states, actions, filename) && i < |states|
    ensures Inv(states[i], filename)
    decreases i
  {
    hide Do, Can;
    if i == 0 {
      assert Normal([]);
    } else {
      ExecutionKeepsInv(states, actions, filename, i - 1);
      StepKeepsInv(states[i - 1], actions[i - 1], filename);
    }
  }

  /** The daemon is waiting, and nothing is queued or half-written that could wake
      it again. */
  predicate Waiting(s: State, filename: string) {
    s.phase.Polling? && s.open == 0 && !Pending(s.events, filename)
  }

  lemma WaitingAgrees(s: State, filename: string)
    requires Inv(s, filename) && Waiting(s, filename)
    ensures s.prev == Parsed(s.file)
    ensures forall j :: 0 <= j < |s.subs| ==>
      ApplyAll(s.subs[j].view, Decoded(s.subs[j].inbox)) == ViewOf(Parsed(s.file))
    ensures forall j :: 0 <= j < |s.subs| && s.subs[j].inbox == [] ==> s.subs[j].view == ViewOf(Parsed(s.file))
  {
    hide ApplyAll, Parse, ViewOf, Pending;
    forall j | 0 <= j < |s.subs|
      ensures ApplyAll(s.subs[j].view, Decoded(s.subs[j].inbox)) == ViewOf(s.prev)
      ensures s.subs[j].inbox == [] ==> s.subs[j].view == ViewOf(s.prev)
    {
      assert Caught(s.subs[j], []) == ViewOf(s.prev);
      assert Decoded(s.subs[j].inbox) + [] == Decoded(s.subs[j].inbox);
      ApplyNone(s.subs[j].view);
    }
  }

  /** In every interleaving, whenever the daemon waits with no event pending, its
      snapshot is the file, and every subscriber holds exactly the file's map as
      soon as it has read its inbox. */
  lemma WatcherAgrees(states: seq<State>, actions: seq<Action>, filename: string, i: nat)
    requires Execution(states, actions, filename) && i < |states| && Waiting(states[i], filename)
    ensures states[i].prev == Parsed(states[i].file)
    ensures forall j :: 0 <= j < |states[i].subs| ==>
      var sub := states[i].subs[j];
      ApplyAll(sub.view, Decoded(sub.inbox)) == ViewOf(Parsed(states[i].file))
    ensures forall j :: 0 <= j < |states[i].subs| && states[i].subs[j].inbox == [] ==>
      states[i].subs[j].view == ViewOf(Parsed(states[i].file))
  {
    hide Inv, Execution, Waiting, ApplyAll, ViewOf, Parsed;
    ExecutionKeepsInv(states, actions, filename, i);
    WaitingAgrees(states[i], filename);
  }

  lemma ApplyNone(m: View)
    ensures ApplyAll(m, []) == m
  {}

  // ---------------------------------------------------------------------
  // Once writers stop
  // ---------------------------------------------------------------------

  /** Steps of the daemon and the subscribers alone. */
  predicate Settling(a: Action) {
    a.Snapshot? || a.Wake? || a.ReadFile? || a.PublishOne? || a.Advance? || a.Deliver?
  }

  function Rank(p: Phase): nat {
    match p case Starting => 3 case Polling => 0 case Reading => 2 case Publishing(_, _) => 1
  }

  function Left(p: Phase): nat {
    match p case Publishing(_, left) => |left| case _ => 0
  }

  function Mail(subs: seq<Subscriber>): nat {
    if |subs| == 0 then 0 else Mail(subs[..|subs| - 1]) + |subs[|subs| - 1].inbox|
  }

  predicate Smaller(t: State, s: State) {
    || |t.events| < |s.events|
    || (|t.events| == |s.events| && (
      || Rank(t.phase) < Rank(s.phase)
      || (Rank(t.phase) == Rank(s.phase) && (
        || Left(t.phase) < Left(s.phase)
        || (Left(t.phase) == Left(s.phase) && Mail(t.subs) < Mail(s.subs))))))
  }

  lemma {:induction false} MailDrops(subs: seq<Subscriber>, i: nat)
    requires i < |subs| && |subs[i].inbox| > 0
    ensures Mail(subs[i := Handle(subs[i])]) == Mail(subs) - 1
    decreases |subs|
  {
    var n := |subs| - 1;
    var after := subs[i := Handle(subs[i])];
    if i < n {
      MailDrops(subs[..n], i);
      assert after[..n] == subs[..n][i := Handle(subs[i])];
    } else {
      assert after[..n] == subs[..n];
    }
  }

  /** Left alone, daemon and subscribers cannot run forever: each of their steps
      decreases a well-founded measure. */
  lemma SettlingEnds(s: State, a: Action, filename: string)
    requires Can(s, a) && Settling(a)
    ensures Smaller(Do(s, a, filename), s)
  {
    hide Deltas, Parse, Pending, Handle, Mail;
    if a.Deliver? {
      MailDrops(s.subs, a.i);
    }
  }

  /** ... and they cannot stop early: when none of their steps is possible, the
      daemon waits, its queue is empty, and so is every inbox. */
  lemma SettledIsQuiet(s: State)
    requires forall a :: Settling(a) ==> !Can(s, a)
    ensures s.phase.Polling? && s.events == []
    ensures forall i :: 0 <= i < |s.subs| ==> s.subs[i].inbox == []
  {
    assert !Can(s, Snapshot) && !Can(s, Wake(1)) && !Can(s, ReadFile) && !Can(s, PublishOne) && !Can(s, Advance);
    forall i | 0 <= i < |s.subs|
      ensures s.subs[i].inbox == []
    {
      assert !Can(s, Deliver(i));
    }
  }

  /** So once writers stop, every run of the daemon and its subscribers ends with
      every subscriber holding exactly the file's map. */
  lemma SettledAgrees(states: seq<State>, actions: seq<Action>, filename: string)
    requires Execution(states, actions, filename)
    requires var s := states[|actions|]; s.open == 0 && forall a :: Settling(a) ==> !Can(s, a)
    ensures var s := states[|actions|];
      forall j :: 0 <= j < |s.subs| ==> s.subs[j].view == ViewOf(Parsed(s.file))
  {
    hide Do, Can, Settling, ViewOf, Parsed, Decoded, ApplyAll;
    SettledIsQuiet(states[|actions|]);
    WatcherAgrees(states, actions, filename, |actions|);
  }

  // ---------------------------------------------------------------------
  // One wake-up as a whole
  // ---------------------------------------------------------------------

  function Payloads(ds: seq<Delta>): seq<string> {
    if |ds| == 0 then [] else Payloads(ds[..|ds| - 1]) + [Payload(ds[|ds| - 1])]
  }

  /** The daemon's remaining steps of a wake-up, with nobody else in between. */
  function Drain(s: State, filename: string): State
    requires s.phase.Publishing?
    decreases |s.phase.left|
  {
    if |s.phase.left| == 0 then Do(s, Advance, filename) else Drain(Do(s, PublishOne, filename), filename)
  }

  lemma {:induction false} PayloadsFront(ds: seq<Delta>)
    requires |ds| > 0
    ensures Payloads(ds) == [Payload(ds[0])] + Payloads(ds[1..])
    decreases |ds|
  {
    hide Payload;
    var n := |ds| - 1;
    if n > 0 {
      PayloadsFront(ds[..n]);
      assert ds[..n][1..] == ds[1..][..n - 1];
    }
  }

  lemma {:induction false} DrainIs(s: State, filename: string)
    requires s.phase.Publishing?
    ensures var t := Drain(s, filename);
      && t.phase == Polling && t.prev == s.phase.cur && |t.subs| == |s.subs|
      && t.file == s.file && t.events == s.events
      && (forall i :: 0 <= i < |s.subs| ==>
          t.subs[i] == s.subs[i].(inbox := s.subs[i].inbox + Payloads(s.phase.left)))
    decreases |s.phase.left|
  {
    hide Payload;
    var left := s.phase.left;
    if |left| > 0 {
      var u := Do(s, PublishOne, filename);
      DrainIs(u, filename);
      PayloadsFront(left);
      forall i | 0 <= i < |s.subs|
        ensures u.subs[i].inbox + Payloads(left[1..]) == s.subs[i].inbox + Payloads(left)
      {
        assert u.subs[i] == Post(s.subs[i], Payload(left[0]));
      }
    }
  }

  /** A whole undisturbed wake-up. */
  function WokenUp(s: State, n: nat, filename: string): State
    requires s.phase.Polling? && 0 < n <= |s.events|
  {
    var woken := Do(s, Wake(n), filename);
    if !woken.phase.Reading? then woken
    else
      var read := Do(woken, ReadFile, filename);
      if read.phase.Publishing? then Drain(read, filename) else read
  }

  /** The snapshot becomes the file, and every inbox gets the payloads of the
      difference, or nothing happens but that the events are gone. */
  lemma WakeUpIs(s: State, n: nat, filename: string)
    requires s.phase.Polling? && 0 < n <= |s.events|
    ensures var t := WokenUp(s, n, filename);
      if !Pending(s.events[..n], filename) || s.file.None? then t == s.(events := s.events[n..])
      else
        && t.phase == Polling && t.prev == Parse(s.file.value) && |t.subs| == |s.subs|
        && t.file == s.file && t.events == s.events[n..]
        && forall i :: 0 <= i < |s.subs| ==>
          t.subs[i] == s.subs[i].(inbox := s.subs[i].inbox + Payloads(Deltas(s.prev, Parse(s.file.value))))
  {
    hide Parse, Deltas, Payloads, Drain, Pending;
    var woken := Do(s, Wake(n), filename);
    if woken.phase.Reading? && s.file.Some? {
      DrainIs(Do(woken, ReadFile, filename), filename);
    }
  }

  /** A finished rename, or a writer's close, is always seen: the next wake-up
      publishes the difference to what was there. */
  lemma WriteIsPublished(s: State, text: string, filename: string)
    requires s.phase.Polling?
    ensures Can(s, Rename(text))
    ensures var renamed := Do(s, Rename(text), filename);
      var t := WokenUp(renamed, |renamed.events|, filename);
      && t.prev == Parse(text) && |t.subs| == |s.subs|
      && forall i :: 0 <= i < |s.subs| ==>
        t.subs[i].inbox == s.subs[i].inbox + Payloads(Deltas(s.prev, Parse(text)))
    ensures s.open > 0 ==> Can(s, CloseInPlace)
    ensures s.open > 0 && s.file == Some(text) ==>
      var closed := Do(s, CloseInPlace, filename);
      var t := WokenUp(closed, |closed.events|, filename);
      t.prev == Parse(text) && |t.subs| == |s.subs|
  {
    hide Parse, Deltas, Payloads, WokenUp;
    var renamed := Do(s, Rename(text), filename);
    var n := |renamed.events|;
    assert renamed.events[..n][n - 1] == filename;
    WakeUpIs(renamed, n, filename);
    if s.open > 0 {
      var closed := Do(s, CloseInPlace, filename);
      assert closed.events[..n][n - 1] == filename;
      WakeUpIs(closed, n, filename);
    }
  }

  // ---------------------------------------------------------------------
  // From any poll to a quiet one
  // ---------------------------------------------------------------------

  predicate Runs(s: State, actions: seq<Action>, t: State, filename: string)
    decreases |actions|
  {
    if |actions| == 0 then t == s
    else Can(s, actions[0]) && Runs(Do(s, actions[0], filename), actions[1..], t, filename)
  }

  lemma RunsCons(s: State, a: Action, rest: seq<Action>, t: State, filename: string)
    requires Can(s, a) && Runs(Do(s, a, filename), rest, t, filename)
    ensures Runs(s, [a] + rest, t, filename)
  {
    hide Can, Do;
    assert ([a] + rest)[1..] == rest;
  }

  lemma {:induction false} RunsConcat(s: State, a: seq<Action>, t: State, b: seq<Action>, u: State, filename: string)
    requires Runs(s, a, t, filename) && Runs(t, b, u, filename)
    ensures Runs(s, a + b, u, filename)
    decreases |a|
  {
    hide Can, Do;
    if |a| == 0 {
      assert a + b == b;
    } else {
      RunsConcat(Do(s, a[0], filename), a[1..], t, b, u, filename);
      assert (a + b)[1..] == a[1..] + b;
    }
  }

  predicate AllSettling(actions: seq<Action>) {
    forall i :: 0 <= i < |actions| ==> Settling(actions[i])
  }

  lemma {:induction false} DrainRuns(s: State, filename: string) returns (actions: seq<Action>)
    requires s.phase.Publishing?
    ensures Runs(s, actions, Drain(s, filename), filename) && AllSettling(actions)
    decreases |s.phase.left|
  {
    hide Payload, Runs;
    var t := Drain(s, filename);
    if |s.phase.left| == 0 {
      NothingRun(t, filename);
      RunsCons(s, Advance, [], t, filename);
      actions := [Advance] + [];
    } else {
      var rest := DrainRuns(Do(s, PublishOne, filename), filename);
      RunsCons(s, PublishOne, rest, t, filename);
      actions := [PublishOne] + rest;
    }
  }

  lemma NothingRun(s: State, filename: string)
    ensures Runs(s, [], s, filename)
  {}

  lemma WokenUpRuns(s: State, n: nat, filename: string) returns (actions: seq<Action>)
    requires s.phase.Polling? && 0 < n <= |s.events|
    ensures Runs(s, actions, WokenUp(s, n, filename), filename) && AllSettling(actions)
  {
    hide Runs, Parse, Deltas, Drain, Pending;
    var woken, t := Do(s, Wake(n), filename), WokenUp(s, n, filename);
    var rest: seq<Action> := [];
    if woken.phase.Reading? {
      var read := Do(woken, ReadFile, filename);
      if read.phase.Publishing? {
        rest := DrainRuns(read, filename);
      } else {
        NothingRun(t, filename);
      }
      RunsCons(woken, ReadFile, rest, t, filename);
      rest := [ReadFile] + rest;
    } else {
      NothingRun(t, filename);
    }
    RunsCons(s, Wake(n), rest, t, filename);
    actions := [Wake(n)] + rest;
  }

  /** Every subscriber reads its inbox to the end. */
  lemma {:induction false} MailRuns(s: State, filename: string) returns (actions: seq<Action>, t: State)
    ensures Runs(s, actions, t, filename) && AllSettling(actions)
    ensures t == s.(subs := t.subs) && |t.subs| == |s.subs|
    ensures forall i :: 0 <= i < |t.subs| ==> t.subs[i].inbox == []
    decreases Mail(s.subs)
  {
    hide Runs, Handle, Mail;
    if i :| 0 <= i < |s.subs| && |s.subs[i].inbox| > 0 {
      var rest;
      MailDrops(s.subs, i);
      rest, t := MailRuns(Do(s, Deliver(i), filename), filename);
      RunsCons(s, Deliver(i), rest, t, filename);
      actions := [Deliver(i)] + rest;
    } else {
      actions, t := [], s;
      NothingRun(s, filename);
    }
  }

  /** Left to itself the daemon takes its events, publishes, and every inbox is
      read: a run of settling steps ends with nothing left to do. */
  lemma QuietRuns(s: State, filename: string) returns (actions: seq<Action>, t: State)
    requires s.phase.Polling?
    ensures Runs(s, actions, t, filename) && AllSettling(actions)
    ensures t.phase == Polling && t.events == [] && t.file == s.file && t.open == s.open && |t.subs| == |s.subs|
    ensures forall i :: 0 <= i < |t.subs| ==> t.subs[i].inbox == []
  {
    hide Runs, Parse, Deltas, Payloads, WokenUp, Pending;
    var first, u := [], s;
    if |s.events| > 0 {
      first := WokenUpRuns(s, |s.events|, filename);
      WakeUpIs(s, |s.events|, filename);
      u := WokenUp(s, |s.events|, filename);
      WokenUpOpen(s, |s.events|, filename);
    } else {
      NothingRun(s, filename);
    }
    var rest;
    rest, t := MailRuns(u, filename);
    RunsConcat(s, first, u, rest, t, filename);
    actions := first + rest;
  }

  lemma WokenUpOpen(s: State, n: nat, filename: string)
    requires s.phase.Polling? && 0 < n <= |s.events|
    ensures WokenUp(s, n, filename).open == s.open
  {
    hide Parse, Deltas, Drain, Pending;
    var woken := Do(s, Wake(n), filename);
    if woken.phase.Reading? && s.file.Some? {
      DrainOpen(Do(woken, ReadFile, filename), filename);
    }
  }

  lemma {:induction false} DrainOpen(s: State, filename: string)
    requires s.phase.Publishing?
    ensures Drain(s, filename).open == s.open
    decreases |s.phase.left|
  {
    hide Payload;
    if |s.phase.left| > 0 {
      DrainOpen(Do(s, PublishOne, filename), filename);
    }
  }
}
