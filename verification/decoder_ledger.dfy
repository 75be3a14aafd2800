/** The decoder bookkeeping of one machine context, as values: what each event
    does to the tracked processes and crash counts, and what holds after any
    series of them. */
module DecoderLedger {
  import opened Options

  datatype Failure = Failure(count: int, last: real)

  /** One thing that happened to a decoder, with the clock's reading. */
  datatype Event =
    | Spawned(topic: string, pid: nat, at: real)
    | Crashed(topic: string, pid: nat, at: real, count: int)
    | Terminated(topic: string, pid: nat, at: real)
    | Recovered(topic: string, at: real)                  // seen alive for longer than an interval

  datatype Policy = Policy(threshold: int, window: real, interval: real)

  /** `trace` records every event since the context was created. */
  datatype Ledger = Ledger(active: map<string, nat>, startedAt: map<string, real>,
                           failures: map<string, Failure>, trace: seq<Event>)

  // ---------------------------------------------------------------------
  // Steps
  // ---------------------------------------------------------------------

  /** The failure record after a crash: counting restarts when the last crash is
      longer ago than the window. A new record starts from time zero. */
  function Counted(failures: map<string, Failure>, topic: string, now: real, policy: Policy): Failure {
    var f := if topic in failures then failures[topic] else Failure(0, 0.0);
    Failure((if now - f.last > policy.window then 0 else f.count) + 1, now)
  }

  function Drop(l: Ledger, topic: string): Ledger {
    l.(active := l.active - {topic}, startedAt := l.startedAt - {topic})
  }

  function Crash(l: Ledger, topic: string, now: real, policy: Policy): Ledger
    requires topic in l.active
  {
    var f := Counted(l.failures, topic, now, policy);
    Drop(l, topic).(failures := l.failures[topic := f],
                    trace := l.trace + [Crashed(topic, l.active[topic], now, f.count)])
  }

  function Terminate(l: Ledger, topic: string, now: real): Ledger
    requires topic in l.active
  {
    Drop(l, topic).(trace := l.trace + [Terminated(topic, l.active[topic], now)])
  }

  function Spawn(l: Ledger, topic: string, pid: nat, now: real): Ledger {
    l.(active := l.active[topic := pid], startedAt := l.startedAt[topic := now],
       trace := l.trace + [Spawned(topic, pid, now)])
  }

  function Forgive(l: Ledger, topic: string): Ledger {
    l.(failures := l.failures - {topic})
  }

  function Recover(l: Ledger, topic: string, now: real): Ledger {
    Forgive(l, topic).(trace := l.trace + [Recovered(topic, now)])
  }

  predicate Blocked(l: Ledger, topic: string, policy: Policy) {
    topic in l.failures && l.failures[topic].count >= policy.threshold
  }

  predicate Expired(l: Ledger, topic: string, now: real, policy: Policy) {
    topic in l.failures && now - l.failures[topic].last > policy.window
  }

  predicate RestartAllowed(l: Ledger, topic: string, now: real, policy: Policy) {
    Expired(l, topic, now, policy) || !Blocked(l, topic, policy)
  }

  /** Asking about an expired failure record also discards it. */
  function Asked(l: Ledger, topic: string, now: real, policy: Policy): Ledger {
    if Expired(l, topic, now, policy) then Forgive(l, topic) else l
  }

  // ---------------------------------------------------------------------
  // What a trace says
  // ---------------------------------------------------------------------

  function Front(trace: seq<Event>): seq<Event>
    requires |trace| > 0
  {
    trace[..|trace| - 1]
  }

  function Last(trace: seq<Event>): Event
    requires |trace| > 0
  {
    trace[|trace| - 1]
  }

  predicate Ends(e: Event) {
    e.Crashed? || e.Terminated?
  }

  /** Processes ever started. */
  function Started(trace: seq<Event>): set<nat> {
    if |trace| == 0 then {}
    else Started(Front(trace)) + if Last(trace).Spawned? then {Last(trace).pid} else {}
  }

  /** Processes found dead or terminated. */
  function Ended(trace: seq<Event>): set<nat> {
    if |trace| == 0 then {}
    else Ended(Front(trace)) + if Ends(Last(trace)) then {Last(trace).pid} else {}
  }

  /** No process is started twice, and none is reaped or terminated twice. */
  predicate Once(trace: seq<Event>) {
    |trace| > 0 ==>
      && Once(Front(trace))
      && (Last(trace).Spawned? ==> Last(trace).pid !in Started(Front(trace)))
      && (Ends(Last(trace)) ==> Last(trace).pid !in Ended(Front(trace)))
  }

  /** The topic has been started and not ended since. */
  predicate Alive(trace: seq<Event>, topic: string) {
    |trace| > 0 &&
    if Last(trace).topic == topic && !Last(trace).Recovered? then Last(trace).Spawned? else Alive(Front(trace), topic)
  }

  /** A topic is only started when it has no process and only ended when it has
      one, so no start ever overwrites a tracked process. */
  predicate Alternates(trace: seq<Event>) {
    |trace| > 0 ==>
      && Alternates(Front(trace))
      && (Last(trace).Spawned? <==> !Alive(Front(trace), Last(trace).topic))
  }

  predicate InOrder(trace: seq<Event>, now: real) {
    |trace| > 0 ==> Last(trace).at <= now && InOrder(Front(trace), Last(trace).at)
  }

  /** When the topic's crashes last reached the threshold, unless it has been
      started since. */
  function HeldSince(trace: seq<Event>, topic: string, policy: Policy): Option<real> {
    if |trace| == 0 then None
    else if Last(trace).topic != topic || Last(trace).Terminated? || Last(trace).Recovered? then
      HeldSince(Front(trace), topic, policy)
    else if Last(trace).Crashed? && Last(trace).count >= policy.threshold then Some(Last(trace).at)
    else None
  }

  /** No held topic was started before its window had passed. */
  predicate BacksOff(trace: seq<Event>, policy: Policy) {
    |trace| > 0 ==>
      && BacksOff(Front(trace), policy)
      && (Last(trace).Spawned? ==>
          match HeldSince(Front(trace), Last(trace).topic, policy)
          case None => true
          case Some(t) => Last(trace).at - t > policy.window)
  }

  /** The topic's latest crash, unless it has recovered since. */
  function LatestCrash(trace: seq<Event>, topic: string): Option<Event> {
    if |trace| == 0 then None
    else if Last(trace).topic != topic then LatestCrash(Front(trace), topic)
    else if Last(trace).Crashed? then Some(Last(trace))
    else if Last(trace).Recovered? then None
    else LatestCrash(Front(trace), topic)
  }

  /** A crash's place in its streak: crashes follow on from one another while no
      gap exceeds the window and the decoder has not recovered. */
  function Streak(trace: seq<Event>, topic: string, at: real, policy: Policy): int {
    match LatestCrash(trace, topic)
    case None => 1
    case Some(e) => if !e.Crashed? || at - e.at > policy.window then 1 else e.count + 1
  }

  predicate CountsStreaks(trace: seq<Event>, policy: Policy) {
    |trace| > 0 ==>
      && CountsStreaks(Front(trace), policy)
      && (Last(trace).Crashed? ==>
          Last(trace).count == Streak(Front(trace), Last(trace).topic, Last(trace).at, policy) <= policy.threshold)
  }

  // ---------------------------------------------------------------------
  // The invariant
  // ---------------------------------------------------------------------

  predicate CountsOk(l: Ledger, policy: Policy, now: real) {
    && (forall t :: t in l.failures ==> 1 <= l.failures[t].count <= policy.threshold && l.failures[t].last <= now)
    && (forall t :: t in l.active ==> !Blocked(l, t, policy))
  }

  ghost predicate Tracked(l: Ledger) {
    && l.startedAt.Keys == l.active.Keys
    && (forall t, u :: t in l.active && u in l.active && l.active[t] == l.active[u] ==> t == u)
    && Started(l.trace) == l.active.Values + Ended(l.trace)
    && l.active.Values !! Ended(l.trace)
    && Once(l.trace)
    && Alternates(l.trace)
    && forall t :: t in l.active <==> Alive(l.trace, t)
  }

  /** A hold is remembered by its failure record until its window has passed. */
  ghost predicate Held(l: Ledger, policy: Policy, now: real) {
    && BacksOff(l.trace, policy)
    && forall t :: match HeldSince(l.trace, t, policy)
      case None => true
      case Some(at) => now - at > policy.window || (Blocked(l, t, policy) && l.failures[t].last == at)
  }

  /** The failure records are the latest crashes; one is dropped early only when
      it can no longer count. */
  ghost predicate Remembers(l: Ledger, policy: Policy, now: real) {
    && CountsStreaks(l.trace, policy)
    && forall t :: match LatestCrash(l.trace, t)
      case None => t !in l.failures
      case Some(e) =>
        e.Crashed? &&
        if t in l.failures then l.failures[t] == Failure(e.count, e.at) else now - e.at > policy.window
  }

  ghost predicate Inv(l: Ledger, policy: Policy, now: real) {
    CountsOk(l, policy, now) && Tracked(l) && Held(l, policy, now) && Remembers(l, policy, now) && InOrder(l.trace, now)
  }

  lemma Unfold(trace: seq<Event>, e: Event)
    ensures Front(trace + [e]) == trace && Last(trace + [e]) == e
  {}

  lemma ValuesAfterDrop(active: map<string, nat>, topic: string)
    requires topic in active
    requires forall t, u :: t in active && u in active && active[t] == active[u] ==> t == u
    ensures (active - {topic}).Values == active.Values - {active[topic]}
  {
    var rest := active - {topic};
    forall p | p in active.Values && p != active[topic]
      ensures p in rest.Values
    {
      var t :| t in active && active[t] == p;
      assert t in rest && rest[t] == p;
    }
    forall p | p in rest.Values
      ensures p in active.Values && p != active[topic]
    {
      var t :| t in rest && rest[t] == p;
      assert t in active && active[t] == p;
    }
  }

  lemma ValuesAfterAdd(active: map<string, nat>, topic: string, pid: nat)
    requires topic !in active
    ensures active[topic := pid].Values == active.Values + {pid}
  {
    var more := active[topic := pid];
    assert topic in more && more[topic] == pid;
    forall p | p in active.Values
      ensures p in more.Values
    {
      var t :| t in active && active[t] == p;
      assert t in more && more[t] == p;
    }
  }

  /** An ending event keeps every process accounted for. */
  lemma EndKeepsTracked(l: Ledger, topic: string, e: Event)
    requires Tracked(l) && topic in l.active && Ends(e) && e.topic == topic && e.pid == l.active[topic]
    ensures Tracked(Drop(l, topic).(trace := l.trace + [e]))
  {
    Unfold(l.trace, e);
    ValuesAfterDrop(l.active, topic);
    assert e.pid in l.active.Values;
  }

  lemma CrashKeepsInv(l: Ledger, topic: string, now: real, policy: Policy)
    requires Inv(l, policy, now) && policy.threshold >= 1 && topic in l.active
    ensures Inv(Crash(l, topic, now, policy), policy, now)
  {
    hide Tracked, Held, Remembers, InOrder;
    var t := Crash(l, topic, now, policy);
    var e := Crashed(topic, l.active[topic], now, t.failures[topic].count);
    Unfold(l.trace, e);
    EndKeepsTracked(l, topic, e);
    TrackedIgnoresFailures(Drop(l, topic).(trace := l.trace + [e]), t);
    EndKeepsHeld(l, t, e, policy, now);
    CrashKeepsRemembers(l, topic, now, policy);
    AppendInOrder(l.trace, e);
  }

  lemma CrashKeepsRemembers(l: Ledger, topic: string, now: real, policy: Policy)
    requires Remembers(l, policy, now) && CountsOk(l, policy, now) && policy.threshold >= 1 && topic in l.active
    ensures Remembers(Crash(l, topic, now, policy), policy, now)
  {
    var t := Crash(l, topic, now, policy);
    Unfold(l.trace, Crashed(topic, l.active[topic], now, t.failures[topic].count));
  }

  /** Starts and terminations do not touch the crash history. */
  lemma QuietKeepsRemembers(l: Ledger, t: Ledger, e: Event, policy: Policy, asked: real, now: real)
    requires Remembers(l, policy, asked) && asked <= now && (e.Spawned? || e.Terminated?) && t.trace == l.trace + [e]
    requires t.failures == l.failures || t.failures == Asked(l, e.topic, asked, policy).failures
    ensures Remembers(t, policy, now)
  {
    Unfold(l.trace, e);
  }

  lemma TrackedIgnoresFailures(a: Ledger, b: Ledger)
    requires Tracked(a) && a.active == b.active && a.startedAt == b.startedAt && a.trace == b.trace
    ensures Tracked(b)
  {}

  /** Crashes and terminations never break the backoff; a crash at the threshold
      starts a hold that the failure record remembers. */
  lemma EndKeepsHeld(l: Ledger, t: Ledger, e: Event, policy: Policy, now: real)
    requires Held(l, policy, now) && Ends(e) && t.trace == l.trace + [e]
    requires forall u :: u != e.topic && u in l.failures ==> u in t.failures && t.failures[u] == l.failures[u]
    requires e.Terminated? ==> t.failures == l.failures
    requires e.Crashed? ==> e.topic in t.failures && t.failures[e.topic] == Failure(e.count, e.at)
    ensures Held(t, policy, now)
  {
    Unfold(l.trace, e);
    forall u
      ensures match HeldSince(t.trace, u, policy)
        case None => true
        case Some(at) => now - at > policy.window || (Blocked(t, u, policy) && t.failures[u].last == at)
    {
      var _ := HeldSince(l.trace, u, policy);
    }
  }

  lemma TerminateKeepsInv(l: Ledger, topic: string, now: real, policy: Policy)
    requires Inv(l, policy, now) && topic in l.active
    ensures Inv(Terminate(l, topic, now), policy, now)
  {
    hide Tracked, Held, Remembers, InOrder;
    var t := Terminate(l, topic, now);
    var e := Terminated(topic, l.active[topic], now);
    Unfold(l.trace, e);
    EndKeepsTracked(l, topic, e);
    EndKeepsHeld(l, t, e, policy, now);
    QuietKeepsRemembers(l, t, e, policy, now, now);
    AppendInOrder(l.trace, e);
  }

  /** A topic that may be restarted is started with a process never used before. */
  lemma SpawnKeepsInv(l: Ledger, topic: string, pid: nat, asked: real, now: real, policy: Policy)
    requires Inv(l, policy, asked) && asked <= now && topic !in l.active
    requires RestartAllowed(l, topic, asked, policy) && pid !in Started(l.trace)
    ensures Inv(Spawn(Asked(l, topic, asked, policy), topic, pid, now), policy, now)
  {
    hide Tracked, Held, Remembers, InOrder;
    var t := Spawn(Asked(l, topic, asked, policy), topic, pid, now);
    Unfold(l.trace, Spawned(topic, pid, now));
    SpawnKeepsTracked(l, t, topic, pid, now);
    SpawnKeepsHeld(l, t, topic, pid, asked, now, policy);
    QuietKeepsRemembers(l, t, Spawned(topic, pid, now), policy, asked, now);
    LaterInOrder(l.trace, asked, now);
    AppendInOrder(l.trace, Spawned(topic, pid, now));
  }

  lemma SpawnKeepsTracked(l: Ledger, t: Ledger, topic: string, pid: nat, now: real)
    requires Tracked(l) && topic !in l.active && pid !in Started(l.trace)
    requires t.active == l.active[topic := pid] && t.startedAt == l.startedAt[topic := now]
    requires t.trace == l.trace + [Spawned(topic, pid, now)]
    ensures Tracked(t)
  {
    Unfold(l.trace, Spawned(topic, pid, now));
    ValuesAfterAdd(l.active, topic, pid);
    forall u | u in l.active
      ensures l.active[u] != pid
    {
      assert l.active[u] in l.active.Values;
    }
  }

  lemma SpawnKeepsHeld(l: Ledger, t: Ledger, topic: string, pid: nat, asked: real, now: real, policy: Policy)
    requires Held(l, policy, asked) && asked <= now && RestartAllowed(l, topic, asked, policy)
    requires t.trace == l.trace + [Spawned(topic, pid, now)]
    requires t.failures == Asked(l, topic, asked, policy).failures
    ensures Held(t, policy, now)
  {
    Unfold(l.trace, Spawned(topic, pid, now));
    var _ := HeldSince(l.trace, topic, policy);
    forall u
      ensures match HeldSince(t.trace, u, policy)
        case None => true
        case Some(at) => now - at > policy.window || (Blocked(t, u, policy) && t.failures[u].last == at)
    {
      var _ := HeldSince(l.trace, u, policy);
    }
  }

  lemma LaterInOrder(trace: seq<Event>, now: real, later: real)
    requires InOrder(trace, now) && now <= later
    ensures InOrder(trace, later)
  {}

  lemma AppendInOrder(trace: seq<Event>, e: Event)
    requires InOrder(trace, e.at)
    ensures InOrder(trace + [e], e.at)
  {
    Unfold(trace, e);
  }

  /** Time passing changes nothing. */
  lemma LaterKeepsInv(l: Ledger, policy: Policy, now: real, later: real)
    requires Inv(l, policy, now) && now <= later
    ensures Inv(l, policy, later)
  {
    hide Tracked, InOrder, CountsStreaks, BacksOff;
    LaterInOrder(l.trace, now, later);
  }

  /** A decoder that is running may have its record cleared: it is not held. */
  lemma RecoverKeepsInv(l: Ledger, topic: string, now: real, policy: Policy)
    requires Inv(l, policy, now) && topic in l.active
    ensures Inv(Recover(l, topic, now), policy, now)
  {
    hide Tracked, Held, Remembers, InOrder;
    RecoverKeepsTracked(l, topic, now);
    RecoverKeepsHistory(l, topic, now, policy);
    AppendInOrder(l.trace, Recovered(topic, now));
  }

  lemma RecoverKeepsTracked(l: Ledger, topic: string, now: real)
    requires Tracked(l) && topic in l.active
    ensures Tracked(Recover(l, topic, now))
  {
    Unfold(l.trace, Recovered(topic, now));
  }

  lemma RecoverKeepsHistory(l: Ledger, topic: string, now: real, policy: Policy)
    requires Held(l, policy, now) && Remembers(l, policy, now) && !Blocked(l, topic, policy)
    ensures Held(Recover(l, topic, now), policy, now) && Remembers(Recover(l, topic, now), policy, now)
  {
    var t := Recover(l, topic, now);
    Unfold(l.trace, Recovered(topic, now));
    forall u
      ensures match HeldSince(t.trace, u, policy)
        case None => true
        case Some(at) => now - at > policy.window || (Blocked(t, u, policy) && t.failures[u].last == at)
    {
      var _ := HeldSince(l.trace, u, policy);
    }
  }

  /** Discarding an expired record is harmless even if the start then fails. */
  lemma AskKeepsInv(l: Ledger, topic: string, asked: real, policy: Policy)
    requires Inv(l, policy, asked)
    ensures Inv(Asked(l, topic, asked, policy), policy, asked)
  {
    hide BacksOff, InOrder, CountsStreaks;
    TrackedIgnoresFailures(l, Asked(l, topic, asked, policy));
    HeldAfterAsking(l, topic, asked, policy);
  }

  lemma HeldAfterAsking(l: Ledger, topic: string, asked: real, policy: Policy)
    requires Held(l, policy, asked)
    ensures Held(Asked(l, topic, asked, policy), policy, asked)
  {
    var t := Asked(l, topic, asked, policy);
    forall u
      ensures match HeldSince(t.trace, u, policy)
        case None => true
        case Some(at) => asked - at > policy.window || (Blocked(t, u, policy) && t.failures[u].last == at)
    {
      var _ := HeldSince(l.trace, u, policy);
    }
  }

  // ---------------------------------------------------------------------
  // What follows for whole runs
  // ---------------------------------------------------------------------

  lemma {:induction false} TimesSorted(trace: seq<Event>, now: real, i: nat, j: nat)
    requires InOrder(trace, now) && i <= j < |trace|
    ensures trace[i].at <= trace[j].at <= now
    decreases |trace|
  {
    if j < |trace| - 1 {
      TimesSorted(Front(trace), Last(trace).at, i, j);
    } else if i < j {
      TimesSorted(Front(trace), Last(trace).at, i, j - 1);
    }
  }

  /** Until the topic is started again, a crash at the threshold is its hold. */
  lemma {:induction false} HoldLasts(trace: seq<Event>, policy: Policy, i: nat)
    requires Alternates(trace) && i < |trace| && trace[i].Crashed? && trace[i].count >= policy.threshold
    requires forall j :: i < j < |trace| && trace[j].Spawned? ==> trace[j].topic != trace[i].topic
    ensures HeldSince(trace, trace[i].topic, policy) == Some(trace[i].at) && !Alive(trace, trace[i].topic)
    decreases |trace|
  {
    if i < |trace| - 1 {
      HoldLasts(Front(trace), policy, i);
    }
  }

  lemma {:induction false} SpawnWaited(trace: seq<Event>, policy: Policy, j: nat)
    requires BacksOff(trace, policy) && j < |trace| && trace[j].Spawned?
    ensures match HeldSince(trace[..j], trace[j].topic, policy)
      case None => true
      case Some(t) => trace[j].at - t > policy.window
    decreases |trace|
  {
    if j < |trace| - 1 {
      SpawnWaited(Front(trace), policy, j);
      assert Front(trace)[..j] == trace[..j];
    }
  }

  lemma {:induction false} PrefixAlternates(trace: seq<Event>, j: nat)
    requires Alternates(trace) && j <= |trace|
    ensures Alternates(trace[..j])
    decreases |trace|
  {
    if j < |trace| {
      PrefixAlternates(Front(trace), j);
      assert Front(trace)[..j] == trace[..j];
    } else {
      assert trace[..j] == trace;
    }
  }

  /** In any run: once a topic's crashes reach the threshold, no later start of it
      comes before more than the window has passed. */
  lemma {:induction false} RestartWaits(l: Ledger, policy: Policy, now: real, i: nat, j: nat)
    requires Inv(l, policy, now) && i < j < |l.trace|
    requires l.trace[i].Crashed? && l.trace[i].count >= policy.threshold
    requires l.trace[j].Spawned? && l.trace[j].topic == l.trace[i].topic
    ensures l.trace[j].at - l.trace[i].at > policy.window
    decreases j
  {
    hide CountsOk, Remembers, HeldSince, Alive, BacksOff, Alternates, InOrder, Once;
    if k: nat :| i < k < j && l.trace[k].Spawned? && l.trace[k].topic == l.trace[i].topic {
      RestartWaits(l, policy, now, i, k);
      TimesSorted(l.trace, now, k, j);
    } else {
      SpawnWaited(l.trace, policy, j);
      PrefixAlternates(l.trace, j);
      HoldLasts(l.trace[..j], policy, i);
    }
  }

  lemma {:induction false} CrashCounts(trace: seq<Event>, policy: Policy, i: nat)
    requires CountsStreaks(trace, policy) && i < |trace| && trace[i].Crashed?
    ensures trace[i].count == Streak(trace[..i], trace[i].topic, trace[i].at, policy) <= policy.threshold
    decreases |trace|
  {
    if i < |trace| - 1 {
      CrashCounts(Front(trace), policy, i);
      assert Front(trace)[..i] == trace[..i];
    }
  }

  /** In any run: a crash is counted as its place in a streak of crashes no two of
      which are further apart than the window, and no streak outgrows the
      threshold. */
  lemma CrashIsItsStreak(l: Ledger, policy: Policy, now: real, i: nat)
    requires Inv(l, policy, now) && i < |l.trace| && l.trace[i].Crashed?
    ensures l.trace[i].count == Streak(l.trace[..i], l.trace[i].topic, l.trace[i].at, policy) <= policy.threshold
  {
    CrashCounts(l.trace, policy, i);
  }
}
