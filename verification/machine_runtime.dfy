/** One machine context's decoder supervision, with its dictionaries updated in
    place. */
module MachineRuntime {
  import opened Options
  import opened DecoderLedger
  import opened Topics

  /** The operating system as one context sees it: a clock that never goes back,
      the processes the context started, numbered without reuse, and which of them
      have exited of themselves or been ended. Which starts it refuses is an
      input. */
  class Host {
    const refuses: nat -> bool
    var now: real
    var attempts: nat
    var nextPid: nat
    var children: map<nat, string>
    var exited: set<nat>
    var ended: set<nat>

    constructor (refuses: nat -> bool)
      ensures this.refuses == refuses && now == 0.0 && attempts == 0 && nextPid == 0
      ensures children == map[] && exited == {} && ended == {}
    {
      this.refuses := refuses;
      now, attempts, nextPid, children, exited, ended := 0.0, 0, 0, map[], {}, {};
    }

    method Monotonic() returns (t: real)
      modifies this`now
      ensures t == now >= old(now)
    {
      var later: real := *;
      if later > now {
        now := later;
      }
      t := now;
    }

    /** Starts the decoder of a topic. */
    method Start(topic: string) returns (started: Option<nat>)
      modifies this`attempts, this`nextPid, this`children
      ensures attempts == old(attempts) + 1
      ensures if refuses(old(attempts))
        then started == None && nextPid == old(nextPid) && children == old(children)
        else
          && started == Some(old(nextPid)) && nextPid == old(nextPid) + 1
          && children == old(children)[old(nextPid) := topic]
    {
      attempts := attempts + 1;
      if refuses(attempts - 1) {
        return None;
      }
      started := Some(nextPid);
      children := children[nextPid := topic];
      nextPid := nextPid + 1;
    }

    /** Processes may exit at any time, and stay so. */
    method HasExited(pid: nat) returns (yes: bool)
      modifies this`exited
      ensures old(exited) <= exited <= old(exited) + children.Keys && (yes <==> pid in exited)
    {
      var more: set<nat> := *;
      exited := exited + more * children.Keys;
      yes := pid in exited;
    }

    /** Terminates a process, kills it if it does not go, and waits for it. */
    method End(pid: nat)
      modifies this`ended
      ensures ended == old(ended) + {pid}
    {
      ended := ended + {pid};
    }
  }

  class Runtime {
    const host: Host
    const policy: Policy
    var active: map<string, nat>
    var startedAt: map<string, real>
    var failures: map<string, Failure>
    ghost var trace: seq<Event>

    ghost function Now(): Ledger
      reads this
    {
      Ledger(active, startedAt, failures, trace)
    }

    ghost predicate Valid()
      reads this, host
    {
      && policy.threshold >= 1
      && Inv(Now(), policy, host.now)
      && Owned(Now(), host.children, host.nextPid, host.exited, host.ended)
    }

    constructor (host: Host, policy: Policy)
      requires policy.threshold >= 1 && host.children == map[] && host.ended == host.exited == {}
      ensures Valid() && this.host == host && this.policy == policy
      ensures trace == [] && active == map[]
    {
      this.host, this.policy := host, policy;
      active, startedAt, failures, trace := map[], map[], map[], [];
    }

    /** Starts a decoder for a topic the backoff lets start, as asked at `asked`
        of the books `before`; false when the system cannot. */
    method SpawnDecoder(topic: string, ghost before: Ledger, ghost asked: real) returns (ok: bool)
      requires Valid() && asked <= host.now && topic !in active
      requires Inv(before, policy, asked) && RestartAllowed(before, topic, asked, policy)
      requires before.active == active && before.trace == trace && Now() == Asked(before, topic, asked, policy)
      modifies this`active, this`startedAt, this`trace, host`now, host`attempts, host`nextPid, host`children
      ensures Valid() && host.now >= old(host.now)
      ensures host.attempts == old(host.attempts) + 1 && ok == !host.refuses(old(host.attempts))
      ensures old(host.nextPid) <= host.nextPid && (ok ==> topic in active && active[topic] >= old(host.nextPid))
      ensures ok ==> topic in startedAt
      ensures ok ==> Now() == Spawn(old(Now()), topic, active[topic], startedAt[topic])
      ensures !ok ==> Now() == old(Now())
    {
      hide Inv, Owned, Started, Ended, RestartAllowed, Asked;
      ghost var l, children := Now(), host.children;
      var started := host.Start(topic);
      if started.None? {
        return false;
      }
      active := active[topic := started.value];
      var t := host.Monotonic();
      startedAt := startedAt[topic := t];
      SpawnOwned(l, topic, started.value, t, children, host.exited, host.ended);
      SpawnKeepsInv(before, topic, started.value, asked, t, policy);
      trace := trace + [Spawned(topic, started.value, t)];
      ok := true;
    }

    /** Forgets a decoder, ends it and waits for it. */
    method TerminateDecoder(topic: string)
      requires Valid()
      modifies this`active, this`startedAt, this`trace, host`ended
      ensures Valid()
      ensures host.ended == old(host.ended) + if topic in old(active) then {old(active)[topic]} else {}
      ensures Now() == if topic in old(active) then Terminate(old(Now()), topic, host.now) else old(Now())
    {
      hide Inv, Owned, Started, Ended;
      if topic !in active {
        return;
      }
      TerminateKeepsInv(Now(), topic, host.now, policy);
      OthersDiffer(Now(), policy, host.now, topic);
      TerminateOwned(Now(), topic, host.now, host.children, host.nextPid, host.exited, host.ended);
      var pid := active[topic];
      trace := trace + [Terminated(topic, pid, host.now)];
      active, startedAt := active - {topic}, startedAt - {topic};
      host.End(pid);
    }

    /** Records that an active decoder was found dead. */
    method MarkCrash(topic: string)
      requires Valid() && topic in active && active[topic] in host.exited
      modifies this, host`now
      ensures Valid() && host.now >= old(host.now)
      ensures Now() == Crash(old(Now()), topic, host.now, policy)
    {
      hide Inv, Owned, Started, Ended;
      ghost var l := Now();
      ghost var pid := active[topic];
      active, startedAt := active - {topic}, startedAt - {topic};
      var t := host.Monotonic();
      LaterKeepsInv(l, policy, old(host.now), t);
      CrashKeepsInv(l, topic, t, policy);
      var f := if topic in failures then failures[topic] else Failure(0, 0.0);
      if t - f.last > policy.window {
        f := f.(count := 0);
      }
      f := Failure(f.count + 1, t);
      failures := failures[topic := f];
      CrashOwned(l, topic, t, policy, host.children, host.nextPid, host.exited, host.ended);
      trace := trace + [Crashed(topic, pid, t, f.count)];
    }

    /** Whether the backoff lets a topic start, discarding an expired record. */
    method AskRestart(topic: string) returns (allowed: bool, ghost asked: real)
      requires Valid()
      modifies this`failures, host`now
      ensures Valid() && old(host.now) <= asked == host.now
      ensures Inv(old(Now()), policy, asked)
      ensures allowed == RestartAllowed(old(Now()), topic, asked, policy)
      ensures Now() == Asked(old(Now()), topic, asked, policy)
    {
      hide Inv, Owned, Started, Ended;
      ghost var l := Now();
      asked := host.now;
      if topic !in failures {
        return true, asked;
      }
      var t := host.Monotonic();
      asked := t;
      LaterKeepsInv(l, policy, old(host.now), t);
      AskKeepsInv(l, topic, t, policy);
      if t - failures[topic].last > policy.window {
        ForgiveOwned(l, topic, host.children, host.nextPid, host.exited, host.ended);
        failures := failures - {topic};
        return true, asked;
      }
      allowed := failures[topic].count < policy.threshold;
    }

    /** Reaps one decoder if it has exited; clears its record if it has been up
        for longer than an interval. */
    method CheckDecoder(topic: string) returns (exited: bool)
      requires Valid() && topic in active
      modifies this, host`now, host`exited
      ensures Valid() && host.now >= old(host.now) && topic in old(startedAt)
      ensures old(host.exited) <= host.exited && (exited <==> old(active)[topic] in host.exited)
      ensures Now() ==
        if exited then Crash(old(Now()), topic, host.now, policy)
        else if host.now - old(startedAt)[topic] > policy.interval then Recover(old(Now()), topic, host.now)
        else old(Now())
    {
      hide Inv, Owned, Started, Ended;
      assert topic in startedAt by { KeysAgree(Now(), policy, host.now); }
      ghost var gone := host.exited;
      exited := host.HasExited(active[topic]);
      OwnedLater(Now(), host.children, host.nextPid, gone, host.exited, host.ended);
      if exited {
        MarkCrash(topic);
      } else {
        ghost var l := Now();
        var t := host.Monotonic();
        LaterKeepsInv(l, policy, old(host.now), t);
        if t - startedAt[topic] > policy.interval {
          RecoverKeepsInv(l, topic, t, policy);
          RecoverOwned(Now(), topic, t, host.children, host.nextPid, host.exited, host.ended);
          failures := failures - {topic};
          trace := trace + [Recovered(topic, t)];
        }
      }
    }

    /** Starts one missing decoder, or leaves it down while its record, not yet
        expired, is at the threshold. False when the system refused the start. */
    method StartUnlessDeferred(topic: string) returns (ok: bool, ghost at: real)
      requires Valid() && topic !in active
      modifies this, host`now, host`attempts, host`nextPid, host`children
      ensures Valid() && old(host.now) <= at <= host.now && old(host.attempts) <= host.attempts
      ensures old(host.nextPid) <= host.nextPid
      ensures host.attempts <= old(host.attempts) + 1
      ensures if ok
        then host.attempts > old(host.attempts) ==> !host.refuses(old(host.attempts))
        else host.attempts > old(host.attempts) && host.refuses(old(host.attempts))
      ensures forall t :: t != topic ==> (t in failures <==> t in old(failures))
      ensures forall t :: t != topic && t in failures ==> failures[t] == old(failures)[t]
      ensures !ok ==> active == old(active) && trace == old(trace)
      ensures ok && topic !in active ==> Now() == old(Now()) && Blocked(Now(), topic, policy)
      ensures ok && topic !in active ==> at - failures[topic].last <= policy.window
      ensures ok && topic in active ==> topic in startedAt && active == old(active)[topic := active[topic]]
      ensures ok && topic in active ==> active[topic] >= old(host.nextPid)
      ensures ok && topic in active ==> trace == old(trace) + [Spawned(topic, active[topic], startedAt[topic])]
    {
      hide Inv, Owned, Started, Asked, RestartAllowed, Blocked;
      ghost var l := Now();
      var allowed;
      allowed, at := AskRestart(topic);
      AskIs(l, topic, at, policy);
      ok := true;
      if allowed {
        ok := SpawnDecoder(topic, l, at);
      }
    }

    /** Makes the running decoders the desired ones, except those the backoff
        defers. A decoder that had exited is reaped, counted and replaced; one that
        is desired and has not exited is left alone, its failure record dropped
        once it has been up for longer than an interval. False when the system
        refused a start. */
    method Reconcile(desired: set<string>) returns (ok: bool, ghost asked: map<string, real>)
      requires Valid()
      modifies this, host
      ensures Valid() && old(trace) <= trace && host.now >= old(host.now)
      ensures active.Keys <= desired
      ensures old(host.exited) <= host.exited
      ensures Tended(old(Now()), old(host.exited), old(host.now), Now(), host.exited, desired, policy)
      ensures ok <==> forall a :: old(host.attempts) <= a < host.attempts ==> !host.refuses(a)
      ensures ok ==> active.Keys == set t | t in desired && !Blocked(Now(), t, policy)
      ensures ok ==> forall t :: t in desired && t !in active ==>
        t in asked && old(host.now) <= asked[t] <= host.now && asked[t] - failures[t].last <= policy.window
    {
      hide Inv, Owned, Started, Ended, Tended, Pass, Blocked;
      ghost var was, exited, clock, fresh_ := Now(), host.exited, host.now, host.nextPid;
      OwnedActive(was, host.children, host.nextPid, exited, host.ended);
      ReapAll(desired);
      ghost var reaped := Now();
      StopAll(active.Keys - desired, desired);
      TendedStopped(was, exited, clock, reaped, Now(), host.exited, desired, policy);
      ok, asked := StartMissing(desired, was, exited, clock, fresh_);
    }

    /** Starts the desired decoders that are not tracked, as far as the backoff and
        the system let it. */
    method StartMissing(desired: set<string>, ghost was: Ledger, ghost exited: set<nat>, ghost clock: real,
                        ghost fresh_: nat)
      returns (ok: bool, ghost asked: map<string, real>)
      requires Valid() && active.Keys <= desired && was.trace <= trace && clock <= host.now
      requires fresh_ <= host.nextPid && Tended(was, exited, clock, Now(), host.exited, desired, policy)
      requires forall t :: t in was.active ==> was.active[t] < fresh_
      requires forall pid :: pid in exited ==> pid < fresh_
      modifies this, host`now, host`attempts, host`nextPid, host`children
      ensures Valid() && was.trace <= trace && host.now >= old(host.now) && active.Keys <= desired
      ensures Tended(was, exited, clock, Now(), host.exited, desired, policy)
      ensures old(host.attempts) <= host.attempts
      ensures ok <==> forall a :: old(host.attempts) <= a < host.attempts ==> !host.refuses(a)
      ensures ok ==> active.Keys == set t | t in desired && !Blocked(Now(), t, policy)
      ensures ok ==> forall t :: t in desired && t !in active ==>
        t in asked && clock <= asked[t] <= host.now && asked[t] - failures[t].last <= policy.window
    {
      hide Inv, Owned, Started, Ended, Crash, Spawn, Terminate, Asked, RestartAllowed, Tended;
      asked := map[];
      ghost var first := host.attempts;
      var todo := desired - active.Keys;
      while todo != {}
        invariant Valid() && was.trace <= trace && host.now >= old(host.now) && host.nextPid >= fresh_
        invariant active.Keys !! todo && todo <= desired && active.Keys <= desired
        invariant forall t :: t in desired && t !in active && t !in todo ==> Deferred(t, asked, clock)
        invariant host.attempts >= first && forall a :: first <= a < host.attempts ==> !host.refuses(a)
        invariant Tended(was, exited, clock, Now(), host.exited, desired, policy)
        decreases todo
      {
        var topic :| topic in todo;
        todo := todo - {topic};
        ghost var before, at := Now(), host.now;
        ok, at := StartUnlessDeferred(topic);
        asked := asked[topic := at];
        TendedAfterStart(was, exited, clock, before, Now(), topic, fresh_, host.exited, desired, policy);
        if !ok {
          return;
        }
      }
      ok := true;
      NoneBlocked(Now(), policy, host.now);
    }

    /** One measurement interval: choose the tier and reconcile. However flow,
        crashes and backoff went, at most 256 decoders are tracked, none of which
        had exited before, and no point is read twice; and every point is read once
        no desired topic is held back and no start refused. */
    method MeasureAndReconcile(delta: int, config: MachineConfig) returns (ok: bool)
      requires Valid() && Accepted(config)
      modifies this, host
      ensures Valid() && old(host.exited) <= host.exited
      ensures Tended(
        old(Now()), old(host.exited), old(host.now), Now(), host.exited, DetermineTopics(delta, config), policy)
      ensures ok <==> forall a :: old(host.attempts) <= a < host.attempts ==> !host.refuses(a)
      ensures |active.Keys| <= MAX_DECODER_TOPICS
      ensures forall m, u, p | 1 <= m <= config.maxModule && 1 <= u <= config.maxUnit ::
        NotReadTwice(active.Keys, PointTopic(config.machineSn, m, u, p))
      ensures ok && (forall t :: t in DetermineTopics(delta, config) ==> !Blocked(Now(), t, policy)) ==>
        forall m, u, p | 1 <= m <= config.maxModule && 1 <= u <= config.maxUnit ::
          IsRead(active.Keys, PointTopic(config.machineSn, m, u, p))
    {
      hide Inv, Owned, Started, Ended, Tended, DetermineTopics, Accepted, PointTopic, Matches, Spares, Blocked;
      var desired := DetermineTopics(delta, config);
      ghost var asked;
      ok, asked := Reconcile(desired);
      TopicCount(delta, config);
      SubsetSize(active.Keys, desired);
      forall m, u, p | 1 <= m <= config.maxModule && 1 <= u <= config.maxUnit
        ensures NotReadTwice(active.Keys, PointTopic(config.machineSn, m, u, p))
        ensures active.Keys == desired ==> IsRead(active.Keys, PointTopic(config.machineSn, m, u, p))
      {
        TiersPartition(delta, config, m, u, p);
      }
    }

    /** The topic stays down because its record, not yet expired when asked, is at
        the threshold. */
    ghost predicate Deferred(topic: string, asked: map<string, real>, since: real)
      reads this, host
    {
      && Blocked(Now(), topic, policy)
      && topic in asked && since <= asked[topic] <= host.now
      && asked[topic] - failures[topic].last <= policy.window
    }

    method ReapAll(ghost kept: set<string>)
      requires Valid()
      modifies this, host`now, host`exited
      ensures Valid() && old(trace) <= trace && host.now >= old(host.now)
      ensures old(host.exited) <= host.exited
      ensures Pass(old(Now()), old(active.Keys), old(host.exited), old(host.now), Now(), host.exited, kept, policy)
    {
      hide Inv, Owned, Started, Ended, Crash, Recover, Pass;
      ghost var was, exited, clock := Now(), host.exited, host.now;
      KeysAgree(was, policy, host.now);
      PassNone(was, exited, clock, kept, policy);
      var todo := active.Keys;
      ghost var checked: set<string> := {};
      while todo != {}
        invariant Valid() && was.trace <= trace && host.now >= clock && host.exited >= exited
        invariant checked + todo == was.active.Keys && checked !! todo && todo <= active.Keys
        invariant Pass(was, checked, exited, clock, Now(), host.exited, kept, policy)
        decreases todo
      {
        var topic :| topic in todo;
        todo := todo - {topic};
        ghost var l, gone := Now(), host.exited;
        var dead := CheckDecoder(topic);
        PassNext(was, checked, exited, clock, l, gone, Now(), topic, dead, host.now, host.exited, kept, policy);
        checked := checked + {topic};
      }
      assert checked == was.active.Keys;
    }

    method StopAll(topics: set<string>, ghost kept: set<string>)
      requires Valid() && topics <= active.Keys && topics !! kept
      modifies this`active, this`startedAt, this`trace, host`ended
      ensures Valid() && old(trace) <= trace && Spares(trace, |old(trace)|, kept)
      ensures active.Keys == old(active.Keys) - topics
      ensures forall t :: t in active ==> active[t] == old(active)[t]
    {
      hide Inv, Owned, Started, Spares;
      SparesNone(trace, kept);
      var todo := topics;
      while todo != {}
        invariant Valid() && old(trace) <= trace && todo <= topics && Spares(trace, |old(trace)|, kept)
        invariant active.Keys == old(active.Keys) - (topics - todo)
        invariant forall t :: t in active ==> active[t] == old(active)[t]
        decreases todo
      {
        var topic :| topic in todo;
        todo := todo - {topic};
        ghost var l := Now();
        TerminateDecoder(topic);
        SparesAppend(l.trace, Terminated(topic, l.active[topic], host.now), |old(trace)|, kept);
      }
    }

    /** Ends every decoder: each process ever started has then exited or been ended,
        and its books have been closed exactly once. */
    method Close()
      requires Valid()
      modifies this`active, this`startedAt, this`trace, host`ended
      ensures Valid() && active == map[]
      ensures old(trace) <= trace && Started(trace) == Ended(trace) && Once(trace)
      ensures host.children.Keys <= host.exited + host.ended
    {
      StopAll(active.Keys, {});
      assert active == map[];
    }
  }

  // ---------------------------------------------------------------------
  // The books and the system
  // ---------------------------------------------------------------------

  /** Each tracked decoder is a process started for its topic and not ended, and
      each one the books have closed has exited or been ended. */
  ghost predicate Owned(l: Ledger, children: map<nat, string>, nextPid: nat, exited: set<nat>, ended: set<nat>) {
    && children.Keys == Started(l.trace)
    && (forall pid :: pid in children ==> pid < nextPid)
    && (forall t :: t in l.active ==>
          l.active[t] in children && children[l.active[t]] == t && l.active[t] !in ended)
    && Ended(l.trace) <= exited + ended
    && ended <= children.Keys && exited <= children.Keys
  }

  lemma SpawnOwned(l: Ledger, topic: string, pid: nat, at: real, children: map<nat, string>, exited: set<nat>,
                   ended: set<nat>)
    requires Owned(l, children, pid, exited, ended)
    ensures Owned(Spawn(l, topic, pid, at), children[pid := topic], pid + 1, exited, ended)
    ensures pid !in Started(l.trace)
  {
    hide Started, Ended;
    BooksAfter(l.trace, Spawned(topic, pid, at));
  }

  lemma TerminateOwned(l: Ledger, topic: string, at: real, children: map<nat, string>, nextPid: nat,
                       exited: set<nat>, ended: set<nat>)
    requires Owned(l, children, nextPid, exited, ended) && topic in l.active
    requires forall t :: t in l.active && t != topic ==> l.active[t] != l.active[topic]
    ensures Owned(Terminate(l, topic, at), children, nextPid, exited, ended + {l.active[topic]})
  {
    hide Started, Ended;
    BooksAfter(l.trace, Terminated(topic, l.active[topic], at));
  }

  lemma CrashOwned(l: Ledger, topic: string, at: real, policy: Policy, children: map<nat, string>, nextPid: nat,
                   exited: set<nat>, ended: set<nat>)
    requires Owned(l, children, nextPid, exited, ended) && topic in l.active && l.active[topic] in exited
    ensures Owned(Crash(l, topic, at, policy), children, nextPid, exited, ended)
  {
    hide Started, Ended, Counted;
    BooksAfter(l.trace, Crashed(topic, l.active[topic], at, Counted(l.failures, topic, at, policy).count));
  }

  lemma RecoverOwned(l: Ledger, topic: string, at: real, children: map<nat, string>, nextPid: nat,
                     exited: set<nat>, ended: set<nat>)
    requires Owned(l, children, nextPid, exited, ended)
    ensures Owned(Recover(l, topic, at), children, nextPid, exited, ended)
  {
    hide Started, Ended;
    BooksAfter(l.trace, Recovered(topic, at));
  }

  lemma ForgiveOwned(l: Ledger, topic: string, children: map<nat, string>, nextPid: nat, exited: set<nat>,
                     ended: set<nat>)
    requires Owned(l, children, nextPid, exited, ended)
    ensures Owned(Forgive(l, topic), children, nextPid, exited, ended)
  {}

  lemma OwnedLater(l: Ledger, children: map<nat, string>, nextPid: nat, exited: set<nat>, more: set<nat>,
                   ended: set<nat>)
    requires Owned(l, children, nextPid, exited, ended) && exited <= more <= exited + children.Keys
    ensures Owned(l, children, nextPid, more, ended)
  {}

  lemma OwnedActive(l: Ledger, children: map<nat, string>, nextPid: nat, exited: set<nat>, ended: set<nat>)
    requires Owned(l, children, nextPid, exited, ended)
    ensures forall t :: t in l.active ==> l.active[t] < nextPid
    ensures forall pid :: pid in exited ==> pid < nextPid
  {}

  // ---------------------------------------------------------------------
  // What a reap pass owes
  // ---------------------------------------------------------------------

  /** From event `start` on, the process was found dead. */
  ghost predicate CrashSeen(trace: seq<Event>, start: nat, topic: string, pid: nat) {
    exists i :: start <= i < |trace| && trace[i].Crashed? && trace[i].topic == topic && trace[i].pid == pid
  }

  /** Each decoder of `topics` that had exited when the pass began was counted. */
  ghost predicate Reaped(was: Ledger, topics: set<string>, exited: set<nat>, trace: seq<Event>) {
    forall t :: t in topics && t in was.active && was.active[t] in exited ==>
      CrashSeen(trace, |was.trace|, t, was.active[t])
  }

  /** Each decoder of `topics` that has not exited is still the tracked one. */
  ghost predicate LeftAlone(was: Ledger, active: map<string, nat>, exited: set<nat>, topics: set<string>) {
    forall t :: t in topics && t in was.active && was.active[t] !in exited ==> t in active && active[t] == was.active[t]
  }

  /** Each decoder of `topics` that is still the tracked one and had been up for
      longer than an interval has no failure record. */
  ghost predicate Forgiven(was: Ledger, topics: set<string>, active: map<string, nat>, failures: map<string, Failure>,
                           clock: real, policy: Policy)
  {
    forall t :: t in topics && t in was.active && t in was.startedAt && t in active && active[t] == was.active[t] ==>
      clock - was.startedAt[t] > policy.interval ==>
      t !in failures
  }

  /** The tracked decoders are some of those before. */
  ghost predicate Unchanged(was: Ledger, l: Ledger) {
    forall t :: t in l.active ==>
      && t in was.active && l.active[t] == was.active[t]
      && t in was.startedAt && t in l.startedAt && l.startedAt[t] == was.startedAt[t]
  }

  /** A reap pass that has checked `topics`. */
  ghost predicate Pass(was: Ledger, topics: set<string>, exited: set<nat>, clock: real, l: Ledger,
                       nowExited: set<nat>, kept: set<string>, policy: Policy)
  {
    && was.trace <= l.trace && Spares(l.trace, |was.trace|, kept)
    && Unchanged(was, l)
    && (forall t :: t in l.active && t in topics ==> l.active[t] !in exited)
    && Reaped(was, topics, exited, l.trace)
    && LeftAlone(was, l.active, nowExited, was.active.Keys)
    && Forgiven(was, topics, l.active, l.failures, clock, policy)
  }

  /** What reconciling owes the decoders there were: no decoder of `kept` was
      terminated; those that had exited were counted and are not tracked; those
      of `kept` that have not exited still are, and have no failure record if
      they had been up for longer than an interval. */
  ghost predicate Tended(was: Ledger, exited: set<nat>, clock: real, l: Ledger, nowExited: set<nat>,
                         kept: set<string>, policy: Policy)
  {
    && was.trace <= l.trace && Spares(l.trace, |was.trace|, kept)
    && (forall t :: t in l.active ==> l.active[t] !in exited)
    && Reaped(was, was.active.Keys, exited, l.trace)
    && LeftAlone(was, l.active, nowExited, kept)
    && Forgiven(was, was.active.Keys, l.active, l.failures, clock, policy)
  }

  lemma PassNone(was: Ledger, exited: set<nat>, clock: real, kept: set<string>, policy: Policy)
    requires was.startedAt.Keys == was.active.Keys
    ensures Pass(was, {}, exited, clock, was, exited, kept, policy)
  {}

  lemma PassNext(was: Ledger, topics: set<string>, exited: set<nat>, clock: real, l: Ledger, gone: set<nat>,
                 m: Ledger, topic: string, dead: bool, now: real, nowExited: set<nat>, kept: set<string>,
                 policy: Policy)
    requires Pass(was, topics, exited, clock, l, gone, kept, policy)
    requires topic in l.active && topic !in topics && clock <= now && exited <= gone <= nowExited
    requires dead <==> l.active[topic] in nowExited
    requires topic in l.startedAt && m ==
      if dead then Crash(l, topic, now, policy)
      else if now - l.startedAt[topic] > policy.interval then Recover(l, topic, now)
      else l
    ensures Pass(was, topics + {topic}, exited, clock, m, nowExited, kept, policy)
    ensures was.trace <= m.trace && l.active.Keys - {topic} <= m.active.Keys
  {
    hide Crash, Recover, Spares, Reaped, LeftAlone, Forgiven, CrashSeen;
    CheckedIs(l, m, topic, dead, now, policy);
    if l.trace != m.trace {
      SparesAppend(l.trace, m.trace[|l.trace|], |was.trace|, kept);
    }
    ReapedNext(was, l, m, topic, dead, topics, exited);
    CheckedAlone(was, l.active, m.active, topic, dead, gone, nowExited);
    ForgivenNext(was, l, m, topic, dead, topics, clock, now, policy);
  }

  lemma TendedStopped(was: Ledger, exited: set<nat>, clock: real, reaped: Ledger, l: Ledger, nowExited: set<nat>,
                      kept: set<string>, policy: Policy)
    requires Pass(was, was.active.Keys, exited, clock, reaped, nowExited, kept, policy)
    requires reaped.trace <= l.trace && Spares(l.trace, |reaped.trace|, kept) && l.failures == reaped.failures
    requires l.active.Keys == reaped.active.Keys - (reaped.active.Keys - kept)
    requires forall t :: t in l.active ==> l.active[t] == reaped.active[t]
    ensures Tended(was, exited, clock, l, nowExited, kept, policy)
  {
    hide Spares, Reaped, LeftAlone, Forgiven;
    SparesJoin(was.trace, reaped.trace, l.trace, kept);
    ReapedLater(was, was.active.Keys, exited, reaped.trace, l.trace);
    StoppedAlone(was, reaped.active, l.active, nowExited, kept);
    FewerForgiven(was, reaped.active, l.active, l.failures, clock, policy);
  }

  lemma TendedAfterStart(was: Ledger, exited: set<nat>, clock: real, l: Ledger, m: Ledger, topic: string, fresh_: nat,
                         nowExited: set<nat>, kept: set<string>, policy: Policy)
    requires Tended(was, exited, clock, l, nowExited, kept, policy) && topic !in l.active
    requires if topic in m.active
      then
        && m.active == l.active[topic := m.active[topic]] && m.active[topic] >= fresh_
        && topic in m.startedAt && m.trace == l.trace + [Spawned(topic, m.active[topic], m.startedAt[topic])]
      else m.active == l.active && m.trace == l.trace
    requires forall t :: t in was.active ==> was.active[t] < fresh_
    requires forall pid :: pid in exited ==> pid < fresh_
    requires forall t :: t != topic ==> (t in m.failures <==> t in l.failures)
    ensures Tended(was, exited, clock, m, nowExited, kept, policy)
  {
    hide Spares, Reaped, LeftAlone, Forgiven;
    if topic in m.active {
      SparesAppend(l.trace, m.trace[|l.trace|], |was.trace|, kept);
      ReapedLater(was, was.active.Keys, exited, l.trace, m.trace);
      AddedAlone(was, l.active, m.active, topic, nowExited, kept);
    }
    AddedForgiven(was, l, m, topic, fresh_, clock, policy);
  }

  /** What a check of one decoder changes. */
  lemma CheckedIs(l: Ledger, m: Ledger, topic: string, dead: bool, now: real, policy: Policy)
    requires topic in l.active && topic in l.startedAt
    requires m ==
      if dead then Crash(l, topic, now, policy)
      else if now - l.startedAt[topic] > policy.interval then Recover(l, topic, now)
      else l
    ensures l.trace <= m.trace && |m.trace| <= |l.trace| + 1
    ensures m.trace != l.trace ==> !m.trace[|l.trace|].Terminated?
    ensures m.trace != l.trace ==> m.trace == l.trace + [m.trace[|l.trace|]]
    ensures dead ==> m.active == l.active - {topic} && m.startedAt == l.startedAt - {topic}
    ensures dead ==> CrashSeen(m.trace, |l.trace|, topic, l.active[topic])
    ensures !dead ==> m.active == l.active && m.startedAt == l.startedAt
    ensures !dead && now - l.startedAt[topic] > policy.interval ==> topic !in m.failures
    ensures forall t :: t != topic ==> (t in m.failures <==> t in l.failures)
  {
    hide Counted;
    if dead {
      assert m.trace[|l.trace|].Crashed?;
    }
  }

  lemma ReapedNext(was: Ledger, l: Ledger, m: Ledger, topic: string, dead: bool, topics: set<string>, exited: set<nat>)
    requires Reaped(was, topics, exited, l.trace) && l.trace <= m.trace && |was.trace| <= |l.trace|
    requires topic in was.active && topic in l.active && l.active[topic] == was.active[topic]
    requires dead ==> CrashSeen(m.trace, |l.trace|, topic, l.active[topic])
    requires was.active[topic] in exited ==> dead
    ensures Reaped(was, topics + {topic}, exited, m.trace)
  {
    forall t | t in topics + {topic} && t in was.active && was.active[t] in exited
      ensures CrashSeen(m.trace, |was.trace|, t, was.active[t])
    {
      if t == topic {
        SeenEarlier(m.trace, |was.trace|, |l.trace|, t, was.active[t]);
      } else {
        SeenLater(l.trace, m.trace, |was.trace|, t, was.active[t]);
      }
    }
  }

  lemma SeenEarlier(trace: seq<Event>, start: nat, later: nat, topic: string, pid: nat)
    requires CrashSeen(trace, later, topic, pid) && start <= later
    ensures CrashSeen(trace, start, topic, pid)
  {}

  lemma SeenLater(a: seq<Event>, b: seq<Event>, start: nat, topic: string, pid: nat)
    requires CrashSeen(a, start, topic, pid) && a <= b
    ensures CrashSeen(b, start, topic, pid)
  {
    var i :| start <= i < |a| && a[i].Crashed? && a[i].topic == topic && a[i].pid == pid;
    assert b[i] == a[i];
  }

  lemma ReapedLater(was: Ledger, topics: set<string>, exited: set<nat>, a: seq<Event>, b: seq<Event>)
    requires Reaped(was, topics, exited, a) && a <= b
    ensures Reaped(was, topics, exited, b)
  {
    forall t | t in topics && t in was.active && was.active[t] in exited
      ensures CrashSeen(b, |was.trace|, t, was.active[t])
    {
      SeenLater(a, b, |was.trace|, t, was.active[t]);
    }
  }

  lemma CheckedAlone(was: Ledger, a: map<string, nat>, b: map<string, nat>, topic: string, dead: bool,
                     gone: set<nat>, exited: set<nat>)
    requires LeftAlone(was, a, gone, was.active.Keys) && gone <= exited
    requires topic in a && topic in was.active && a[topic] == was.active[topic]
    requires if dead then b == a - {topic} && a[topic] in exited else b == a
    ensures LeftAlone(was, b, exited, was.active.Keys)
  {}

  lemma StoppedAlone(was: Ledger, a: map<string, nat>, b: map<string, nat>, exited: set<nat>, desired: set<string>)
    requires LeftAlone(was, a, exited, was.active.Keys)
    requires b.Keys == a.Keys - (a.Keys - desired) && forall t :: t in b ==> b[t] == a[t]
    ensures LeftAlone(was, b, exited, desired)
  {}

  lemma AddedAlone(was: Ledger, a: map<string, nat>, b: map<string, nat>, topic: string, exited: set<nat>,
                   desired: set<string>)
    requires LeftAlone(was, a, exited, desired) && topic !in a && topic in b && b == a[topic := b[topic]]
    ensures LeftAlone(was, b, exited, desired)
  {}

  lemma ForgivenNext(was: Ledger, l: Ledger, m: Ledger, topic: string, dead: bool, topics: set<string>,
                     clock: real, now: real, policy: Policy)
    requires Forgiven(was, topics, l.active, l.failures, clock, policy) && clock <= now
    requires topic in l.active && topic in l.startedAt && topic in was.startedAt
    requires l.startedAt[topic] == was.startedAt[topic]
    requires if dead then m.active == l.active - {topic} else m.active == l.active
    requires !dead && now - l.startedAt[topic] > policy.interval ==> topic !in m.failures
    requires forall t :: t != topic ==> (t in m.failures <==> t in l.failures)
    ensures Forgiven(was, topics + {topic}, m.active, m.failures, clock, policy)
  {}

  lemma FewerForgiven(was: Ledger, a: map<string, nat>, b: map<string, nat>, failures: map<string, Failure>,
                      clock: real, policy: Policy)
    requires Forgiven(was, was.active.Keys, a, failures, clock, policy)
    requires b.Keys <= a.Keys && forall t :: t in b ==> b[t] == a[t]
    ensures Forgiven(was, was.active.Keys, b, failures, clock, policy)
  {}

  /** A start gives the topic a process number that no tracked decoder had. */
  lemma AddedForgiven(was: Ledger, l: Ledger, m: Ledger, topic: string, fresh_: nat, clock: real, policy: Policy)
    requires Forgiven(was, was.active.Keys, l.active, l.failures, clock, policy)
    requires topic !in l.active
    requires m.active == l.active || (topic in m.active && m.active == l.active[topic := m.active[topic]])
    requires topic in m.active ==> m.active[topic] >= fresh_
    requires forall t :: t in was.active ==> was.active[t] < fresh_
    requires forall t :: t != topic ==> (t in m.failures <==> t in l.failures)
    ensures Forgiven(was, was.active.Keys, m.active, m.failures, clock, policy)
  {}

  /** From event `start` on, no decoder of `kept` was terminated. */
  ghost predicate Spares(trace: seq<Event>, start: nat, kept: set<string>) {
    forall i :: start <= i < |trace| && trace[i].Terminated? ==> trace[i].topic !in kept
  }

  lemma {:induction false} SubsetSize(a: set<string>, b: set<string>)
    requires a <= b
    ensures |a| <= |b|
    decreases b
  {
    if t :| t in a {
      SubsetSize(a - {t}, b - {t});
    }
  }

  lemma SparesNone(trace: seq<Event>, kept: set<string>)
    ensures Spares(trace, |trace|, kept)
  {}

  lemma SparesAppend(trace: seq<Event>, e: Event, start: nat, kept: set<string>)
    requires Spares(trace, start, kept) && (e.Terminated? ==> e.topic !in kept)
    ensures Spares(trace + [e], start, kept)
  {}

  lemma SparesJoin(a: seq<Event>, b: seq<Event>, c: seq<Event>, kept: set<string>)
    requires a <= b <= c && Spares(b, |a|, kept) && Spares(c, |b|, kept)
    ensures Spares(c, |a|, kept)
  {
    forall i | |a| <= i < |c| && c[i].Terminated?
      ensures c[i].topic !in kept
    {
      if i < |b| {
        assert b[i] == c[i];
      }
    }
  }

  lemma KeysAgree(l: Ledger, policy: Policy, now: real)
    requires Inv(l, policy, now)
    ensures l.startedAt.Keys == l.active.Keys
  {}

  lemma NoneBlocked(l: Ledger, policy: Policy, now: real)
    requires Inv(l, policy, now)
    ensures forall t :: t in l.active ==> !Blocked(l, t, policy)
  {}

  lemma AskIs(l: Ledger, topic: string, at: real, policy: Policy)
    ensures var m := Asked(l, topic, at, policy);
      && m.active == l.active && m.trace == l.trace
      && (forall t :: t != topic ==> (t in m.failures <==> t in l.failures))
      && (forall t :: t != topic && t in m.failures ==> m.failures[t] == l.failures[t])
      && (!RestartAllowed(l, topic, at, policy) ==>
            m == l && Blocked(l, topic, policy) && at - l.failures[topic].last <= policy.window)
  {}

  lemma OthersDiffer(l: Ledger, policy: Policy, now: real, topic: string)
    requires Inv(l, policy, now) && topic in l.active
    ensures forall t :: t in l.active && t != topic ==> l.active[t] != l.active[topic]
  {}

  lemma BooksAfter(trace: seq<Event>, e: Event)
    ensures Started(trace + [e]) == Started(trace) + if e.Spawned? then {e.pid} else {}
    ensures Ended(trace + [e]) == Ended(trace) + if Ends(e) then {e.pid} else {}
  {
    Unfold(trace, e);
  }
}
