/** The body of the watch loop over its two tables and two result arrays. */
module WatchDaemon {
  import opened Options
  import opened CStrings
  import opened ConfigLimits
  import opened ConfigText
  import opened ConfigTable
  import opened ConfigDelta
  import opened JsonDelta
  import opened JsonCodec
  import opened Watcher

  /** The bus. How it answers the n-th payload offered to it is an input; every
      payload offered is on record, whatever the answer. */
  class Channel {
    const accepts: nat -> bool
    var offered: seq<string>

    constructor (accepts: nat -> bool)
      ensures this.accepts == accepts && offered == []
    {
      this.accepts := accepts;
      offered := [];
    }

    method Publish(payload: string) returns (ok: bool)
      modifies this`offered
      ensures offered == old(offered) + [payload] && ok == accepts(|old(offered)|)
    {
      ok := accepts(|offered|);
      offered := offered + [payload];
    }
  }

  /** What the subscribers get of the payloads offered. */
  function Carried(accepts: nat -> bool, offered: seq<string>): seq<string> {
    if |offered| == 0 then []
    else
      var n := |offered| - 1;
      Carried(accepts, offered[..n]) + if accepts(n) then [offered[n]] else []
  }

  /** The answers to `n` payloads after the first `start`. */
  function Marks(accepts: nat -> bool, start: nat, n: nat): (m: seq<bool>)
    ensures |m| == n
  {
    seq(n, i requires 0 <= i < n => accepts(start + i))
  }

  /** What one pass of the loop offers. */
  function Notices(prev: seq<Pair>, events: seq<string>, filename: string, file: Option<string>): seq<string> {
    if Pending(events, filename) && file.Some? then Payloads(Deltas(prev, Parse(file.value))) else []
  }

  /** The snapshot after it. */
  function NextSnapshot(prev: seq<Pair>, events: seq<string>, filename: string, file: Option<string>): seq<Pair> {
    if Pending(events, filename) && file.Some? then Parse(file.value) else prev
  }

  class Daemon {
    const filename: string
    var prev: Config

    ghost predicate Valid()
      reads this, prev, prev.pairs
    {
      prev.Valid() && Normal(prev.Contents())
    }

    /** The initial snapshot; a missing file leaves it empty. */
    constructor (filename: string, file: Option<string>)
      ensures Valid() && this.filename == filename && prev.Contents() == Parsed(file)
    {
      this.filename := filename;
      var snapshot := new Config();
      if file.Some? {
        snapshot.Read(file.value);
        ParseIsNormal(file.value);
      }
      prev := snapshot;
    }

    /** Whether a batch of events concerns the config file. */
    method IsTriggered(events: seq<string>) returns (triggered: bool)
      ensures triggered <==> Pending(events, filename)
    {
      triggered := false;
      var i := 0;
      while i < |events|
        invariant i <= |events|
        invariant triggered <==> exists j :: 0 <= j < i && Triggers(events[j], filename)
      {
        if Triggers(events[i], filename) {
          triggered := true;
        }
        i := i + 1;
      }
    }

    /** The payload of one change; that of a normal pair is never too long. */
    method PayloadFor(p: Pair, deleted: bool) returns (payload: string)
      requires NormalPair(p)
      ensures payload == Payload(Delta(p.key, p.value, deleted))
    {
      hide NormalPair, Payload, Fits;
      var d := Delta(p.key, p.value, deleted);
      NormalIsText(p);
      NeverTruncated(d);
      FitsText(d);
      var status := BuildPayload(d);
      payload := status.payload;
    }

    /** Offers `n` pairs to the channel. With pairs from parsed files no payload is
        refused for its size; a failed send is logged and passed over. */
    method PublishPairs(pairs: array<Pair>, n: nat, deleted: bool, channel: Channel) returns (failed: nat)
      requires n <= pairs.Length && forall i :: 0 <= i < n ==> NormalPair(pairs[i])
      modifies channel`offered
      ensures channel.offered == old(channel.offered) + Payloads(Mark(pairs[..n], deleted))
      ensures failed == Failures(Marks(channel.accepts, |old(channel.offered)|, n))
    {
      hide NormalPair, Payload, Payloads, Mark, Failures, Marks;
      failed := 0;
      ghost var ps := pairs[..n];
      NothingOffered(ps[..0], deleted, channel.accepts, |channel.offered|);
      var i := 0;
      while i < n
        invariant i <= n && pairs[..n] == ps
        invariant channel.offered == old(channel.offered) + Payloads(Mark(ps[..i], deleted))
        invariant |Payloads(Mark(ps[..i], deleted))| == i
        invariant failed == Failures(Marks(channel.accepts, |old(channel.offered)|, i))
      {
        assert pairs[i] == ps[i];
        var payload := PayloadFor(pairs[i], deleted);
        var ok := channel.Publish(payload);
        if !ok {
          failed := failed + 1;
        }
        OfferStep(ps, deleted, i, channel.accepts, |old(channel.offered)|);
        i := i + 1;
      }
      assert ps[..n] == ps;
    }

    /** Offers what changed, then what was removed. */
    method PublishDifference(cur: Config, channel: Channel)
      requires Valid() && cur.Valid() && Normal(cur.Contents())
      modifies channel`offered
      ensures channel.offered == old(channel.offered) + Payloads(Deltas(prev.Contents(), cur.Contents()))
    {
      hide Normal, NormalPair, Filter, Payloads, Mark;
      ghost var was, now := prev.Contents(), cur.Contents();
      var changed := new Pair[CONFIG_MAX_PAIRS](_ => Pair("", ""));
      var n := Diff(prev, cur, changed, CONFIG_MAX_PAIRS);
      FilterIsNormal(now, p => IsChanged(was, p));
      var _ := PublishPairs(changed, n, false, channel);
      var removed := new Pair[CONFIG_MAX_PAIRS](_ => Pair("", ""));
      var rm := FindRemoved(prev, cur, removed, CONFIG_MAX_PAIRS);
      FilterIsNormal(was, p => IsGone(now, p));
      var _ := PublishPairs(removed, rm, true, channel);
      PayloadsConcat(Mark(Changed(was, now), false), Mark(Removed(was, now), true));
    }

    /** One pass of the loop, for a batch of events and the file as it is when
        re-read: offers every change once and in order, whatever the channel
        answers, and then advances the snapshot. */
    method OnEvents(events: seq<string>, file: Option<string>, channel: Channel)
      requires Valid()
      modifies this`prev, channel`offered
      ensures Valid()
      ensures prev.Contents() == NextSnapshot(old(prev.Contents()), events, filename, file)
      ensures channel.offered == old(channel.offered) + Notices(old(prev.Contents()), events, filename, file)
    {
      hide Normal, Parse, Payloads, Deltas;
      var triggered := IsTriggered(events);
      if !triggered {
        return;
      }
      if file.None? {
        return;
      }
      var cur := new Config();
      cur.Read(file.value);
      ParseIsNormal(file.value);
      PublishDifference(cur, channel);
      prev := cur;
    }
  }

  // ---------------------------------------------------------------------
  // The pass as a wake-up of the state machine
  // ---------------------------------------------------------------------

  /** An undisturbed wake-up of the state machine advances the snapshot as the
      pass does and puts in every inbox what the pass offers. */
  lemma PassIsWakeUp(s: State, n: nat, filename: string)
    requires s.phase.Polling? && 0 < n <= |s.events|
    ensures var t := WokenUp(s, n, filename);
      && t.phase == Polling && t.file == s.file && t.events == s.events[n..]
      && t.prev == NextSnapshot(s.prev, s.events[..n], filename, s.file)
      && |t.subs| == |s.subs|
      && forall i :: 0 <= i < |s.subs| ==>
        t.subs[i] == s.subs[i].(inbox := s.subs[i].inbox + Notices(s.prev, s.events[..n], filename, s.file))
  {
    hide Parse, Deltas, Payloads, Drain, Pending;
    WakeUpIs(s, n, filename);
    forall i | 0 <= i < |s.subs|
      ensures s.subs[i].(inbox := s.subs[i].inbox + []) == s.subs[i]
    {
      assert s.subs[i].inbox + [] == s.subs[i].inbox;
    }
  }

  /** A channel that accepts everything carries everything. */
  lemma {:induction false} AllCarried(accepts: nat -> bool, offered: seq<string>)
    requires forall i :: 0 <= i < |offered| ==> accepts(i)
    ensures Carried(accepts, offered) == offered
    decreases |offered|
  {
    if |offered| > 0 {
      var n := |offered| - 1;
      AllCarried(accepts, offered[..n]);
      assert offered == offered[..n] + [offered[n]];
    }
  }

  /** Of one pass's deltas the subscribers get those that were accepted. */
  lemma {:induction false} CarriedOf(accepts: nat -> bool, before: seq<string>, ds: seq<Delta>)
    ensures Carried(accepts, before + Payloads(ds)) ==
      Carried(accepts, before) + Payloads(Chosen(ds, Marks(accepts, |before|, |ds|)))
    decreases |ds|
  {
    hide Payload;
    if |ds| == 0 {
      assert before + Payloads(ds) == before;
      assert Marks(accepts, |before|, 0) == [];
    } else {
      hide Carried, Chosen, Payloads, Marks;
      var n := |ds| - 1;
      CarriedOf(accepts, before, ds[..n]);
      assert ds == ds[..n] + [ds[n]];
      OneMoreCarried(accepts, before, ds[..n], ds[n]);
    }
  }

  lemma OneMoreCarried(accepts: nat -> bool, before: seq<string>, front: seq<Delta>, d: Delta)
    requires Carried(accepts, before + Payloads(front)) ==
      Carried(accepts, before) + Payloads(Chosen(front, Marks(accepts, |before|, |front|)))
    ensures Carried(accepts, before + Payloads(front + [d])) ==
      Carried(accepts, before) + Payloads(Chosen(front + [d], Marks(accepts, |before|, |front + [d]|)))
  {
    hide Carried, Chosen, Payloads, Marks, Payload;
    var n := |front|;
    var ok := accepts(|before| + n);
    PayloadsCount(front);
    MarksSnoc(accepts, |before|, n);
    ChosenSnoc(front, Marks(accepts, |before|, n), d, ok);
    PayloadsSnoc(front, d);
    PayloadsSnoc(Chosen(front, Marks(accepts, |before|, n)), d);
    assert before + Payloads(front + [d]) == before + Payloads(front) + [Payload(d)];
    CarriedSnoc(accepts, before + Payloads(front), Payload(d));
  }

  lemma CarriedSnoc(accepts: nat -> bool, offered: seq<string>, payload: string)
    ensures Carried(accepts, offered + [payload]) ==
      Carried(accepts, offered) + if accepts(|offered|) then [payload] else []
  {
    assert (offered + [payload])[..|offered|] == offered;
  }

  lemma MarksSnoc(accepts: nat -> bool, start: nat, n: nat)
    ensures Marks(accepts, start, n + 1) == Marks(accepts, start, n) + [accepts(start + n)]
  {}

  lemma {:induction false} PayloadsCount(ds: seq<Delta>)
    ensures |Payloads(ds)| == |ds|
    decreases |ds|
  {
    hide Payload;
    if |ds| > 0 {
      PayloadsCount(ds[..|ds| - 1]);
    }
  }

  lemma {:induction false} PayloadsConcat(a: seq<Delta>, b: seq<Delta>)
    ensures Payloads(a + b) == Payloads(a) + Payloads(b)
    decreases |b|
  {
    hide Payload;
    if |b| == 0 {
      assert a + b == a;
    } else {
      hide Payloads;
      var n := |b| - 1;
      PayloadsConcat(a, b[..n]);
      assert a + b == a + b[..n] + [b[n]] && b == b[..n] + [b[n]];
      PayloadsSnoc(a + b[..n], b[n]);
      PayloadsSnoc(b[..n], b[n]);
    }
  }

  /** How many of the answers were failures. */
  function Failures(marks: seq<bool>): nat {
    if |marks| == 0 then 0
    else Failures(marks[..|marks| - 1]) + if marks[|marks| - 1] then 0 else 1
  }

  lemma FitsText(d: Delta)
    requires Fits(d)
    ensures IsText(d.key) && IsText(d.value)
  {}

  lemma NothingOffered(ps: seq<Pair>, deleted: bool, accepts: nat -> bool, start: nat)
    requires |ps| == 0
    ensures Payloads(Mark(ps, deleted)) == [] && Failures(Marks(accepts, start, 0)) == 0
  {}

  lemma OfferStep(ps: seq<Pair>, deleted: bool, i: nat, accepts: nat -> bool, start: nat)
    requires i < |ps|
    ensures Payloads(Mark(ps[..i + 1], deleted)) ==
      Payloads(Mark(ps[..i], deleted)) + [Payload(Delta(ps[i].key, ps[i].value, deleted))]
    ensures Failures(Marks(accepts, start, i + 1)) ==
      Failures(Marks(accepts, start, i)) + if accepts(start + i) then 0 else 1
  {
    hide Payload, Payloads;
    var d := Delta(ps[i].key, ps[i].value, deleted);
    assert Mark(ps[..i + 1], deleted) == Mark(ps[..i], deleted) + [d];
    PayloadsSnoc(Mark(ps[..i], deleted), d);
    assert Marks(accepts, start, i + 1)[..i] == Marks(accepts, start, i);
  }

  lemma PayloadsSnoc(ds: seq<Delta>, d: Delta)
    ensures Payloads(ds + [d]) == Payloads(ds) + [Payload(d)]
  {
    hide Payload;
    assert (ds + [d])[..|ds|] == ds;
  }

  lemma FilterIsNormal(cfg: seq<Pair>, keep: Pair -> bool)
    requires Normal(cfg)
    ensures |Filter(cfg, keep)| <= CONFIG_MAX_PAIRS
    ensures forall i :: 0 <= i < |Filter(cfg, keep)| ==> NormalPair(Filter(cfg, keep)[i])
  {
    hide NormalPair;
    var kept := Filter(cfg, keep);
    forall i | 0 <= i < |kept|
      ensures NormalPair(kept[i])
    {
      assert kept[i] in cfg;
    }
  }
}
