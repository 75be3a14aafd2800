/** `robust_cfg_compact`: live records move to the front, in order, one slot at a
    time with no sync between them. */
module Compaction {
  import opened Options
  import opened RecordFormat
  import opened SlotStore
  import opened SlotIo
  import opened Recovery

  /** Slot numbers of the live records, in scan order. */
  function Sources(slots: seq<Record>): (p: seq<nat>)
    ensures |p| <= |slots|
    ensures forall j :: 0 <= j < |p| ==> j <= p[j] < |slots| && Live(slots[p[j]])
    ensures forall i, j :: 0 <= i < j < |p| ==> p[i] < p[j]
  {
    if |slots| == 0 then []
    else
      var n := |slots| - 1;
      Sources(slots[..n]) + if Live(slots[n]) then [n] else []
  }

  lemma {:induction false} SourcesComplete(slots: seq<Record>, i: nat)
    requires i < |slots| && Live(slots[i])
    ensures i in Sources(slots)
    decreases |slots|
  {
    hide Live;
    var n := |slots| - 1;
    if i < n {
      SourcesComplete(slots[..n], i);
    }
  }

  lemma {:induction false} SourcesCount(slots: seq<Record>)
    ensures |Sources(slots)| == LiveCount(slots)
    decreases |slots|
  {
    hide Live;
    if |slots| > 0 {
      SourcesCount(slots[..|slots| - 1]);
    }
  }

  /** What compaction puts in slot `i`. */
  function PackedSlot(slots: seq<Record>, i: nat): Record {
    if i < |Sources(slots)| then slots[Sources(slots)[i]] else EmptyRecord()
  }

  function Packed(slots: seq<Record>): (s: seq<Record>)
    ensures |s| == |slots|
  {
    seq(|slots|, i requires 0 <= i < |slots| => PackedSlot(slots, i))
  }

  function PackPlan(slots: seq<Record>, n: nat): (plan: seq<Step>)
    requires n <= |slots|
    ensures |plan| == n
  {
    seq(n, i requires 0 <= i < n => PutSlot(i, PackedSlot(slots, i)))
  }

  function CompactPlan(d: Disk): seq<Step>
    requires Fits32(d.slots)
  {
    PackPlan(d.slots, |d.slots|) + [PutHeader(WithCount(d.header, LiveCount(d.slots)))]
  }

  /** The slots when the first `n` have been rewritten and the next one holds `t`. */
  function PartlyPacked(slots: seq<Record>, n: nat): (s: seq<Record>)
    requires n <= |slots|
    ensures |s| == |slots|
  {
    Packed(slots)[..n] + slots[n..]
  }

  ghost predicate CutShort(slots: seq<Record>, n: nat, t: Record, after: seq<Record>) {
    n < |slots| && Lands(n, slots[n], PackedSlot(slots, n), t) && after == PartlyPacked(slots, n)[n := t]
  }

  /** Where the record in slot `j` came from. */
  function Origin(slots: seq<Record>, n: nat, j: nat): nat {
    if j < n && j < |Sources(slots)| then Sources(slots)[j] else j
  }

  lemma PackedAt(slots: seq<Record>, i: nat)
    requires i < |slots|
    ensures Packed(slots)[i] == PackedSlot(slots, i)
  {
    hide PackedSlot;
  }

  lemma PartlyPackedAt(slots: seq<Record>, n: nat, j: nat)
    requires n <= |slots| && j < |slots|
    ensures PartlyPacked(slots, n)[j] == if j < n then PackedSlot(slots, j) else slots[j]
  {
    hide PackedSlot;
  }

  lemma OriginHolds(slots: seq<Record>, n: nat, j: nat, key: Text)
    requires n <= |slots| && j < |slots|
    requires Holds(PartlyPacked(slots, n)[j], key)
    ensures var o := Origin(slots, n, j); j <= o < |slots| && slots[o] == PartlyPacked(slots, n)[j]
    ensures j < n ==> j < |Sources(slots)|
  {
    hide Live, KeyOf, EmptyRecord, Sources, PartlyPacked;
    PartlyPackedAt(slots, n, j);
    EmptyDead();
  }

  lemma EmptyDead()
    ensures !Live(EmptyRecord())
  {}

  function IndexOf(p: seq<nat>, x: nat): (c: nat)
    requires exists c :: 0 <= c < |p| && p[c] == x
    ensures c < |p| && p[c] == x
  {
    if p[0] == x then 0
    else
      assert exists c :: 0 <= c < |p[1..]| && p[1..][c] == x by {
        var c :| 0 <= c < |p| && p[c] == x;
        assert p[1..][c - 1] == x;
      }
      1 + IndexOf(p[1..], x)
  }

  /** In a partly packed store the copy of slot `m` at `place` beats slot `j`,
      when slot `m` beat slot `j`'s origin before. */
  lemma PlaceWins(slots: seq<Record>, n: nat, m: nat, place: nat, j: nat)
    requires n <= |slots| && m < |slots| && place < |slots| && j < |slots| && j != place
    requires place == m || (m < n && place < n && place < |Sources(slots)| && Sources(slots)[place] == m)
    requires m < n ==> place < |Sources(slots)| && Sources(slots)[place] == m
    requires j < n ==> j < |Sources(slots)|
    requires var b := PartlyPacked(slots, n); b[place] == slots[m] && b[j] == slots[Origin(slots, n, j)]
    requires Origin(slots, n, j) != m ==> Older(slots, Origin(slots, n, j), m)
    ensures Older(PartlyPacked(slots, n), j, place)
  {
    hide Live, Time, Sources, PackedSlot;
    var p, o := Sources(slots), Origin(slots, n, j);
    if m < n {
      if j < n {
        assert p[j] == o;
        if j < place {
          assert p[j] < p[place];
        } else {
          assert p[place] < p[j];
        }
      }
    } else {
      assert j <= o;
    }
  }

  /** After any number of whole slot rewrites a read still settles on the
      same record, duplicates and equal timestamps included. */
  lemma NewestMoves(slots: seq<Record>, n: nat, key: Text)
    requires n <= |slots|
    ensures var m, q, b := Newest(slots, key), Newest(PartlyPacked(slots, n), key), PartlyPacked(slots, n);
      && (m == -1 ==> q == -1)
      && (m != -1 ==> q != -1 && b[q] == slots[m])
      && (m >= n ==> q == m)
      && (0 <= m < n ==> 0 <= q < |Sources(slots)| && Sources(slots)[q] == m)
  {
    hide Live, Newest, KeyOf, ValueOf, Time, Sources, EmptyRecord, Older;
    var b := PartlyPacked(slots, n);
    var p := Sources(slots);
    NewestIsMaximal(slots, key);
    var m := Newest(slots, key);
    forall j | 0 <= j < |b| && Holds(b[j], key)
      ensures var o := Origin(slots, n, j); j <= o < |slots| && slots[o] == b[j]
      ensures j < n ==> j < |p|
    {
      OriginHolds(slots, n, j, key);
    }
    if m == -1 {
      NoHolder(b, key);
    } else {
      SourcesComplete(slots, m);
      var c := IndexOf(p, m);
      var place := if m >= n then m else c;
      assert b[place] == slots[m];
      forall j | 0 <= j < |b| && j != place && Holds(b[j], key)
        ensures Older(b, j, place)
      {
        PlaceWins(slots, n, m, place, j);
      }
      NewestUnique(b, key, place);
    }
  }

  lemma PrefixKeepsLookup(slots: seq<Record>, n: nat, key: Text)
    requires n <= |slots|
    ensures Lookup(PartlyPacked(slots, n), key) == Lookup(slots, key)
  {
    hide Newest, ValueOf, Sources, PartlyPacked;
    NewestMoves(slots, n, key);
  }

  /** Losing a slot that a read does not settle on changes nothing. */
  lemma DropOther(slots: seq<Record>, n: nat, t: Record, key: Text)
    requires n < |slots| && Newest(slots, key) != n && !Live(t)
    ensures Lookup(slots[n := t], key) == Lookup(slots, key)
  {
    hide Live, Newest, KeyOf, ValueOf, Time;
    var b := slots[n := t];
    NewestIsMaximal(slots, key);
    var m := Newest(slots, key);
    if m == -1 {
      NoHolder(b, key);
    } else {
      forall j | 0 <= j < |b| && j != m && Holds(b[j], key)
        ensures Older(b, j, m)
      {
        assert Older(slots, j, m);
      }
      NewestUnique(b, key, m);
    }
  }

  lemma LandsCases(i: nat, old_: Record, new_: Record, t: Record)
    requires Lands(i, old_, new_, t)
    ensures t == old_ || t == new_ || !Live(t)
    ensures old_ == new_ ==> t == old_
  {
    hide Torn;
    if old_ == new_ {
      LandsSame(i, old_, t);
    }
  }

  /** A compaction cut short, with the slot in progress torn, keeps every key. */
  lemma CutShortKeepsLookup(slots: seq<Record>, n: nat, t: Record, after: seq<Record>, key: Text)
    requires CutShort(slots, n, t, after)
    ensures Lookup(after, key) == Lookup(slots, key)
  {
    hide Live, Newest, Lookup, Sources, EmptyRecord, Lands;
    var old_, new_ := slots[n], PackedSlot(slots, n);
    LandsCases(n, old_, new_, t);
    if t == old_ {
      assert after == PartlyPacked(slots, n);
      PrefixKeepsLookup(slots, n, key);
    } else {
      var next := PartlyPacked(slots, n + 1);
      assert after == next[n := t];
      PrefixKeepsLookup(slots, n + 1, key);
      if t == new_ {
        assert after == next;
      } else {
        NewestMoves(slots, n + 1, key);
        DropOther(next, n, t, key);
      }
    }
  }

  /** Writes land in order: at most the last one of the run is incomplete. */
  predicate InOrder(ios: seq<Io>) {
    forall j :: 0 <= j < |ios| - 1 && ios[j].SlotIo? ==> ios[j].landed == ios[j].intended
  }

  lemma MatchesPut(d: Disk, i: nat, rec: Record, io: Io)
    requires Matches(d, PutSlot(i, rec), io)
    ensures io.SlotIo? && io.intended == rec
  {
    hide Lands;
  }

  lemma PartlyPackedNext(slots: seq<Record>, n: nat)
    requires n < |slots|
    ensures PartlyPacked(slots, n)[n := PackedSlot(slots, n)] == PartlyPacked(slots, n + 1)
  {
    hide PackedSlot, PartlyPacked;
    var a, b := PartlyPacked(slots, n), PartlyPacked(slots, n + 1);
    forall j | 0 <= j < |slots|
      ensures a[n := PackedSlot(slots, n)][j] == b[j]
    {
      PartlyPackedAt(slots, n, j);
      PartlyPackedAt(slots, n + 1, j);
    }
  }

  lemma PartlyPackedEnds(slots: seq<Record>)
    ensures PartlyPacked(slots, 0) == slots && PartlyPacked(slots, |slots|) == Packed(slots)
  {
    hide PackedSlot;
  }

  /** The rewrite before the last of a run in order is complete. */
  lemma SlotDone(d: Disk, plan: seq<Step>, ios: seq<Io>, n: nat, after: seq<Record>)
    requires n < |d.slots| && n < |plan| && plan[n] == PutSlot(n, PackedSlot(d.slots, n))
    requires Follows(d, plan, ios) && InOrder(ios) && n < |ios| - 1
    requires ios[n].SlotIo? && CutShort(d.slots, n, ios[n].landed, after)
    ensures after == PartlyPacked(d.slots, n + 1)
  {
    hide Lands, PackedSlot, PartlyPacked, Matches;
    assert Matches(Replay(d, ios[..n]), plan[n], ios[n]);
    MatchesPut(Replay(d, ios[..n]), n, PackedSlot(d.slots, n), ios[n]);
    PartlyPackedNext(d.slots, n);
  }

  lemma CompactStep(d: Disk, n: nat)
    requires Fits32(d.slots) && n <= |d.slots|
    ensures |CompactPlan(d)| == |d.slots| + 1
    ensures CompactPlan(d)[n] == if n < |d.slots| then PutSlot(n, PackedSlot(d.slots, n))
                                 else PutHeader(WithCount(d.header, LiveCount(d.slots)))
  {
    hide PackedSlot, WithCount, LiveCount;
  }

  lemma {:induction false} PackRun(d: Disk, ios: seq<Io>)
    requires Fits32(d.slots)
    requires Follows(d, CompactPlan(d), ios) && InOrder(ios)
    ensures var after, m := Replay(d, ios).slots, |ios| - 1;
      && (|ios| == 0 ==> after == d.slots)
      && (0 < |ios| <= |d.slots| ==> ios[m].SlotIo? && CutShort(d.slots, m, ios[m].landed, after))
      && (|ios| > |d.slots| ==> after == Packed(d.slots))
    decreases |ios|
  {
    hide Lands, PackedSlot, WithCount, LiveCount, Replay, After, Matches, CompactPlan, PartlyPacked, Packed;
    CompactStep(d, |d.slots|);
    PartlyPackedEnds(d.slots);
    if |ios| == 0 {
      assert ios == [];
      ReplayNone(Scan, d);
    } else {
      var m := |ios| - 1;
      var plan, before := CompactPlan(d), Replay(d, ios[..m]).slots;
      CompactStep(d, m);
      FollowsPrefix(d, plan, ios, |plan|, m);
      assert plan[..|plan|] == plan;
      PackRun(d, ios[..m]);
      assert Matches(Replay(d, ios[..m]), plan[m], ios[m]);
      if m > 0 {
        CompactStep(d, m - 1);
        SlotDone(d, plan, ios, m - 1, before);
      }
      if m < |d.slots| {
        PartlyPackedAt(d.slots, m, m);
        ReplayLast(d, ios, plan[m]);
      } else {
        HeaderLast(d, ios, WithCount(d.header, LiveCount(d.slots)));
      }
    }
  }

  /** Kill a compaction at any slot, tear the slot it was writing, reopen: every
      key reads as it did before, even with duplicates and equal timestamps. */
  lemma CompactionIsCrashSafe(d: Disk, ios: seq<Io>, key: Text)
    requires Fits32(d.slots)
    requires Follows(d, CompactPlan(d), ios) && InOrder(ios)
    ensures Lookup(Scanned(Replay(d, ios)).slots, key) == Lookup(d.slots, key)
  {
    hide Follows, Lookup, CutShort, Scanned, ScanPlan;
    PackRun(d, ios);
    OpenRecovers(Replay(d, ios), key);
    if 0 < |ios| <= |d.slots| {
      CutShortKeepsLookup(d.slots, |ios| - 1, ios[|ios| - 1].landed, Replay(d, ios).slots, key);
    } else if |ios| > 0 {
      PackedKeepsLookup(d.slots, key);
    }
  }

  lemma PackedKeepsLookup(slots: seq<Record>, key: Text)
    ensures Lookup(Packed(slots), key) == Lookup(slots, key)
  {
    hide Lookup, PackedSlot;
    PrefixKeepsLookup(slots, |slots|, key);
    assert PartlyPacked(slots, |slots|) == Packed(slots);
  }

  // ---------------------------------------------------------------------
  // A finished compaction
  // ---------------------------------------------------------------------

  function Compacted(d: Disk): (e: Disk)
    requires Fits32(d.slots)
  {
    Perform(d, CompactPlan(d))
  }

  lemma {:induction false} PerformPack(d: Disk, n: nat)
    requires n <= |d.slots|
    ensures Perform(d, PackPlan(d.slots, n)) == d.(slots := PartlyPacked(d.slots, n))
    decreases n
  {
    hide PackedSlot;
    if n == 0 {
      assert PartlyPacked(d.slots, 0) == d.slots;
    } else {
      hide PartlyPacked, Perform;
      PerformPack(d, n - 1);
      PartlyPackedNext(d.slots, n - 1);
      var step := PutSlot(n - 1, PackedSlot(d.slots, n - 1));
      assert PackPlan(d.slots, n) == PackPlan(d.slots, n - 1) + [step];
      PerformSnoc(d, PackPlan(d.slots, n - 1), step);
    }
  }

  lemma CompactedIs(d: Disk)
    requires Fits32(d.slots)
    ensures Compacted(d) == Disk(WithCount(d.header, LiveCount(d.slots)), Packed(d.slots))
  {
    hide PackedSlot, WithCount, LiveCount, Perform;
    PerformPack(d, |d.slots|);
    PerformSnoc(d, PackPlan(d.slots, |d.slots|), PutHeader(WithCount(d.header, LiveCount(d.slots))));
    assert PartlyPacked(d.slots, |d.slots|) == Packed(d.slots);
  }

  // ---------------------------------------------------------------------
  // Power loss: nothing is synced between slots
  // ---------------------------------------------------------------------

  /** The live records already stand in front. */
  predicate Settled(slots: seq<Record>) {
    forall i, j :: 0 <= i < j < |slots| && Live(slots[j]) ==> Live(slots[i])
  }

  lemma {:induction false} SettledSources(slots: seq<Record>, i: nat)
    requires Settled(slots) && i < |slots|
    ensures Live(slots[i]) <==> i < |Sources(slots)|
    ensures Live(slots[i]) ==> Sources(slots)[i] == i
    decreases |slots|
  {
    hide Live;
    var n := |slots| - 1;
    var front := slots[..n];
    if i < n {
      SettledSources(front, i);
      if Live(slots[n]) && n > 0 {
        SettledSources(front, n - 1);
        assert Live(slots[n - 1]);
      }
    } else {
      if n > 0 {
        SettledSources(front, n - 1);
        assert Live(slots[n]) ==> Live(slots[n - 1]);
      }
    }
  }

  /** Any of the planned rewrites may have landed, torn or not, in any order. */
  ghost predicate Scattered(slots: seq<Record>, after: seq<Record>) {
    |after| == |slots| &&
    forall i :: 0 <= i < |slots| ==> Lands(i, slots[i], PackedSlot(slots, i), after[i])
  }

  lemma {:induction false} ScatteredRun(d: Disk, ios: seq<Io>)
    requires Fits32(d.slots) && Follows(d, CompactPlan(d), ios)
    ensures Scattered(d.slots, Replay(d, ios).slots)
    ensures forall j :: |ios| <= j < |d.slots| ==> Replay(d, ios).slots[j] == d.slots[j]
    decreases |ios|
  {
    hide Lands, PackedSlot, WithCount, LiveCount, Replay, After, Matches;
    if |ios| == 0 {
      assert ios == [];
      ReplayNone(Scan, d);
      forall i | 0 <= i < |d.slots|
        ensures Lands(i, d.slots[i], PackedSlot(d.slots, i), d.slots[i])
      {
        LandsEnds(i, d.slots[i], PackedSlot(d.slots, i));
      }
    } else {
      var m, plan := |ios| - 1, CompactPlan(d);
      FollowsPrefix(d, plan, ios, |plan|, m);
      assert plan[..|plan|] == plan;
      ScatteredRun(d, ios[..m]);
      assert Matches(Replay(d, ios[..m]), plan[m], ios[m]);
      if m < |d.slots| {
        PartlyPackedAt(d.slots, m, m);
        ReplayLast(d, ios, plan[m]);
      } else {
        HeaderLast(d, ios, WithCount(d.header, LiveCount(d.slots)));
      }
    }
  }

  /** The last live record of an unsettled store stands where compaction will
      write an EMPTY one. */
  lemma {:induction false} LastIsExposed(slots: seq<Record>) returns (j: nat)
    requires !Settled(slots)
    ensures |Sources(slots)| <= j < |slots| && Live(slots[j])
    decreases |slots|
  {
    hide Live;
    var n := |slots| - 1;
    if n >= 0 && Live(slots[n]) {
      j := n;
      if |Sources(slots)| > n {
        forall i | 0 <= i < |slots|
          ensures Live(slots[i])
        {
          AllSources(Sources(slots), i);
        }
      }
    } else {
      var a, b :| 0 <= a < b < |slots| && Live(slots[b]) && !Live(slots[a]);
      assert slots[..n][a] == slots[a] && slots[..n][b] == slots[b];
      j := LastIsExposed(slots[..n]);
    }
  }

  /** A rising sequence as long as its range leaves nothing out. */
  lemma {:induction false} AllSources(p: seq<nat>, i: nat)
    requires i < |p| && forall j :: 0 <= j < |p| ==> j <= p[j] < |p|
    requires forall a, b :: 0 <= a < b < |p| ==> p[a] < p[b]
    ensures p[i] == i
    decreases |p| - i
  {
    if i < |p| - 1 {
      AllSources(p, i + 1);
    }
  }

  // ---------------------------------------------------------------------
  // Exactly when a key survives that
  // ---------------------------------------------------------------------

  predicate Carries(r: Record, key: Text, value: Text) {
    Holds(r, key) && ValueOf(r) == value
  }

  /** Slot `g` carries the pair before its rewrite, after it, and in between. */
  predicate Stays(slots: seq<Record>, key: Text, value: Text, g: nat) {
    g < |slots| && Carries(slots[g], key, value) && Carries(PackedSlot(slots, g), key, value) &&
    CannotTear(g, slots[g], PackedSlot(slots, g))
  }

  /** The lesser of the times slot `g` has before and after its rewrite. */
  function Floor(slots: seq<Record>, g: nat): nat
    requires g < |slots|
  {
    if Time(slots[g]) < Time(PackedSlot(slots, g)) then Time(slots[g]) else Time(PackedSlot(slots, g))
  }

  /** A copy made at `time` in slot `j` is older than one that stays. */
  predicate Outlived(slots: seq<Record>, key: Text, value: Text, time: nat, j: nat) {
    exists g :: 0 <= g < |slots| && Stays(slots, key, value, g) &&
                (time < Floor(slots, g) || (time == Floor(slots, g) && j < g))
  }

  predicate Harmless(slots: seq<Record>, key: Text, value: Text, j: nat, r: Record) {
    Holds(r, key) && ValueOf(r) != value ==> Outlived(slots, key, value, Time(r), j)
  }

  /** The value read stays in some slot whatever lands, and every copy with another
      value, where it stands or where it is moved to, is older than such a slot. */
  predicate KeptAnyhow(slots: seq<Record>, key: Text) {
    match Lookup(slots, key)
    case None => true
    case Some(value) =>
      (exists g :: 0 <= g < |slots| && Stays(slots, key, value, g)) &&
      forall j :: 0 <= j < |slots| ==>
        Harmless(slots, key, value, j, slots[j]) && Harmless(slots, key, value, j, PackedSlot(slots, j))
  }

  ghost predicate AllKept(slots: seq<Record>) {
    forall key: Text :: KeptAnyhow(slots, key)
  }

  lemma KeptSurvives(slots: seq<Record>, after: seq<Record>, key: Text)
    requires KeptAnyhow(slots, key) && Scattered(slots, after)
    ensures Lookup(after, key) == Lookup(slots, key)
  {
    hide Live, KeyOf, ValueOf, Newest, Time, Lands, PackedSlot, CannotTear, Stays, Floor;
    NewestIsMaximal(slots, key);
    NewestIsMaximal(after, key);
    forall j | 0 <= j < |slots|
      ensures after[j] == slots[j] || after[j] == PackedSlot(slots, j) || !Live(after[j])
    {
      LandsCases(j, slots[j], PackedSlot(slots, j), after[j]);
    }
    var m := Newest(after, key);
    if Newest(slots, key) == -1 {
      if m != -1 {
        PackedHolds(slots, m, key);
      }
    } else {
      var value := ValueOf(slots[Newest(slots, key)]);
      var g :| 0 <= g < |slots| && Stays(slots, key, value, g);
      StayLands(slots, key, value, g, after[g]);
      if ValueOf(after[m]) != value {
        var h :| 0 <= h < |slots| && Stays(slots, key, value, h) &&
          (Time(after[m]) < Floor(slots, h) || (Time(after[m]) == Floor(slots, h) && m < h));
        StayLands(slots, key, value, h, after[h]);
        assert false;
      }
    }
  }

  lemma PackedHolds(slots: seq<Record>, j: nat, key: Text)
    requires j < |slots|
    ensures Holds(PackedSlot(slots, j), key) ==> exists i :: 0 <= i < |slots| && Holds(slots[i], key)
  {
    hide Live, KeyOf, EmptyRecord;
    EmptyDead();
  }

  lemma StayLands(slots: seq<Record>, key: Text, value: Text, g: nat, t: Record)
    requires Stays(slots, key, value, g) && Lands(g, slots[g], PackedSlot(slots, g), t)
    ensures Carries(t, key, value) && Floor(slots, g) <= Time(t)
  {
    hide Live, KeyOf, ValueOf, Time, Lands, PackedSlot, CannotTear;
    LandsUntorn(g, slots[g], PackedSlot(slots, g), t);
  }

  /** What a slot can be left as so that it does not carry the pair, or not after
      (`time`, `j`). */
  lemma WorstCase(slots: seq<Record>, key: Text, value: Text, time: nat, j: nat, i: nat) returns (t: Record)
    requires i < |slots|
    requires Stays(slots, key, value, i) ==> !(time < Floor(slots, i) || (time == Floor(slots, i) && j < i))
    ensures Lands(i, slots[i], PackedSlot(slots, i), t)
    ensures Carries(t, key, value) ==>
      Stays(slots, key, value, i) && !(time < Time(t) || (time == Time(t) && j < i))
  {
    hide CrcGood, KeyOf, ValueOf, Time, Lands, PackedSlot, CannotTear, Torn;
    var old_, new_ := slots[i], PackedSlot(slots, i);
    LandsEnds(i, old_, new_);
    if Stays(slots, key, value, i) {
      t := if Time(old_) < Time(new_) then old_ else new_;
    } else if !Carries(old_, key, value) {
      t := old_;
    } else if !Carries(new_, key, value) {
      t := new_;
    } else {
      var landed := TearingSectors(i, old_, new_);
      t := Torn(i, landed, old_, new_);
    }
  }

  /** Otherwise some rewrites can land so that the key reads as something else. */
  lemma NotKept(slots: seq<Record>, key: Text) returns (after: seq<Record>)
    requires !KeptAnyhow(slots, key)
    ensures Scattered(slots, after) && Lookup(after, key) != Lookup(slots, key)
  {
    hide Live, KeyOf, ValueOf, Newest, Time, Lands, PackedSlot, Stays, Floor;
    var value := Lookup(slots, key).value;
    if g :| 0 <= g < |slots| && Stays(slots, key, value, g) {
      var j :| 0 <= j < |slots| &&
        !(Harmless(slots, key, value, j, slots[j]) && Harmless(slots, key, value, j, PackedSlot(slots, j)));
      var r := if Harmless(slots, key, value, j, slots[j]) then PackedSlot(slots, j) else slots[j];
      LandsEnds(j, slots[j], PackedSlot(slots, j));
      after := WorstCases(slots, key, value, Time(r), j);
      after := after[j := r];
    } else {
      after := WorstCases(slots, key, value, 0, 0);
    }
    NewestIsMaximal(after, key);
  }

  lemma WorstCases(slots: seq<Record>, key: Text, value: Text, time: nat, j: nat) returns (after: seq<Record>)
    requires !Outlived(slots, key, value, time, j)
    ensures Scattered(slots, after)
    ensures forall i :: 0 <= i < |slots| && Carries(after[i], key, value) ==>
      Stays(slots, key, value, i) && !(time < Time(after[i]) || (time == Time(after[i]) && j < i))
  {
    hide Carries, Time, Lands, PackedSlot, Stays, Floor;
    after := slots;
    var n := 0;
    while n < |slots|
      invariant n <= |slots| == |after|
      invariant forall i :: 0 <= i < n ==> Lands(i, slots[i], PackedSlot(slots, i), after[i])
      invariant forall i :: 0 <= i < n && Carries(after[i], key, value) ==>
        Stays(slots, key, value, i) && !(time < Time(after[i]) || (time == Time(after[i]) && j < i))
    {
      var t := WorstCase(slots, key, value, time, j, n);
      after := after[n := t];
      n := n + 1;
    }
  }

  /** A store whose live records already stand in front keeps every key. */
  lemma SettledIsKept(slots: seq<Record>, key: Text)
    requires Settled(slots)
    ensures KeptAnyhow(slots, key)
  {
    hide Live, KeyOf, ValueOf, Newest, Time, CannotTear, Settled, EmptyRecord, Sources;
    NewestIsMaximal(slots, key);
    EmptyDead();
    var m := Newest(slots, key);
    if m != -1 {
      var value := ValueOf(slots[m]);
      SettledSources(slots, m);
      SameCannotTear(m, slots[m]);
      assert Stays(slots, key, value, m);
      forall j | 0 <= j < |slots|
        ensures Harmless(slots, key, value, j, slots[j]) && Harmless(slots, key, value, j, PackedSlot(slots, j))
      {
        SettledSources(slots, j);
        assert Holds(slots[j], key) && j != m ==> Older(slots, j, m);
      }
    }
  }

  lemma SameCannotTear(i: nat, r: Record)
    ensures CannotTear(i, r, r)
  {
    hide Torn, CrcGood, Sector;
    TornSame(i, {Sector(i, 0)}, r);
    TornSame(i, {Sector(i, 296)}, r);
  }

  lemma SettledSurvives(slots: seq<Record>, after: seq<Record>, key: Text)
    requires Settled(slots) && Scattered(slots, after)
    ensures Lookup(after, key) == Lookup(slots, key)
  {
    hide Lookup, Scattered, Settled, KeptAnyhow;
    SettledIsKept(slots, key);
    KeptSurvives(slots, after, key);
  }

  /** The run that leaves slot `i` as `after[i]`. */
  function Landing(slots: seq<Record>, after: seq<Record>): (ios: seq<Io>)
    requires |after| == |slots|
    ensures |ios| == |slots|
  {
    seq(|slots|, i requires 0 <= i < |slots| => SlotIo(i, PackedSlot(slots, i), after[i], false))
  }

  lemma {:induction false} LandingUpTo(d: Disk, after: seq<Record>, n: nat)
    requires n <= |d.slots| == |after|
    ensures Replay(d, Landing(d.slots, after)[..n]).slots == after[..n] + d.slots[n..]
    decreases n
  {
    hide PackedSlot;
    var ios := Landing(d.slots, after);
    if n > 0 {
      LandingUpTo(d, after, n - 1);
      assert ios[..n][..n - 1] == ios[..n - 1];
    }
  }

  /** Any way the rewrites may land is a run of the compaction. */
  lemma ScatteredIsRun(d: Disk, after: seq<Record>)
    requires Fits32(d.slots) && Scattered(d.slots, after)
    ensures Follows(d, CompactPlan(d), Landing(d.slots, after))
    ensures Replay(d, Landing(d.slots, after)).slots == after
  {
    hide Lands, PackedSlot, Replay, WithCount, LiveCount;
    var ios := Landing(d.slots, after);
    forall n | 0 <= n < |ios|
      ensures Matches(Replay(d, ios[..n]), CompactPlan(d)[n], ios[n])
    {
      LandingUpTo(d, after, n);
    }
    LandingUpTo(d, after, |ios|);
    assert ios[..|ios|] == ios;
  }

  /** A power loss may keep any of the rewrites and drop or tear the others. A key
      survives every such loss exactly when its value stays somewhere, newer
      than any copy of another value. */
  lemma UnorderedCompactionIff(d: Disk, key: Text)
    requires Fits32(d.slots)
    ensures (forall ios :: Follows(d, CompactPlan(d), ios) ==>
        Lookup(Scanned(Replay(d, ios)).slots, key) == Lookup(d.slots, key))
      <==> KeptAnyhow(d.slots, key)
  {
    hide Follows, Lookup, Scanned, ScanPlan, Scattered, Replay, CompactPlan, KeptAnyhow, Landing;
    if KeptAnyhow(d.slots, key) {
      forall ios | Follows(d, CompactPlan(d), ios)
        ensures Lookup(Scanned(Replay(d, ios)).slots, key) == Lookup(d.slots, key)
      {
        ScatteredRun(d, ios);
        KeptSurvives(d.slots, Replay(d, ios).slots, key);
        OpenRecovers(Replay(d, ios), key);
      }
    } else {
      var after := NotKept(d.slots, key);
      ScatteredIsRun(d, after);
      OpenRecovers(Replay(d, Landing(d.slots, after)), key);
    }
  }

  /** With one live copy per key every key survives exactly when no dead slot stood
      in front of a live one, that is, when compaction moves no record. */
  lemma UniqueCompactionIff(slots: seq<Record>)
    requires UniqueKeys(slots)
    ensures AllKept(slots) <==> Settled(slots)
  {
    hide Live, KeyOf, Lookup, Lands, KeptAnyhow, Settled, EmptyRecord, Sources;
    if Settled(slots) {
      forall key: Text
        ensures KeptAnyhow(slots, key)
      {
        SettledIsKept(slots, key);
      }
    } else {
      var j := LastIsExposed(slots);
      var after := slots[j := EmptyRecord()];
      forall i | 0 <= i < |slots|
        ensures Lands(i, slots[i], PackedSlot(slots, i), after[i])
      {
        LandsEnds(i, slots[i], PackedSlot(slots, i));
      }
      OnlyCopyLost(slots, j);
      if KeptAnyhow(slots, KeyOf(slots[j])) {
        KeptSurvives(slots, after, KeyOf(slots[j]));
      }
    }
  }

  lemma OnlyCopyLost(slots: seq<Record>, j: nat)
    requires j < |slots| && Live(slots[j]) && UniqueKeys(slots)
    ensures Lookup(slots, KeyOf(slots[j])).Some? && Lookup(slots[j := EmptyRecord()], KeyOf(slots[j])) == None
  {
    hide Live, KeyOf, ValueOf, Newest, Time, EmptyRecord;
    EmptyDead();
    NewestIsMaximal(slots, KeyOf(slots[j]));
    assert Holds(slots[j], KeyOf(slots[j]));
    NoHolder(slots[j := EmptyRecord()], KeyOf(slots[j]));
  }
}
