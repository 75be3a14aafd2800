/** Snapshot differences: the deltas the watcher computes between two tables, and
    what applying them does to a subscriber's view. */
module ConfigDelta {
  import opened Options
  import opened CStrings
  import opened ConfigText
  import opened ConfigTable
  import opened JsonDelta

  function Filter(cfg: seq<Pair>, keep: Pair -> bool): (r: seq<Pair>)
    ensures |r| <= |cfg|
    ensures forall p :: p in r <==> p in cfg && keep(p)
  {
    if |cfg| == 0 then []
    else
      var last := cfg[|cfg| - 1];
      assert cfg == cfg[..|cfg| - 1] + [last];
      Filter(cfg[..|cfg| - 1], keep) + if keep(last) then [last] else []
  }

  predicate IsChanged(old_: seq<Pair>, p: Pair) {
    Get(old_, p.key) != Some(p.value)
  }

  predicate IsGone(cur: seq<Pair>, p: Pair) {
    Get(cur, p.key) == None
  }

  /** Pairs of the new snapshot that are new or have a new value. */
  function Changed(old_: seq<Pair>, cur: seq<Pair>): seq<Pair> {
    Filter(cur, p => IsChanged(old_, p))
  }

  /** Pairs of the old snapshot whose key is gone. */
  function Removed(old_: seq<Pair>, cur: seq<Pair>): seq<Pair> {
    Filter(old_, p => IsGone(cur, p))
  }

  lemma FilterStep(cfg: seq<Pair>, keep: Pair -> bool, i: nat)
    requires i < |cfg|
    ensures Filter(cfg[..i + 1], keep) == Filter(cfg[..i], keep) + if keep(cfg[i]) then [cfg[i]] else []
  {
    assert cfg[..i + 1][..i] == cfg[..i];
  }

  lemma {:induction false} FilterGrows(cfg: seq<Pair>, keep: Pair -> bool, i: nat)
    requires i <= |cfg|
    ensures Filter(cfg[..i], keep) <= Filter(cfg, keep)
    decreases |cfg| - i
  {
    if i == |cfg| {
      assert cfg[..i] == cfg;
    } else {
      FilterStep(cfg, keep, i);
      FilterGrows(cfg, keep, i + 1);
    }
  }

  function Prefix<T>(s: seq<T>, n: nat): seq<T> {
    if n < |s| then s[..n] else s
  }

  /** Collects at most `max` changed pairs. */
  method Diff(old_: Config, cur: Config, changed: array<Pair>, max: nat) returns (n: nat)
    requires old_.Valid() && cur.Valid() && max <= changed.Length
    requires changed != old_.pairs && changed != cur.pairs
    modifies changed
    ensures n <= max
    ensures changed[..n] == Prefix(Changed(old_.Contents(), cur.Contents()), max)
  {
    hide Get, Filter;
    ghost var was, new_ := old_.Contents(), cur.Contents();
    ghost var keep := (p: Pair) => IsChanged(was, p);
    n := 0;
    var i := 0;
    FilterEmpty(new_, keep);
    while i < cur.count && n < max
      invariant i <= cur.count && n <= max
      invariant old_.Contents() == was && cur.Contents() == new_
      invariant changed[..n] == Filter(new_[..i], keep)
    {
      var oldValue := old_.Lookup(cur.pairs[i].key);
      FilterStep(new_, keep, i);
      assert cur.pairs[i] == new_[i];
      if oldValue != Some(cur.pairs[i].value) {
        changed[n] := cur.pairs[i];
        n := n + 1;
      }
      i := i + 1;
    }
    FilterGrows(new_, keep, i);
    assert i == |new_| ==> new_[..i] == new_;
  }

  /** Collects at most `max` pairs whose key has disappeared. */
  method FindRemoved(old_: Config, cur: Config, removed: array<Pair>, max: nat) returns (n: nat)
    requires old_.Valid() && cur.Valid() && max <= removed.Length
    requires removed != old_.pairs && removed != cur.pairs
    modifies removed
    ensures n <= max
    ensures removed[..n] == Prefix(Removed(old_.Contents(), cur.Contents()), max)
  {
    hide Get, Filter;
    ghost var was, new_ := old_.Contents(), cur.Contents();
    ghost var keep := (p: Pair) => IsGone(new_, p);
    n := 0;
    var i := 0;
    FilterEmpty(was, keep);
    while i < old_.count && n < max
      invariant i <= old_.count && n <= max
      invariant old_.Contents() == was && cur.Contents() == new_
      invariant removed[..n] == Filter(was[..i], keep)
    {
      var value := cur.Lookup(old_.pairs[i].key);
      FilterStep(was, keep, i);
      assert old_.pairs[i] == was[i];
      if value == None {
        removed[n] := old_.pairs[i];
        n := n + 1;
      }
      i := i + 1;
    }
    FilterGrows(was, keep, i);
    assert i == |was| ==> was[..i] == was;
  }

  lemma FilterEmpty(cfg: seq<Pair>, keep: Pair -> bool)
    ensures Filter(cfg[..0], keep) == []
  {}

  // ---------------------------------------------------------------------
  // Views
  // ---------------------------------------------------------------------

  type View = map<string, string>

  function ViewOf(cfg: seq<Pair>): View {
    if |cfg| == 0 then map[] else ViewOf(cfg[1..])[cfg[0].key := cfg[0].value]
  }

  lemma {:induction false} ViewIsGet(cfg: seq<Pair>, key: string)
    ensures At(ViewOf(cfg), key) == Get(cfg, key)
    decreases |cfg|
  {
    if |cfg| > 0 {
      ViewIsGet(cfg[1..], key);
    }
  }

  lemma SameView(a: View, b: View)
    requires forall key :: At(a, key) == At(b, key)
    ensures a == b
  {
    assert forall key :: key in a <==> At(a, key).Some?;
    assert forall key :: key in b <==> At(b, key).Some?;
    assert forall key :: key in a ==> At(a, key) == Some(a[key]);
    assert forall key :: key in b ==> At(b, key) == Some(b[key]);
  }

  /** A subscriber's handling of one delta. */
  function Apply(m: View, d: Delta): View {
    if d.deleted then m - {d.key} else m[d.key := d.value]
  }

  function ApplyAll(m: View, ds: seq<Delta>): View {
    if |ds| == 0 then m else Apply(ApplyAll(m, ds[..|ds| - 1]), ds[|ds| - 1])
  }

  lemma {:induction false} ApplyConcat(m: View, a: seq<Delta>, b: seq<Delta>)
    ensures ApplyAll(m, a + b) == ApplyAll(ApplyAll(m, a), b)
    decreases |b|
  {
    hide Apply;
    if |b| == 0 {
      assert a + b == a;
    } else {
      var n := |b| - 1;
      assert (a + b)[..|a + b| - 1] == a + b[..n];
      ApplyConcat(m, a, b[..n]);
    }
  }

  /** What one delta says about its key. */
  function Outcome(d: Delta): Option<string> {
    if d.deleted then None else Some(d.value)
  }

  lemma {:induction false} ApplyOnly(m: View, ds: seq<Delta>, d: Delta)
    requires d in ds && forall e :: e in ds && e.key == d.key ==> e == d
    ensures At(ApplyAll(m, ds), d.key) == Outcome(d)
    decreases |ds|
  {
    var n := |ds| - 1;
    if ds[n].key != d.key {
      assert d in ds[..n];
      ApplyOnly(m, ds[..n], d);
    }
  }

  lemma {:induction false} ApplyOthers(m: View, ds: seq<Delta>, key: string)
    requires forall e :: e in ds ==> e.key != key
    ensures At(ApplyAll(m, ds), key) == At(m, key)
    decreases |ds|
  {
    if |ds| > 0 {
      assert ds[|ds| - 1] in ds;
      ApplyOthers(m, ds[..|ds| - 1], key);
    }
  }

  // ---------------------------------------------------------------------
  // The deltas of one wake-up
  // ---------------------------------------------------------------------

  function Mark(ps: seq<Pair>, deleted: bool): (ds: seq<Delta>)
    ensures |ds| == |ps| && forall i :: 0 <= i < |ps| ==> ds[i] == Delta(ps[i].key, ps[i].value, deleted)
  {
    seq(|ps|, i requires 0 <= i < |ps| => Delta(ps[i].key, ps[i].value, deleted))
  }

  /** The changed pairs, then the removed ones. */
  function Deltas(old_: seq<Pair>, cur: seq<Pair>): seq<Delta> {
    Mark(Changed(old_, cur), false) + Mark(Removed(old_, cur), true)
  }

  lemma MarkHas(ps: seq<Pair>, deleted: bool, d: Delta)
    ensures d in Mark(ps, deleted) <==> d.deleted == deleted && Pair(d.key, d.value) in ps
  {
    if Pair(d.key, d.value) in ps {
      var i :| 0 <= i < |ps| && ps[i] == Pair(d.key, d.value);
      assert Mark(ps, deleted)[i] == Delta(d.key, d.value, deleted);
    }
  }

  lemma HasPair(cfg: seq<Pair>, p: Pair)
    requires DistinctKeys(cfg)
    ensures p in cfg <==> Get(cfg, p.key) == Some(p.value)
  {
    if p in cfg {
      var i :| 0 <= i < |cfg| && cfg[i] == p;
      PositionIs(cfg, p.key, i);
    } else if Get(cfg, p.key).Some? {
      assert cfg[Position(cfg, p.key)] in cfg;
    }
  }

  /** A delta is sent exactly for a key whose reading changed, and it carries the
      new value, or the last known value of a removed key. */
  lemma DeltaSent(old_: seq<Pair>, cur: seq<Pair>, d: Delta)
    requires DistinctKeys(old_) && DistinctKeys(cur)
    ensures d in Deltas(old_, cur) <==>
      if d.deleted then Get(cur, d.key) == None && Get(old_, d.key) == Some(d.value)
      else Get(cur, d.key) == Some(d.value) && Get(old_, d.key) != Some(d.value)
  {
    hide Get, DistinctKeys;
    MarkHas(Changed(old_, cur), false, d);
    MarkHas(Removed(old_, cur), true, d);
    HasPair(cur, Pair(d.key, d.value));
    HasPair(old_, Pair(d.key, d.value));
  }

  lemma ReadAfter(m: View, old_: seq<Pair>, cur: seq<Pair>, key: string)
    requires DistinctKeys(old_) && DistinctKeys(cur)
    ensures At(ApplyAll(m, Deltas(old_, cur)), key) ==
      if Get(old_, key) == Get(cur, key) then At(m, key) else Get(cur, key)
  {
    hide Get, DistinctKeys, ApplyAll, Deltas;
    var ds := Deltas(old_, cur);
    forall d | d in ds && d.key == key
      ensures Get(old_, key) != Get(cur, key)
      ensures d ==
        if Get(cur, key).None? then Delta(key, Get(old_, key).value, true) else Delta(key, Get(cur, key).value, false)
    {
      DeltaSent(old_, cur, d);
    }
    if Get(old_, key) == Get(cur, key) {
      ApplyOthers(m, ds, key);
    } else {
      var d :=
        if Get(cur, key).None? then Delta(key, Get(old_, key).value, true) else Delta(key, Get(cur, key).value, false);
      DeltaSent(old_, cur, d);
      ApplyOnly(m, ds, d);
    }
  }

  /** Applying a wake-up's deltas turns the old snapshot into the new one. */
  lemma DeltasAdvance(old_: seq<Pair>, cur: seq<Pair>)
    requires DistinctKeys(old_) && DistinctKeys(cur)
    ensures ApplyAll(ViewOf(old_), Deltas(old_, cur)) == ViewOf(cur)
  {
    ConvergesIff(ViewOf(old_), old_, cur);
    forall key
      ensures At(ViewOf(old_), key) == Get(old_, key)
    {
      ViewIsGet(old_, key);
    }
  }

  /** A view that did not start from the watcher's snapshot is brought up to date
      exactly when it already agrees with the file on every key the watcher saw
      no change in. */
  lemma ConvergesIff(m: View, old_: seq<Pair>, cur: seq<Pair>)
    requires DistinctKeys(old_) && DistinctKeys(cur)
    ensures ApplyAll(m, Deltas(old_, cur)) == ViewOf(cur) <==>
      forall key :: Get(old_, key) == Get(cur, key) ==> At(m, key) == Get(cur, key)
  {
    hide Get, DistinctKeys, ApplyAll, Deltas, ViewOf, At;
    var after := ApplyAll(m, Deltas(old_, cur));
    forall key
      ensures At(ViewOf(cur), key) == Get(cur, key)
      ensures At(after, key) == if Get(old_, key) == Get(cur, key) then At(m, key) else Get(cur, key)
    {
      ViewIsGet(cur, key);
      ReadAfter(m, old_, cur, key);
    }
    if forall key :: Get(old_, key) == Get(cur, key) ==> At(m, key) == Get(cur, key) {
      SameView(after, ViewOf(cur));
    }
  }

  /** Deltas between parsed files always fit the wire format. */
  lemma DeltasFit(old_: seq<Pair>, cur: seq<Pair>)
    requires Normal(old_) && Normal(cur)
    ensures forall d :: d in Deltas(old_, cur) ==> Fits(d)
  {
    hide NormalKey, NormalValue, Get, IsText;
    forall d | d in Deltas(old_, cur)
      ensures Fits(d)
    {
      MarkHas(Changed(old_, cur), false, d);
      MarkHas(Removed(old_, cur), true, d);
      NormalIsText(Pair(d.key, d.value));
    }
  }

  lemma NormalIsText(p: Pair)
    requires NormalPair(p)
    ensures Fits(Delta(p.key, p.value, true)) && Fits(Delta(p.key, p.value, false))
  {}

  // ---------------------------------------------------------------------
  // Sends that fail
  // ---------------------------------------------------------------------

  /** The elements marked true. */
  function Chosen<T>(s: seq<T>, marks: seq<bool>): seq<T>
    requires |marks| == |s|
  {
    if |s| == 0 then []
    else Chosen(s[..|s| - 1], marks[..|s| - 1]) + if marks[|s| - 1] then [s[|s| - 1]] else []
  }

  lemma ChosenSnoc<T>(s: seq<T>, marks: seq<bool>, x: T, mark: bool)
    requires |marks| == |s|
    ensures Chosen(s + [x], marks + [mark]) == if mark then Chosen(s, marks) + [x] else Chosen(s, marks)
  {
    assert (s + [x])[..|s|] == s && (marks + [mark])[..|s|] == marks;
  }

  lemma {:induction false} ChosenHas<T>(s: seq<T>, marks: seq<bool>, x: T)
    requires |marks| == |s|
    ensures x in Chosen(s, marks) <==> exists i :: 0 <= i < |s| && marks[i] && s[i] == x
    decreases |s|
  {
    if |s| > 0 {
      var n := |s| - 1;
      ChosenHas(s[..n], marks[..n], x);
      if x in Chosen(s[..n], marks[..n]) {
        var i :| 0 <= i < n && marks[..n][i] && s[..n][i] == x;
        assert marks[i] && s[i] == x;
      }
      if i :| 0 <= i < |s| && marks[i] && s[i] == x {
        assert i < n ==> marks[..n][i] && s[..n][i] == x;
      }
    }
  }

  lemma {:induction false} AllChosen<T>(s: seq<T>, marks: seq<bool>)
    requires |marks| == |s| && forall i :: 0 <= i < |s| ==> marks[i]
    ensures Chosen(s, marks) == s
    decreases |s|
  {
    if |s| > 0 {
      AllChosen(s[..|s| - 1], marks[..|s| - 1]);
    }
  }

  lemma {:induction false} FilterDistinct(cfg: seq<Pair>, keep: Pair -> bool)
    requires DistinctKeys(cfg)
    ensures DistinctKeys(Filter(cfg, keep))
    decreases |cfg|
  {
    if |cfg| > 0 {
      var n := |cfg| - 1;
      FilterDistinct(cfg[..n], keep);
      var front := Filter(cfg[..n], keep);
      forall i | 0 <= i < |front|
        ensures front[i].key != cfg[n].key
      {
        assert front[i] in cfg[..n];
      }
    }
  }

  /** No key appears in two deltas of one wake-up. */
  lemma DeltaKeysDiffer(old_: seq<Pair>, cur: seq<Pair>, i: nat, j: nat)
    requires DistinctKeys(old_) && DistinctKeys(cur)
    requires i < j < |Deltas(old_, cur)|
    ensures Deltas(old_, cur)[i].key != Deltas(old_, cur)[j].key
  {
    hide Get, Filter;
    var changed, removed := Changed(old_, cur), Removed(old_, cur);
    var ds := Deltas(old_, cur);
    FilterDistinct(cur, p => IsChanged(old_, p));
    FilterDistinct(old_, p => IsGone(cur, p));
    DeltaSent(old_, cur, ds[i]);
    DeltaSent(old_, cur, ds[j]);
    assert ds[i] in ds && ds[j] in ds;
  }

  /** The daemon logs a failed send and goes on. A subscriber that had the old
      snapshot then has the new one exactly if every send of the wake-up
      succeeded: nothing makes up for a lost delta. */
  lemma LostDeltaIff(old_: seq<Pair>, cur: seq<Pair>, sent: seq<bool>)
    requires DistinctKeys(old_) && DistinctKeys(cur) && |sent| == |Deltas(old_, cur)|
    ensures ApplyAll(ViewOf(old_), Chosen(Deltas(old_, cur), sent)) == ViewOf(cur)
      <==> forall i :: 0 <= i < |sent| ==> sent[i]
  {
    hide Get, Deltas, ApplyAll, ViewOf, At, DistinctKeys;
    var ds := Deltas(old_, cur);
    if forall i :: 0 <= i < |sent| ==> sent[i] {
      AllChosen(ds, sent);
      DeltasAdvance(old_, cur);
    } else {
      var i :| 0 <= i < |sent| && !sent[i];
      var got := Chosen(ds, sent);
      var key := ds[i].key;
      forall e | e in got
        ensures e.key != key
      {
        ChosenHas(ds, sent, e);
        var k :| 0 <= k < |ds| && sent[k] && ds[k] == e;
        if k < i {
          DeltaKeysDiffer(old_, cur, k, i);
        } else {
          DeltaKeysDiffer(old_, cur, i, k);
        }
      }
      ApplyOthers(ViewOf(old_), got, key);
      ViewIsGet(old_, key);
      ViewIsGet(cur, key);
      DeltaSent(old_, cur, ds[i]);
      assert ds[i] in ds;
    }
  }
}
