/** What the three sweeps do to every key: the scan at open and repair keep all
    of them, delete removes exactly one. */
module Recovery {
  import opened Options
  import opened Crc32
  import opened Numerals
  import opened RecordFormat
  import opened SlotStore
  import opened SlotIo

  /** The slots after a sweep whose writes all landed. */
  function Applied(rule: Rule, slots: seq<Record>): (s: seq<Record>)
    ensures |s| == |slots|
  {
    seq(|slots|, i requires 0 <= i < |slots| =>
      if Needs(rule, slots[i]) then Rewritten(rule, slots[i]) else slots[i])
  }

  function AppliedUpTo(rule: Rule, slots: seq<Record>, n: nat): (s: seq<Record>)
    requires n <= |slots|
    ensures |s| == |slots|
  {
    Applied(rule, slots)[..n] + slots[n..]
  }

  lemma AppliedUpToAt(rule: Rule, slots: seq<Record>, n: nat, j: nat)
    requires n <= |slots| && j < |slots|
    ensures AppliedUpTo(rule, slots, n)[j] ==
      if j < n && Needs(rule, slots[j]) then Rewritten(rule, slots[j]) else slots[j]
  {
    hide Needs, Rewritten;
  }

  lemma AppliedNext(rule: Rule, slots: seq<Record>, n: nat)
    requires n < |slots|
    ensures AppliedUpTo(rule, slots, n + 1) ==
      if Needs(rule, slots[n])
      then AppliedUpTo(rule, slots, n)[n := Rewritten(rule, slots[n])] else AppliedUpTo(rule, slots, n)
  {
    hide Needs, Rewritten, AppliedUpTo;
    var a, b := AppliedUpTo(rule, slots, n), AppliedUpTo(rule, slots, n + 1);
    forall j | 0 <= j < |slots|
      ensures b[j] == if j == n && Needs(rule, slots[n]) then Rewritten(rule, slots[n]) else a[j]
    {
      AppliedUpToAt(rule, slots, n, j);
      AppliedUpToAt(rule, slots, n + 1, j);
    }
  }

  lemma PerformSnoc(d: Disk, plan: seq<Step>, step: Step)
    ensures Perform(d, plan + [step]) == Intend(Perform(d, plan), step)
  {
    assert (plan + [step])[..|plan|] == plan;
  }

  lemma PerformNone(rule: Rule, d: Disk)
    ensures Perform(d, []) == d && AppliedUpTo(rule, d.slots, 0) == d.slots
  {}

  lemma IntendPut(d: Disk, step: Step)
    requires step.PutSlot? && step.i < |d.slots|
    ensures Intend(d, step) == d.(slots := d.slots[step.i := step.rec])
  {}

  lemma {:induction false} PerformSweep(rule: Rule, d: Disk, n: nat)
    requires n <= |d.slots|
    ensures Perform(d, SweepPlan(rule, d.slots, n)) == d.(slots := AppliedUpTo(rule, d.slots, n))
    decreases n
  {
    hide Needs, Rewritten, AppliedUpTo, Perform, Intend;
    if n == 0 {
      PerformNone(rule, d);
    } else {
      PerformSweep(rule, d, n - 1);
      AppliedNext(rule, d.slots, n - 1);
      var front := SweepPlan(rule, d.slots, n - 1);
      if Needs(rule, d.slots[n - 1]) {
        var step := PutSlot(n - 1, Rewritten(rule, d.slots[n - 1]));
        PerformSnoc(d, front, step);
        IntendPut(Perform(d, front), step);
      } else {
        assert SweepPlan(rule, d.slots, n) == front;
      }
    }
  }

  lemma PerformWholeSweep(rule: Rule, d: Disk)
    ensures Perform(d, SweepPlan(rule, d.slots, |d.slots|)) == d.(slots := Applied(rule, d.slots))
  {
    hide Needs, Rewritten, Perform;
    PerformSweep(rule, d, |d.slots|);
    assert AppliedUpTo(rule, d.slots, |d.slots|) == Applied(rule, d.slots);
  }

  lemma AppliedIsSwept(rule: Rule, slots: seq<Record>)
    ensures Swept(rule, slots, Applied(rule, slots))
  {
    hide Lands, Needs, Rewritten;
    forall j | 0 <= j < |slots| && Needs(rule, slots[j])
      ensures Lands(j, slots[j], Rewritten(rule, slots[j]), Applied(rule, slots)[j])
    {
      LandsEnds(j, slots[j], Rewritten(rule, slots[j]));
    }
  }

  lemma DeadStaysDead(rule: Rule, i: nat, r: Record, t: Record)
    requires rule.Scan? || rule.Repair?
    requires Needs(rule, r) && Lands(i, r, Rewritten(rule, r), t)
    ensures !Live(r) && !Live(t)
  {
    hide Torn;
  }

  /** The scan at open and repair change no key's value, even when they are
      themselves cut short and their last write is torn. */
  lemma SweepKeepsLookups(rule: Rule, a: seq<Record>, b: seq<Record>, key: Text)
    requires rule.Scan? || rule.Repair?
    requires Swept(rule, a, b)
    ensures Lookup(b, key) == Lookup(a, key)
  {
    hide Needs, Rewritten, Lookup, Lands, Live;
    forall j | 0 <= j < |a| && (Holds(a[j], key) || Holds(b[j], key))
      ensures a[j] == b[j]
    {
      if a[j] != b[j] {
        DeadStaysDead(rule, j, a[j], b[j]);
      }
    }
    SameHolders(a, b, key);
  }

  lemma {:induction false} SweepKeepsLiveCount(rule: Rule, a: seq<Record>, b: seq<Record>)
    requires rule.Scan? || rule.Repair?
    requires Swept(rule, a, b)
    ensures LiveCount(a) == LiveCount(b)
    decreases |a|
  {
    hide Needs, Rewritten, Lands, Live;
    if |a| > 0 {
      var n := |a| - 1;
      SweepKeepsLiveCount(rule, a[..n], b[..n]);
      if a[n] != b[n] {
        DeadStaysDead(rule, n, a[n], b[n]);
      }
    }
  }

  /** A finished sweep leaves nothing for a second one. */
  lemma {:induction false} SweepIdempotent(rule: Rule, slots: seq<Record>, n: nat)
    requires n <= |slots|
    ensures SweepPlan(rule, Applied(rule, slots), n) == []
    decreases n
  {
    hide Needs, Rewritten;
    if n > 0 {
      SweepIdempotent(rule, slots, n - 1);
      RewrittenIsDone(rule, slots[n - 1]);
    }
  }

  lemma RewrittenIsDone(rule: Rule, r: Record)
    ensures !Needs(rule, Rewritten(rule, r))
  {}

  // ---------------------------------------------------------------------
  // Open and repair on a store with any slot contents
  // ---------------------------------------------------------------------

  function WithCount(h: Header, count: Uint32): Header {
    SealedHeader(h.(recordCount := count))
  }

  /** Slot counts fit the header field: the code indexes slots with an int. */
  predicate Fits32(slots: seq<Record>) {
    |slots| < 0x8000_0000
  }

  function ScanPlan(d: Disk): seq<Step>
    requires Fits32(d.slots)
  {
    SweepPlan(Scan, d.slots, |d.slots|) +
    if LiveCount(d.slots) != d.header.recordCount then [PutHeader(WithCount(d.header, LiveCount(d.slots)))] else []
  }

  function RepairPlan(d: Disk): seq<Step>
    requires Fits32(d.slots)
  {
    SweepPlan(Repair, d.slots, |d.slots|) + [PutHeader(WithCount(d.header, LiveCount(d.slots)))]
  }

  function Scanned(d: Disk): (e: Disk)
    requires Fits32(d.slots)
    ensures |e.slots| == |d.slots|
  {
    Perform(d, ScanPlan(d))
  }

  function Repaired(d: Disk): (e: Disk)
    requires Fits32(d.slots)
    ensures |e.slots| == |d.slots|
  {
    Perform(d, RepairPlan(d))
  }

  lemma ScannedIs(d: Disk)
    requires Fits32(d.slots)
    ensures Scanned(d).slots == Applied(Scan, d.slots)
    ensures Scanned(d).header ==
      if LiveCount(d.slots) != d.header.recordCount then WithCount(d.header, LiveCount(d.slots)) else d.header
  {
    hide Needs, Rewritten, Live, WithCount, Perform, Applied, LiveCount;
    PerformWholeSweep(Scan, d);
    var sweep := SweepPlan(Scan, d.slots, |d.slots|);
    assert sweep + [] == sweep;
    PerformSnoc(d, sweep, PutHeader(WithCount(d.header, LiveCount(d.slots))));
  }

  lemma RepairedIs(d: Disk)
    requires Fits32(d.slots)
    ensures Repaired(d) == Disk(WithCount(d.header, LiveCount(d.slots)), Applied(Repair, d.slots))
  {
    hide Needs, Rewritten, Live, WithCount, Perform, Applied, LiveCount;
    PerformWholeSweep(Repair, d);
    PerformSnoc(d, SweepPlan(Repair, d.slots, |d.slots|), PutHeader(WithCount(d.header, LiveCount(d.slots))));
  }

  /** Opening a store whose slots hold anything at all: every key keeps its
      value, the header then counts the CRC-good VALID slots, every VALID or
      DELETED slot passes its CRC, and opening again writes nothing. */
  lemma OpenRecovers(d: Disk, key: Text)
    requires Fits32(d.slots)
    ensures Lookup(Scanned(d).slots, key) == Lookup(d.slots, key)
    ensures Scanned(d).header.recordCount == LiveCount(Scanned(d).slots)
    ensures forall r :: r in Scanned(d).slots && (r.state == SLOT_VALID || r.state == SLOT_DELETED) ==> CrcGood(r)
    ensures ScanPlan(Scanned(d)) == []
  {
    hide Needs, Rewritten, Live, Lookup, Scanned, Swept, CrcGood;
    ScannedIs(d);
    AppliedIsSwept(Scan, d.slots);
    SweepKeepsLookups(Scan, d.slots, Applied(Scan, d.slots), key);
    SweepKeepsLiveCount(Scan, d.slots, Applied(Scan, d.slots));
    SweepIdempotent(Scan, d.slots, |d.slots|);
    forall r | r in Applied(Scan, d.slots) && (r.state == SLOT_VALID || r.state == SLOT_DELETED)
      ensures CrcGood(r)
    {
      var i :| 0 <= i < |d.slots| && Applied(Scan, d.slots)[i] == r;
      ScanResult(d.slots[i]);
    }
  }

  lemma ScanResult(r: Record)
    ensures var s := if Needs(Scan, r) then Rewritten(Scan, r) else r;
      s.state == SLOT_VALID || s.state == SLOT_DELETED ==> CrcGood(s)
  {}

  /** Repair on any slot contents: every key keeps its value, the header counts
      the live records, no CORRUPT slot and no CRC-bad VALID slot is left, and
      repairing again changes nothing. */
  lemma RepairRecovers(d: Disk, key: Text)
    requires Fits32(d.slots)
    ensures Lookup(Repaired(d).slots, key) == Lookup(d.slots, key)
    ensures Repaired(d).header.recordCount == LiveCount(Repaired(d).slots)
    ensures forall r :: r in Repaired(d).slots ==> r.state != SLOT_CORRUPT && (r.state == SLOT_VALID ==> CrcGood(r))
    ensures Repaired(Repaired(d)) == Repaired(d)
  {
    hide Needs, Rewritten, Live, Lookup, Repaired, Swept, CrcGood;
    RepairedIs(d);
    var a, b := d.slots, Applied(Repair, d.slots);
    AppliedIsSwept(Repair, a);
    SweepKeepsLookups(Repair, a, b, key);
    SweepKeepsLiveCount(Repair, a, b);
    forall i | 0 <= i < |a|
      ensures !Needs(Repair, b[i])
      ensures b[i].state != SLOT_CORRUPT && (b[i].state == SLOT_VALID ==> CrcGood(b[i]))
    {
      RewrittenIsDone(Repair, a[i]);
      RepairResult(a[i]);
    }
    RepairedIs(Repaired(d));
    assert Applied(Repair, b) == b;
    WithCountTwice(d.header, LiveCount(a));
  }

  /** Repair frees exactly the CORRUPT slots and the VALID ones with a bad CRC. */
  lemma RepairFrees(d: Disk, i: nat)
    requires Fits32(d.slots) && i < |d.slots|
    ensures var a, b := d.slots[i], Repaired(d).slots[i];
      if a.state == SLOT_CORRUPT || (a.state == SLOT_VALID && !CrcGood(a))
      then b.state == SLOT_EMPTY && CrcGood(b)
      else b == a
  {
    hide CrcGood, Repaired, Needs, Rewritten, EmptyRecord;
    RepairedIs(d);
    NeedsRepair(d.slots[i]);
    EmptyIsGood();
  }

  lemma NeedsRepair(r: Record)
    ensures Needs(Repair, r) <==> r.state == SLOT_CORRUPT || (r.state == SLOT_VALID && !CrcGood(r))
    ensures Rewritten(Repair, r) == EmptyRecord()
  {}

  lemma EmptyIsGood()
    ensures EmptyRecord().state == SLOT_EMPTY && CrcGood(EmptyRecord())
  {
    hide RecordCrc;
    SealedIsGood(Record(SLOT_EMPTY, [0, 0, 0], 0, seq(KEY_MAX, _ => 0), seq(VALUE_MAX, _ => 0), 0));
  }

  /** Open marks exactly the VALID and DELETED slots with a bad CRC, and keeps what
      they hold. */
  lemma OpenMarks(d: Disk, i: nat)
    requires Fits32(d.slots) && i < |d.slots|
    ensures var a, b := d.slots[i], Scanned(d).slots[i];
      if (a.state == SLOT_VALID || a.state == SLOT_DELETED) && !CrcGood(a)
      then b == a.(state := SLOT_CORRUPT, crc := b.crc) && CrcGood(b)
      else b == a
  {
    hide RecordCrc, Scanned;
    ScannedIs(d);
    SealedIsGood(d.slots[i].(state := SLOT_CORRUPT));
  }

  lemma RepairResult(r: Record)
    ensures var s := if Needs(Repair, r) then Rewritten(Repair, r) else r;
      s.state != SLOT_CORRUPT && (s.state == SLOT_VALID ==> CrcGood(s))
  {}

  lemma WithCountTwice(h: Header, count: Uint32)
    ensures WithCount(WithCount(h, count), count) == WithCount(h, count)
  {
    hide HeaderCrc;
    HeaderCrcIgnoresCrc(h.(recordCount := count), SealedHeader(h.(recordCount := count)).crc);
  }

  lemma HeaderCrcIgnoresCrc(h: Header, crc: bv32)
    ensures HeaderCrc(h.(crc := crc)) == HeaderCrc(h)
  {
    hide Crc, LeNat;
  }

  // ---------------------------------------------------------------------
  // Delete
  // ---------------------------------------------------------------------

  lemma RetiredIsDead(i: nat, r: Record, t: Record)
    requires Lands(i, r, WithState(r, SLOT_DELETED), t)
    ensures t == r || !Live(t)
  {
    hide Torn;
  }

  /** Delete, whole or cut short, touches no other key. */
  lemma DeleteKeepsOthers(a: seq<Record>, b: seq<Record>, key: Text, other: Text)
    requires Swept(Retire(key), a, b) && other != key
    ensures Lookup(b, other) == Lookup(a, other)
  {
    hide Lookup, Lands, CrcGood, Live;
    forall j | 0 <= j < |a| && (Holds(a[j], other) || Holds(b[j], other))
      ensures a[j] == b[j]
    {
      if a[j] != b[j] {
        RetiredIsDead(j, a[j], b[j]);
      }
    }
    SameHolders(a, b, other);
  }

  /** A delete whose state writes all land removes every copy of its key, so no
      older copy can resurface. */
  lemma DeleteRemoves(slots: seq<Record>, key: Text)
    ensures forall r :: r in Applied(Retire(key), slots) ==> !Holds(r, key)
    ensures Lookup(Applied(Retire(key), slots), key) == None
  {
    hide CrcGood, KeyOf;
    NoHolder(Applied(Retire(key), slots), key);
  }

  /** It marks exactly the live copies of its key DELETED and keeps what they hold. */
  lemma DeleteMarks(slots: seq<Record>, key: Text, i: nat)
    requires i < |slots|
    ensures var a, b := slots[i], Applied(Retire(key), slots)[i];
      if Holds(a, key) then b == a.(state := SLOT_DELETED, crc := b.crc) && CrcGood(b) else b == a
  {
    hide RecordCrc, KeyOf;
    SealedIsGood(slots[i].(state := SLOT_DELETED));
  }

  /** The slots when a delete stops after passing the first `n`. */
  function DeletedUpTo(slots: seq<Record>, key: Text, n: nat): (s: seq<Record>)
    requires n <= |slots|
    ensures |s| == |slots|
  {
    AppliedUpTo(Retire(key), slots, n)
  }

  /** Slot `j` holds the newest copy of `key` from `j` on. */
  predicate LatestFrom(slots: seq<Record>, key: Text, j: nat) {
    j < |slots| && Holds(slots[j], key) &&
    forall k :: j < k < |slots| && Holds(slots[k], key) ==> Older(slots, k, j)
  }

  /** No copy behind the one a read settles on could be read in its place with
      another value. */
  predicate LaterCopiesAgree(slots: seq<Record>, key: Text) {
    var m := Newest(slots, key);
    m != -1 ==> forall j :: m < j < |slots| && LatestFrom(slots, key, j) ==> ValueOf(slots[j]) == ValueOf(slots[m])
  }

  lemma HoldersFrom(slots: seq<Record>, key: Text, n: nat, j: nat)
    requires n <= |slots| && j < |slots|
    ensures Holds(DeletedUpTo(slots, key, n)[j], key) <==> n <= j && Holds(slots[j], key)
    ensures n <= j ==> DeletedUpTo(slots, key, n)[j] == slots[j]
  {
    hide CrcGood, KeyOf;
    AppliedUpToAt(Retire(key), slots, n, j);
  }

  /** What is read after a delete stops at `n`. */
  lemma NewestFrom(slots: seq<Record>, key: Text, n: nat)
    requires n <= |slots|
    ensures var r := Newest(DeletedUpTo(slots, key, n), key);
      r != -1 ==>
        && n <= r < |slots| && LatestFrom(slots, key, r)
        && Lookup(DeletedUpTo(slots, key, n), key) == Some(ValueOf(slots[r]))
  {
    hide DeletedUpTo, Live, KeyOf, ValueOf, Newest, Time;
    var b := DeletedUpTo(slots, key, n);
    NewestIsMaximal(b, key);
    var r := Newest(b, key);
    if r != -1 {
      HoldersFrom(slots, key, n, r);
      forall k | r < k < |slots| && Holds(slots[k], key)
        ensures Older(slots, k, r)
      {
        HoldersFrom(slots, key, n, k);
        assert Older(b, k, r);
      }
    }
  }

  lemma ReadAtCut(slots: seq<Record>, key: Text, n: nat, j: nat)
    requires n <= j && LatestFrom(slots, key, j)
    requires forall k :: n <= k < j && Holds(slots[k], key) ==> Older(slots, k, j)
    ensures Lookup(DeletedUpTo(slots, key, n), key) == Some(ValueOf(slots[j]))
  {
    hide DeletedUpTo, Live, KeyOf, ValueOf, Newest, Time;
    var b := DeletedUpTo(slots, key, n);
    HoldersFrom(slots, key, n, j);
    forall k | 0 <= k < |b| && k != j && Holds(b[k], key)
      ensures Older(b, k, j)
    {
      HoldersFrom(slots, key, n, k);
      assert Older(slots, k, j);
    }
    NewestUnique(b, key, j);
  }

  /** A delete cut off between two slots leaves its key either as it was or gone,
      wherever the cut is, exactly when no later copy disagrees with the one a
      read settled on. */
  lemma DeleteIsAtomicIff(slots: seq<Record>, key: Text)
    ensures (forall n :: 0 <= n <= |slots| ==>
        || Lookup(DeletedUpTo(slots, key, n), key) == Lookup(slots, key)
        || Lookup(DeletedUpTo(slots, key, n), key) == None)
      <==> LaterCopiesAgree(slots, key)
  {
    hide DeletedUpTo, Holds, ValueOf, Newest, Time;
    NewestIsMaximal(slots, key);
    var m := Newest(slots, key);
    if LaterCopiesAgree(slots, key) {
      forall n | 0 <= n <= |slots|
        ensures Lookup(DeletedUpTo(slots, key, n), key) == Lookup(slots, key)
          || Lookup(DeletedUpTo(slots, key, n), key) == None
      {
        NewestFrom(slots, key, n);
        if 0 <= m && n <= m {
          ReadAtCut(slots, key, n, m);
        }
      }
    } else {
      var j: nat :| m < j < |slots| && LatestFrom(slots, key, j) && ValueOf(slots[j]) != ValueOf(slots[m]);
      ReadAtCut(slots, key, j, j);
    }
  }

  /** With a newer copy before an older one, a delete cut off between the two
      brings the older value back. */
  lemma DeleteCutExposes(key: Text, first: Text, second: Text)
    requires GoodArgs(key, first) && GoodArgs(key, second) && first != second
    ensures var slots := [NewRecord(key, second, 9), NewRecord(key, first, 5)];
      && Lookup(slots, key) == Some(second)
      && Lookup(DeletedUpTo(slots, key, 1), key) == Some(first)
  {
    hide CrcGood, KeyOf, ValueOf, NewRecord, DeletedUpTo;
    var a, b := NewRecord(key, second, 9), NewRecord(key, first, 5);
    NewRecordIs(key, second, 9);
    NewRecordIs(key, first, 5);
    var slots := [a, b];
    NewestUnique(slots, key, 0);
    ReadAtCut(slots, key, 1, 1);
  }
}
