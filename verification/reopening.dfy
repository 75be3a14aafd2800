/** The header through whole runs: whatever crashes, tears or fails, the file is
    one that open accepts. */
module Reopening {
  import opened Crc32
  import opened Numerals
  import opened RecordFormat
  import opened SlotStore
  import opened SlotIo
  import opened Recovery
  import opened CrashSafety
  import opened Compaction
  import opened StoreRuns
  import opened CrashRuns
  import opened CrashFree
  import opened ConfigFile

  // ---------------------------------------------------------------------
  // Which 64 bytes open accepts
  // ---------------------------------------------------------------------

  /** The magic, the version, and the CRC of the first 60 bytes in the last four. */
  lemma AcceptedIff(image: seq<Byte>)
    requires |image| == HEADER_SIZE
    ensures HeaderStatus(DecodeHeader(image)) == Status.OK
      <==> && image[..4] == [0x52, 0x43, 0x46, 0x47] && image[4..6] == [1, 0]
           && image[60..64] == Le32(Crc(image[..60]))
  {
    hide Crc, LeNat, FromLeNat, Le32, FromLe32, HeaderBody, HeaderCrc, EncodeHeader;
    HeaderCrcIsOfBytes(image);
    HeaderEncodeDecode(image);
    HeaderParts(DecodeHeader(image));
    VersionBytes();
    LeNatRoundTrip(1, 2);
    FromLeNatRoundTrip(image[4..6]);
  }

  lemma VersionBytes()
    ensures LeNat(1, 2) == [1, 0] && 1 < Pow256(2)
  {
    Widths();
    assert LeNat(0, 1) == [0];
  }

  /** The 64 bytes of a new file's header. */
  lemma NewHeaderBytes(capacity: Uint32)
    ensures var image := EncodeHeader(NewHeader(capacity));
      && image[..4] == [0x52, 0x43, 0x46, 0x47] && image[4..6] == [1, 0] && image[6..8] == [0, 0]
      && FromLeNat(image[8..12]) == capacity && image[12..60] == seq(48, _ => 0)
      && image[60..64] == Le32(Crc(image[..60]))
  {
    hide Crc, LeNat, FromLeNat, Le32, FromLe32, HeaderBody, EncodeHeader;
    var h := NewHeader(capacity);
    var image := EncodeHeader(h);
    NewAccepted(capacity);
    HeaderParts(h);
    VersionBytes();
    ZeroBytes();
    Widths();
    LeNatRoundTrip(capacity, 4);
    HeaderDecodeEncode(h);
    HeaderCrcIsOfBytes(image);
    assert image[12..60] == image[12..16] + image[16..60];
  }

  lemma ZeroBytes()
    ensures LeNat(0, 2) == [0, 0] && LeNat(0, 4) == [0, 0, 0, 0]
  {
    assert LeNat(0, 1) == [0] && LeNat(0, 3) == [0, 0, 0];
  }

  /** Damage inside four consecutive bytes of an accepted header, or to its CRC
      field alone, is reported as corruption. */
  lemma HeaderDamage(a: seq<Byte>, b: seq<Byte>, i: nat)
    requires |a| == |b| == HEADER_SIZE && HeaderStatus(DecodeHeader(a)) == Status.OK
    requires if a[..60] == b[..60] then a[60..64] != b[60..64] else a[60..64] == b[60..64]
    requires forall k :: 0 <= k < 60 && !(i <= k < i + 4) ==> a[k] == b[k]
    ensures HeaderStatus(DecodeHeader(b)) == Status.CORRUPT
  {
    hide Crc, Le32, FromLe32, HeaderCrc, DecodeHeader;
    HeaderCrcIsOfBytes(a);
    HeaderCrcIsOfBytes(b);
    if a[..60] != b[..60] {
      BurstDetectedAt(a[..60], b[..60], i);
      Le32RoundTrip(Crc(a[..60]));
      Le32RoundTrip(Crc(b[..60]));
    }
  }

  /** So is a changed capacity or count under the old CRC. */
  lemma ChangedField(h: Header, capacity: Uint32, count: Uint32)
    requires HeaderStatus(h) == Status.OK && (capacity == h.capacity) != (count == h.recordCount)
    ensures HeaderStatus(h.(capacity := capacity, recordCount := count)) == Status.CORRUPT
  {
    hide Crc, LeNat, FromLeNat, Le32, FromLe32, EncodeHeader, HeaderBody, DecodeHeader, HeaderStatus;
    var g := h.(capacity := capacity, recordCount := count);
    var a, b := EncodeHeader(h), EncodeHeader(g);
    HeaderDecodeEncode(h);
    HeaderDecodeEncode(g);
    HeaderParts(h);
    HeaderParts(g);
    assert h != g;
    var i := if capacity == h.capacity then 12 else 8;
    forall k | 0 <= k < 60 && !(i <= k < i + 4)
      ensures a[k] == b[k]
    {
      FieldAt(a, b, i, k);
    }
    WholeImage(a, b);
    HeaderDamage(a, b, i);
  }

  lemma WholeImage(a: seq<Byte>, b: seq<Byte>)
    requires |a| == |b| == HEADER_SIZE && a[60..64] == b[60..64] && a != b
    ensures a[..60] != b[..60]
  {
    assert a == a[..60] + a[60..64] && b == b[..60] + b[60..64];
  }

  lemma FieldAt(a: seq<Byte>, b: seq<Byte>, i: nat, k: nat)
    requires |a| == |b| == HEADER_SIZE && (i == 8 || i == 12) && k < 60 && !(i <= k < i + 4)
    requires a[..4] == b[..4] && a[4..6] == b[4..6] && a[6..8] == b[6..8] && a[16..60] == b[16..60]
    requires i == 8 ==> a[12..16] == b[12..16]
    requires i == 12 ==> a[8..12] == b[8..12]
    ensures a[k] == b[k]
  {
    if k < 4 {
      assert a[k] == a[..4][k] && b[k] == b[..4][k];
    } else if k < 6 {
      assert a[k] == a[4..6][k - 4] && b[k] == b[4..6][k - 4];
    } else if k < 8 {
      assert a[k] == a[6..8][k - 6] && b[k] == b[6..8][k - 6];
    } else if k < 12 {
      assert a[k] == a[8..12][k - 8] && b[k] == b[8..12][k - 8];
    } else if k < 16 {
      assert a[k] == a[12..16][k - 12] && b[k] == b[12..16][k - 12];
    } else {
      assert a[k] == a[16..60][k - 16] && b[k] == b[16..60][k - 16];
    }
  }

  // ---------------------------------------------------------------------
  // Through runs
  // ---------------------------------------------------------------------

  /** A header of the same file: another count at most, and no less sealed. */
  predicate SameFile(h: Header, g: Header) {
    g.magic == h.magic && g.version == h.version && g.flags == h.flags && g.capacity == h.capacity &&
    g.reserved == h.reserved && (h.crc == HeaderCrc(h) ==> g.crc == HeaderCrc(g))
  }

  lemma WithCountSameFile(h: Header, count: Uint32)
    ensures SameFile(h, WithCount(h, count))
  {
    hide HeaderCrc;
    HeaderCrcIgnoresCrc(h.(recordCount := count), WithCount(h, count).crc);
  }

  lemma SameFileAccepted(h: Header, g: Header)
    requires SameFile(h, g)
    ensures HeaderStatus(h) == Status.OK ==> HeaderStatus(g) == Status.OK
  {
    hide HeaderCrc;
  }

  predicate KeepsFile(h: Header, plan: seq<Step>) {
    forall j :: 0 <= j < |plan| && plan[j].PutHeader? ==> SameFile(h, plan[j].header)
  }

  lemma {:induction false} ReplayHeader(d: Disk, plan: seq<Step>, ios: seq<Io>)
    requires Follows(d, plan, ios) && KeepsFile(d.header, plan)
    ensures SameFile(d.header, Replay(d, ios).header)
    decreases |ios|
  {
    hide SameFile, Lands;
    if |ios| == 0 {
      SameFileSelf(d.header);
    } else {
      var n := |ios| - 1;
      FollowsPrefix(d, plan, ios, |plan|, n);
      assert plan[..|plan|] == plan;
      ReplayHeader(d, plan, ios[..n]);
      assert Matches(Replay(d, ios[..n]), plan[n], ios[n]);
    }
  }

  lemma SameFileSelf(h: Header)
    ensures SameFile(h, h)
  {}

  lemma {:induction false} SweepHasNoHeader(rule: Rule, slots: seq<Record>, n: nat, j: nat)
    requires n <= |slots| && j < |SweepPlan(rule, slots, n)|
    ensures SweepPlan(rule, slots, n)[j].PutSlot?
    decreases n
  {
    hide Needs, Rewritten;
    if n > 0 && j < |SweepPlan(rule, slots, n - 1)| {
      SweepHasNoHeader(rule, slots, n - 1, j);
    }
  }

  lemma SweepKeepsFile(rule: Rule, h: Header, slots: seq<Record>, count: Uint32)
    ensures KeepsFile(h, SweepPlan(rule, slots, |slots|) + [PutHeader(WithCount(h, count))])
    ensures KeepsFile(h, SweepPlan(rule, slots, |slots|) + [])
  {
    hide SweepPlan, SameFile, WithCount;
    WithCountSameFile(h, count);
    forall j | 0 <= j < |SweepPlan(rule, slots, |slots|)|
      ensures SweepPlan(rule, slots, |slots|)[j].PutSlot?
    {
      SweepHasNoHeader(rule, slots, |slots|, j);
    }
  }

  /** Cut an operation off anywhere, and the header still is the file's. */
  lemma InstantHeader(d: Disk, op: Op, ios: seq<Io>)
    requires Fits32(d.slots) && Instant(d, op, ios)
    ensures SameFile(d.header, Replay(d, ios).header)
  {
    hide SameFile, Follows, Replay, SweepPlan, WithCount, LiveCount, Target, Retired, NewRecord, WithState,
      CountAfterWrite, PackedSlot, InOrder, KeptAnyhow;
    SameFileSelf(d.header);
    match op
    case Write(key, value, now) =>
      ReplayNone(Scan, d);
      if GoodArgs(key, value) {
        WithCountSameFile(d.header, CountAfterWrite(d, key));
        ReplayHeader(d, WritePlan(d, key, value, now), ios);
      }
    case Read(_) => ReplayNone(Scan, d);
    case Delete(key) =>
      var count: Uint32 :|
        Follows(d, SweepPlan(Retire(key), d.slots, |d.slots|) + [PutHeader(WithCount(d.header, count))], ios);
      SweepKeepsFile(Retire(key), d.header, d.slots, count);
      ReplayHeader(d, SweepPlan(Retire(key), d.slots, |d.slots|) + [PutHeader(WithCount(d.header, count))], ios);
    case RepairAll =>
      SweepKeepsFile(Rule.Repair, d.header, d.slots, LiveCount(d.slots));
      ReplayHeader(d, RepairPlan(d), ios);
    case Compact =>
      WithCountSameFile(d.header, LiveCount(d.slots));
      ReplayHeader(d, CompactPlan(d), ios);
    case Reopen =>
      SweepKeepsFile(Scan, d.header, d.slots, LiveCount(d.slots));
      ReplayHeader(d, ScanPlan(d), ios);
  }

  lemma ExecHeader(d: Disk, op: Op)
    requires Fits32(d.slots)
    ensures SameFile(d.header, Exec(d, op).header)
  {
    hide SameFile, Perform, WritePlan, DeletePlan, RepairPlan, ScanPlan, CompactPlan, Applied, Written,
      Packed, LiveCount, HolderCount, WithCount, CountAfterWrite, Target;
    SameFileSelf(d.header);
    forall count: Uint32
      ensures SameFile(d.header, WithCount(d.header, count))
    {
      WithCountSameFile(d.header, count);
    }
    match op
    case Write(k, v, now) =>
      PerformNothing(d);
      if GoodArgs(k, v) {
        PerformWrite(d, k, v, now);
      }
    case Read(_) => PerformNothing(d);
    case Delete(k) => DeletedIs(d, k);
    case RepairAll => RepairedIs(d);
    case Compact => CompactedIs(d);
    case Reopen => ScannedIs(d);
  }

  lemma EventHeader(d: Disk, ev: Event)
    requires Fits32(d.slots) && Possible(d, ev)
    ensures SameFile(d.header, NextDisk(d, ev).header)
  {
    hide Instant, Exec, Replay, Scanned, HeaderCrc;
    match ev
    case Finished(op) => ExecHeader(d, op);
    case Interrupted(op, ios, _, _) =>
      InstantHeader(d, op, ios);
      ExecHeader(Replay(d, ios), Reopen);
      ReopenIsScan(Replay(d, ios));
  }

  lemma ReopenIsScan(d: Disk)
    requires Fits32(d.slots)
    ensures Exec(d, Reopen) == Scanned(d)
  {
    hide ScanPlan, Perform;
  }

  lemma {:induction false} RunHeader(d: Disk, evs: seq<Event>)
    requires Fits32(d.slots) && PossibleRun(d, evs)
    ensures SameFile(d.header, RunEvents(d, evs).header)
    decreases |evs|
  {
    hide Possible, NextDisk, HeaderCrc;
    if |evs| > 0 {
      EventHeader(d, evs[0]);
      RunHeader(NextDisk(d, evs[0]), evs[1..]);
    }
  }

  /** After any run, and at any instant of an operation cut off after it, open's
      header checks pass and find the capacity the file was made with. */
  lemma ReopenAccepts(capacity: Uint32, evs: seq<Event>, op: Op, ios: seq<Io>)
    requires capacity < 0x8000_0000 && PossibleRun(Created(capacity), evs)
    requires Instant(RunEvents(Created(capacity), evs), op, ios)
    ensures var h := Replay(RunEvents(Created(capacity), evs), ios).header;
      HeaderStatus(h) == Status.OK && h.capacity == capacity == |RunEvents(Created(capacity), evs).slots|
  {
    hide HeaderStatus, Instant, Replay, RunEvents, PossibleRun, NewHeader, Empties, HeaderCrc;
    var d := Created(capacity);
    RunHeader(d, evs);
    InstantHeader(RunEvents(d, evs), op, ios);
    NewAccepted(capacity);
    SameFileAccepted(d.header, RunEvents(d, evs).header);
    SameFileAccepted(RunEvents(d, evs).header, Replay(RunEvents(d, evs), ios).header);
  }

  lemma NewAccepted(capacity: Uint32)
    ensures HeaderStatus(NewHeader(capacity)) == Status.OK && NewHeader(capacity).capacity == capacity
  {
    hide HeaderCrc;
    HeaderCrcIgnoresCrc(Header(MAGIC, FORMAT_VERSION, 0, capacity, 0, seq(44, _ => 0), 0), NewHeader(capacity).crc);
  }
}
