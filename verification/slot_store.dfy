/** The slot array as a key/value map: which record a read chooses, and what
    each slot turns into under the store's operations. */
module SlotStore {
  import opened Options
  import opened Crc32
  import opened RecordFormat

  predicate Live(r: Record) {
    r.state == SLOT_VALID && CrcGood(r)
  }

  function KeyOf(r: Record): Text { TextOf(r.key) }

  /** The 32-bit unsigned timestamp as a number. */
  function Time(r: Record): nat { r.timestamp as int }

  function ValueOf(r: Record): Text { TextOf(r.value) }

  predicate Holds(r: Record, key: Text) {
    Live(r) && KeyOf(r) == key
  }

  // ---------------------------------------------------------------------
  // The read choice
  // ---------------------------------------------------------------------

  /** The slot a read of `key` settles on, or -1: the last one in scan order
      among those with the greatest timestamp. */
  function Newest(slots: seq<Record>, key: Text): (best: int)
    ensures -1 <= best < |slots|
    ensures best != -1 ==> Holds(slots[best], key)
  {
    if |slots| == 0 then -1
    else
      var n := |slots| - 1;
      var best := Newest(slots[..n], key);
      if Holds(slots[n], key) && (best == -1 || Time(slots[n]) >= Time(slots[best])) then n else best
  }

  /** Slot `j` is older than slot `i`: less in (timestamp, slot number). */
  predicate Older(slots: seq<Record>, j: nat, i: nat)
    requires j < |slots| && i < |slots|
  {
    Time(slots[j]) < Time(slots[i]) || (Time(slots[j]) == Time(slots[i]) && j < i)
  }

  predicate IsNewest(slots: seq<Record>, key: Text, i: int) {
    0 <= i < |slots| && Holds(slots[i], key) &&
    forall j :: 0 <= j < |slots| && j != i && Holds(slots[j], key) ==> Older(slots, j, i)
  }

  function Lookup(slots: seq<Record>, key: Text): Option<Text> {
    var i := Newest(slots, key);
    if i == -1 then None else Some(ValueOf(slots[i]))
  }

  /** A read returns the record maximal in (timestamp, slot number), and fails
      exactly when no live record holds the key. */
  lemma {:induction false} NewestIsMaximal(slots: seq<Record>, key: Text)
    ensures var i := Newest(slots, key);
      if i == -1 then forall j :: 0 <= j < |slots| ==> !Holds(slots[j], key) else IsNewest(slots, key, i)
  {
    hide Live, Time;
    if |slots| > 0 {
      var n := |slots| - 1;
      var front := slots[..n];
      NewestIsMaximal(front, key);
      assert forall j :: 0 <= j < n ==> front[j] == slots[j];
      var best := Newest(front, key);
      if best != -1 {
        assert forall j :: 0 <= j < n && j != best && Holds(slots[j], key) ==> Older(front, j, best);
      }
    }
  }

  lemma NewestUnique(slots: seq<Record>, key: Text, i: int)
    requires IsNewest(slots, key, i)
    ensures Newest(slots, key) == i
  {
    hide Live, Time, Newest;
    NewestIsMaximal(slots, key);
    var m := Newest(slots, key);
    assert m != i ==> Older(slots, m, i);
  }

  lemma NoHolder(slots: seq<Record>, key: Text)
    requires forall j :: 0 <= j < |slots| ==> !Holds(slots[j], key)
    ensures Newest(slots, key) == -1
  {}

  lemma LookupNothing(slots: seq<Record>, key: Text)
    requires forall j :: 0 <= j < |slots| ==> !Holds(slots[j], key)
    ensures Lookup(slots, key) == None
  {
    hide Holds;
    NoHolder(slots, key);
  }

  /** Slots that do not hold the key on either side do not matter to a read. */
  lemma SameHolders(a: seq<Record>, b: seq<Record>, key: Text)
    requires |a| == |b|
    requires forall j :: 0 <= j < |a| && (Holds(a[j], key) || Holds(b[j], key)) ==> a[j] == b[j]
    ensures Newest(a, key) == Newest(b, key)
    ensures Lookup(a, key) == Lookup(b, key)
  {
    hide Live, Time, Newest, KeyOf, ValueOf;
    NewestIsMaximal(a, key);
    NewestIsMaximal(b, key);
    var i := Newest(a, key);
    if i != -1 {
      assert Holds(b[i], key);
      forall j | 0 <= j < |b| && j != i && Holds(b[j], key)
        ensures Older(b, j, i)
      {
        assert Older(a, j, i);
      }
      NewestUnique(b, key, i);
    }
  }

  // ---------------------------------------------------------------------
  // Scans made by the operations
  // ---------------------------------------------------------------------

  function FirstEmpty(slots: seq<Record>): (i: int)
    ensures -1 <= i < |slots|
    ensures i != -1 ==> slots[i].state == SLOT_EMPTY && forall j :: 0 <= j < i ==> slots[j].state != SLOT_EMPTY
    ensures i == -1 ==> forall j :: 0 <= j < |slots| ==> slots[j].state != SLOT_EMPTY
  {
    if |slots| == 0 then -1
    else
      var n := |slots| - 1;
      var i := FirstEmpty(slots[..n]);
      if i == -1 && slots[n].state == SLOT_EMPTY then n else i
  }

  function LastHolder(slots: seq<Record>, key: Text): (i: int)
    ensures -1 <= i < |slots|
    ensures i != -1 ==> Holds(slots[i], key) && forall j :: i < j < |slots| ==> !Holds(slots[j], key)
    ensures i == -1 ==> forall j :: 0 <= j < |slots| ==> !Holds(slots[j], key)
  {
    if |slots| == 0 then -1
    else
      var n := |slots| - 1;
      if Holds(slots[n], key) then n else LastHolder(slots[..n], key)
  }

  /** How many records a scan counts: state VALID and a good CRC. */
  function LiveCount(slots: seq<Record>): (c: nat)
    ensures c <= |slots|
  {
    if |slots| == 0 then 0
    else
      var n := |slots| - 1;
      LiveCount(slots[..n]) + if Live(slots[n]) then 1 else 0
  }

  function StateCount(slots: seq<Record>, state: Byte): (c: nat)
    ensures c <= |slots|
  {
    if |slots| == 0 then 0
    else
      var n := |slots| - 1;
      StateCount(slots[..n], state) + if slots[n].state == state then 1 else 0
  }

  /** At most one live record per key. */
  predicate UniqueKeys(slots: seq<Record>) {
    forall i, j :: 0 <= i < j < |slots| && Live(slots[i]) && Live(slots[j]) ==> KeyOf(slots[i]) != KeyOf(slots[j])
  }

  // ---------------------------------------------------------------------
  // New records
  // ---------------------------------------------------------------------

  predicate GoodArgs(key: Text, value: Text) {
    |key| < KEY_MAX && |value| < VALUE_MAX
  }

  lemma NewRecordIs(key: Text, value: Text, now: bv32)
    requires GoodArgs(key, value)
    ensures var r := NewRecord(key, value, now);
      Live(r) && KeyOf(r) == key && ValueOf(r) == value && Time(r) == now as int
  {
    hide CrcGood, RecordCrc, TextOf, Padded;
    TextOfPadded(key, KEY_MAX);
    TextOfPadded(value, VALUE_MAX);
    SealedIsGood(Record(SLOT_VALID, [0, 0, 0], now, Padded(key, KEY_MAX), Padded(value, VALUE_MAX), 0));
  }
}
