/** The 300-byte record slot and the 64-byte file header, and what a disk that
    writes 512-byte sectors atomically can leave of an interrupted slot write. */
module RecordFormat {
  import opened Crc32
  import opened CStrings
  import opened Numerals

  const KEY_MAX := 32
  const VALUE_MAX := 256
  const RECORD_SIZE := 300
  const HEADER_SIZE := 64
  const SECTOR_SIZE := 512

  const SLOT_EMPTY: Byte := 0x00
  const SLOT_VALID: Byte := 0x01
  const SLOT_DELETED: Byte := 0x02
  const SLOT_CORRUPT: Byte := 0xFF

  // ---------------------------------------------------------------------
  // C strings in fixed fields
  // ---------------------------------------------------------------------

  /** A C string: no NUL inside. */
  type Text = s: seq<Byte> | 0 !in s

  /** The text at the start of a field, up to its first NUL. */
  function TextOf(field: seq<Byte>): Text {
    Before(field, 0)
  }

  /** `strncpy` into a zeroed field. */
  function Padded(s: Text, size: nat): (field: seq<Byte>)
    requires |s| <= size
    ensures |field| == size
  {
    s + seq(size - |s|, _ => 0)
  }

  lemma TextOfPadded(s: Text, size: nat)
    requires |s| <= size
    ensures TextOf(Padded(s, size)) == s
  {
    hide Before;
    var rest := seq(if size > |s| then size - |s| - 1 else 0, _ => 0 as Byte);
    BeforeStop(s, 0, rest);
    assert Padded(s, size) == if size > |s| then s + [0] + rest else s;
  }

  // ---------------------------------------------------------------------
  // Records
  // ---------------------------------------------------------------------

  datatype RawRecord = Record(
    state: Byte, reserved: seq<Byte>, timestamp: bv32, key: seq<Byte>, value: seq<Byte>, crc: bv32)

  type Record = r: RawRecord |
    |r.reserved| == 3 && |r.key| == KEY_MAX && |r.value| == VALUE_MAX
    witness Record(0, [0, 0, 0], 0, seq(KEY_MAX, _ => 0), seq(VALUE_MAX, _ => 0), 0)

  function Le32(x: bv32): (s: seq<Byte>)
    ensures |s| == 4
  {
    [(x & 0xFF) as Byte, ((x >> 8) & 0xFF) as Byte, ((x >> 16) & 0xFF) as Byte, ((x >> 24) & 0xFF) as Byte]
  }

  function FromLe32(s: seq<Byte>): bv32
    requires |s| == 4
  {
    ((s[3] as bv32) << 24) | ((s[2] as bv32) << 16) | ((s[1] as bv32) << 8) | (s[0] as bv32)
  }

  lemma Le32RoundTrip(x: bv32)
    ensures FromLe32(Le32(x)) == x
  {}

  lemma FromLe32RoundTrip(s: seq<Byte>)
    requires |s| == 4
    ensures Le32(FromLe32(s)) == s
  {}

  /** Bytes 0..295, the ones the record CRC covers. */
  function Body(r: Record): (s: seq<Byte>)
    ensures |s| == 296
  {
    [r.state] + r.reserved + Le32(r.timestamp) + r.key + r.value
  }

  function Encode(r: Record): (s: seq<Byte>)
    ensures |s| == RECORD_SIZE
  {
    Body(r) + Le32(r.crc)
  }

  function Decode(image: seq<Byte>): Record
    requires |image| == RECORD_SIZE
  {
    Record(image[0], image[1..4], FromLe32(image[4..8]), image[8..40], image[40..296], FromLe32(image[296..300]))
  }

  lemma BodyParts(r: Record)
    ensures var body := Body(r);
      && body[0] == r.state && body[1..4] == r.reserved && body[4..8] == Le32(r.timestamp)
      && body[8..40] == r.key && body[40..296] == r.value
  {
    hide Le32;
  }

  lemma DecodeEncode(r: Record)
    ensures Decode(Encode(r)) == r
  {
    hide Crc, Le32, FromLe32;
    var image := Encode(r);
    assert image[..296] == Body(r) && image[296..] == Le32(r.crc);
    BodyParts(r);
    assert image[0] == image[..296][0] && image[296..300] == image[296..];
    assert image[1..4] == image[..296][1..4] && image[4..8] == image[..296][4..8];
    assert image[8..40] == image[..296][8..40] && image[40..296] == image[..296][40..296];
    Le32RoundTrip(r.timestamp);
    Le32RoundTrip(r.crc);
  }

  lemma EncodeDecode(image: seq<Byte>)
    requires |image| == RECORD_SIZE
    ensures Encode(Decode(image)) == image
  {
    FromLe32RoundTrip(image[4..8]);
    FromLe32RoundTrip(image[296..300]);
  }

  function RecordCrc(r: Record): bv32 {
    Crc(Body(r))
  }

  predicate CrcGood(r: Record) {
    r.crc == RecordCrc(r)
  }

  /** The record with its CRC field recomputed. */
  function Sealed(r: Record): Record {
    r.(crc := RecordCrc(r))
  }

  /** What `set_slot_state` writes. */
  function WithState(r: Record, state: Byte): Record {
    Sealed(r.(state := state))
  }

  /** A slot passes its check exactly when its last four bytes are the CRC of the
      others. */
  lemma RecordCrcIsOfBytes(image: seq<Byte>)
    requires |image| == RECORD_SIZE
    ensures CrcGood(Decode(image)) <==> image[296..300] == Le32(Crc(image[..296]))
  {
    hide Crc, Body, Le32, FromLe32;
    var r := Decode(image);
    EncodeDecode(image);
    assert Encode(r)[..296] == Body(r) && Encode(r)[296..300] == Le32(r.crc);
    Le32RoundTrip(r.crc);
    Le32RoundTrip(Crc(image[..296]));
  }

  /** Damage inside four consecutive bytes of a good slot is noticed. */
  lemma RecordDamage(a: seq<Byte>, b: seq<Byte>, i: nat)
    requires |a| == |b| == RECORD_SIZE && a[296..300] == b[296..300] && a[..296] != b[..296]
    requires forall k :: 0 <= k < 296 && !(i <= k < i + 4) ==> a[k] == b[k]
    requires CrcGood(Decode(a))
    ensures !CrcGood(Decode(b))
  {
    hide Crc, Decode, CrcGood, Le32;
    RecordCrcIsOfBytes(a);
    RecordCrcIsOfBytes(b);
    BurstDetectedAt(a[..296], b[..296], i);
    Le32RoundTrip(Crc(a[..296]));
    Le32RoundTrip(Crc(b[..296]));
  }

  lemma SealedIsGood(r: Record)
    ensures CrcGood(Sealed(r))
  {}

  function EmptyRecord(): Record {
    Sealed(Record(SLOT_EMPTY, [0, 0, 0], 0, seq(KEY_MAX, _ => 0), seq(VALUE_MAX, _ => 0), 0))
  }

  function NewRecord(key: Text, value: Text, now: bv32): Record
    requires |key| < KEY_MAX && |value| < VALUE_MAX
  {
    Sealed(Record(SLOT_VALID, [0, 0, 0], now, Padded(key, KEY_MAX), Padded(value, VALUE_MAX), 0))
  }

  // ---------------------------------------------------------------------
  // The file header
  // ---------------------------------------------------------------------

  type Uint16 = n: int | 0 <= n < 0x1_0000
  type Uint32 = n: int | 0 <= n < 0x1_0000_0000

  datatype RawHeader = Header(
    magic: seq<Byte>, version: Uint16, flags: Uint16, capacity: Uint32, recordCount: Uint32,
    reserved: seq<Byte>, crc: bv32)

  type Header = h: RawHeader | |h.magic| == 4 && |h.reserved| == 44
    witness Header([0, 0, 0, 0], 0, 0, 0, 0, seq(44, _ => 0), 0)

  /** ASCII "RCFG". */
  const MAGIC: seq<Byte> := [0x52, 0x43, 0x46, 0x47]

  const FORMAT_VERSION := 1

  /** Bytes 0..59, the ones the header CRC covers. */
  function HeaderBody(h: Header): (s: seq<Byte>)
    ensures |s| == 60
  {
    h.magic + LeNat(h.version, 2) + LeNat(h.flags, 2) + LeNat(h.capacity, 4) + LeNat(h.recordCount, 4) + h.reserved
  }

  function EncodeHeader(h: Header): (s: seq<Byte>)
    ensures |s| == HEADER_SIZE
  {
    HeaderBody(h) + Le32(h.crc)
  }

  function Narrow16(s: seq<Byte>): Uint16
    requires |s| == 2
  {
    FromLeNatRoundTrip(s);
    Widths();
    FromLeNat(s)
  }

  function Narrow32(s: seq<Byte>): Uint32
    requires |s| == 4
  {
    FromLeNatRoundTrip(s);
    Widths();
    FromLeNat(s)
  }

  function DecodeHeader(image: seq<Byte>): Header
    requires |image| == HEADER_SIZE
  {
    Header(image[..4], Narrow16(image[4..6]), Narrow16(image[6..8]), Narrow32(image[8..12]), Narrow32(image[12..16]),
           image[16..60], FromLe32(image[60..64]))
  }

  lemma HeaderParts(h: Header)
    ensures var image := EncodeHeader(h);
      && image[..60] == HeaderBody(h)
      && image[..4] == h.magic && image[4..6] == LeNat(h.version, 2) && image[6..8] == LeNat(h.flags, 2)
      && image[8..12] == LeNat(h.capacity, 4) && image[12..16] == LeNat(h.recordCount, 4)
      && image[16..60] == h.reserved && image[60..64] == Le32(h.crc)
  {
    hide LeNat, Le32;
  }

  lemma HeaderDecodeEncode(h: Header)
    ensures DecodeHeader(EncodeHeader(h)) == h
  {
    hide LeNat, FromLeNat, Le32, FromLe32, EncodeHeader, Pow256;
    HeaderParts(h);
    Widths();
    LeNatRoundTrip(h.version, 2);
    LeNatRoundTrip(h.flags, 2);
    LeNatRoundTrip(h.capacity, 4);
    LeNatRoundTrip(h.recordCount, 4);
    Le32RoundTrip(h.crc);
  }

  lemma HeaderEncodeDecode(image: seq<Byte>)
    requires |image| == HEADER_SIZE
    ensures EncodeHeader(DecodeHeader(image)) == image
  {
    hide LeNat, FromLeNat, Le32, FromLe32, Pow256;
    FromLeNatRoundTrip(image[4..6]);
    FromLeNatRoundTrip(image[6..8]);
    FromLeNatRoundTrip(image[8..12]);
    FromLeNatRoundTrip(image[12..16]);
    FromLe32RoundTrip(image[60..64]);
  }

  function HeaderCrc(h: Header): bv32 {
    Crc(HeaderBody(h))
  }

  /** The stored field is the CRC of the first 60 bytes exactly when the header
      passes its check. */
  lemma HeaderCrcIsOfBytes(image: seq<Byte>)
    requires |image| == HEADER_SIZE
    ensures DecodeHeader(image).crc == HeaderCrc(DecodeHeader(image)) <==> image[60..64] == Le32(Crc(image[..60]))
  {
    hide Crc, HeaderBody, Le32, FromLe32;
    var h := DecodeHeader(image);
    HeaderEncodeDecode(image);
    HeaderParts(h);
    Le32RoundTrip(h.crc);
    Le32RoundTrip(Crc(image[..60]));
  }

  function SealedHeader(h: Header): Header {
    h.(crc := HeaderCrc(h))
  }

  function NewHeader(capacity: Uint32): Header {
    SealedHeader(Header(MAGIC, FORMAT_VERSION, 0, capacity, 0, seq(44, _ => 0), 0))
  }

  // ---------------------------------------------------------------------
  // Torn slot writes
  // ---------------------------------------------------------------------

  /** The sector that byte `b` of slot `i` lies in. */
  function Sector(i: nat, b: nat): nat {
    (HEADER_SIZE + i * RECORD_SIZE + b) / SECTOR_SIZE
  }

  /** The bytes of slot `i` when only the sectors in `landed` were rewritten. */
  function Mix(i: nat, landed: set<nat>, old_: seq<Byte>, new_: seq<Byte>): (s: seq<Byte>)
    requires |old_| == |new_| == RECORD_SIZE
    ensures |s| == RECORD_SIZE
  {
    seq(RECORD_SIZE, b requires 0 <= b < RECORD_SIZE => if Sector(i, b) in landed then new_[b] else old_[b])
  }

  function Torn(i: nat, landed: set<nat>, old_: Record, new_: Record): Record {
    Decode(Mix(i, landed, Encode(old_), Encode(new_)))
  }

  lemma TornSame(i: nat, landed: set<nat>, r: Record)
    ensures Torn(i, landed, r, r) == r
  {
    assert Mix(i, landed, Encode(r), Encode(r)) == Encode(r);
    DecodeEncode(r);
  }

  lemma AlignedWord(m: nat, d: nat)
    requires d < 4
    ensures (4 * m + d) / 512 == m / 128
  {
    assert m == 128 * (m / 128) + m % 128;
    assert 4 * m + d == 512 * (m / 128) + (4 * (m % 128) + d);
  }

  /** The CRC field never straddles two sectors. */
  lemma CrcFieldInOneSector(i: nat, b: nat)
    requires 296 <= b < 300
    ensures Sector(i, b) == Sector(i, 296)
  {
    AlignedWord(90 + 75 * i, b - 296);
    AlignedWord(90 + 75 * i, 0);
  }

  lemma SectorMonotone(i: nat, a: nat, b: nat)
    requires a <= b
    ensures Sector(i, a) <= Sector(i, b)
  {}

  /** A slot lies in the sector of its first byte and the sector of its CRC field,
      which may be the same. */
  lemma TwoSectors(i: nat, b: nat)
    requires b < RECORD_SIZE
    ensures Sector(i, b) == Sector(i, 0) || Sector(i, b) == Sector(i, 296)
  {
    CrcFieldInOneSector(i, RECORD_SIZE - 1);
    SectorMonotone(i, 0, b);
    SectorMonotone(i, b, RECORD_SIZE - 1);
    assert Sector(i, RECORD_SIZE - 1) <= Sector(i, 0) + 1;
  }

  /** Only those two sectors decide what a rewrite leaves. */
  lemma TornBySectors(i: nat, a: set<nat>, b: set<nat>, old_: Record, new_: Record)
    requires (Sector(i, 0) in a <==> Sector(i, 0) in b) && (Sector(i, 296) in a <==> Sector(i, 296) in b)
    ensures Torn(i, a, old_, new_) == Torn(i, b, old_, new_)
  {
    hide Encode, Decode, Sector;
    forall k | 0 <= k < RECORD_SIZE
      ensures Sector(i, k) in a <==> Sector(i, k) in b
    {
      TwoSectors(i, k);
    }
    assert Mix(i, a, Encode(old_), Encode(new_)) == Mix(i, b, Encode(old_), Encode(new_));
  }

  lemma TornCrcField(i: nat, landed: set<nat>, old_: Record, new_: Record)
    ensures Torn(i, landed, old_, new_).crc == if Sector(i, 296) in landed then new_.crc else old_.crc
  {
    var src := if Sector(i, 296) in landed then new_ else old_;
    forall b | 296 <= b < 300
      ensures Sector(i, b) == Sector(i, 296)
    {
      CrcFieldInOneSector(i, b);
    }
    assert Mix(i, landed, Encode(old_), Encode(new_))[296..300] == Le32(src.crc);
    Le32RoundTrip(src.crc);
  }

  lemma BodyWithState(r: Record, state: Byte, crc: bv32)
    ensures Body(r.(state := state, crc := crc)) == [state] + Body(r)[1..]
    ensures Body(r)[0] == r.state
  {}

  lemma BodyIgnoresCrc(r: Record, crc: bv32)
    ensures Body(r.(crc := crc)) == Body(r)
  {}

  lemma DecodeFields(r: Record, image: seq<Byte>)
    requires |image| == RECORD_SIZE && image[..296] == Body(r)
    ensures Decode(image) == r.(crc := FromLe32(image[296..300]))
  {
    DecodeEncode(r);
    var e := Encode(r);
    assert e[..296] == Body(r);
    assert image[0] == image[..296][0] == e[..296][0] == e[0];
    assert image[1..4] == image[..296][1..4] == e[..296][1..4] == e[1..4];
    assert image[4..8] == image[..296][4..8] == e[..296][4..8] == e[4..8];
    assert image[8..40] == image[..296][8..40] == e[..296][8..40] == e[8..40];
    assert image[40..296] == image[..296][40..296] == e[..296][40..296] == e[40..296];
  }

  /** A torn `set_slot_state` keeps one of the two bodies whole. */
  lemma TornStateBody(i: nat, landed: set<nat>, old_: Record, state: Byte)
    ensures var t, new_ := Torn(i, landed, old_, WithState(old_, state)), WithState(old_, state);
      t == (if Sector(i, 0) in landed then new_ else old_).(crc := t.crc)
  {
    hide RecordCrc, Body;
    var new_ := WithState(old_, state);
    var src := if Sector(i, 0) in landed then new_ else old_;
    var image := Mix(i, landed, Encode(old_), Encode(new_));
    BodyWithState(old_, state, new_.crc);
    forall b | 0 <= b < 296
      ensures image[b] == Body(src)[b]
    {
      assert Encode(new_)[b] == Body(new_)[b] && Encode(old_)[b] == Body(old_)[b];
    }
    assert image[..296] == Body(src);
    DecodeFields(src, image);
  }

  /** What is left of an interrupted state update, in either order of its
      sectors: the old record, the new record, or one that fails its CRC. No
      assumption about collisions is made, and the old record need not have a
      good CRC itself. */
  lemma TornStateUpdate(i: nat, landed: set<nat>, old_: Record, state: Byte)
    ensures var t, new_ := Torn(i, landed, old_, WithState(old_, state)), WithState(old_, state);
      t == old_ || t == new_ || !CrcGood(t)
  {
    hide Body, Torn;
    var new_ := WithState(old_, state);
    var t := Torn(i, landed, old_, new_);
    TornStateBody(i, landed, old_, state);
    TornCrcField(i, landed, old_, new_);
    BodyIgnoresCrc(old_, t.crc);
    BodyIgnoresCrc(new_, t.crc);
    BodyIgnoresCrc(old_.(state := state), new_.crc);
    BodyWithState(old_, state, new_.crc);
    if old_.state != state {
      BurstDetectedAt(Body(old_), Body(new_), 0);
    }
  }
}
