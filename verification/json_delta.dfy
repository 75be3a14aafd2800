/** The D-Bus adapter's wire format: what `json_escape` writes into a payload
    and what the substring searches of `json_extract` read back out of it. */
module JsonDelta {
  import opened Options
  import opened CStrings
  import opened ConfigLimits

  const MAX_PAYLOAD := (CONFIG_MAX_KEY + CONFIG_MAX_VALUE) * 6 + 128
  const ESC_KEY_SIZE := CONFIG_MAX_KEY * 6 + 1
  const ESC_VALUE_SIZE := CONFIG_MAX_VALUE * 6 + 1

  // ---------------------------------------------------------------------
  // Escaping
  // ---------------------------------------------------------------------

  function HexDigit(n: nat): char
    requires n < 16
  {
    "0123456789abcdef"[n]
  }

  /** `%04x`, for one byte. */
  function Hex4(n: nat): (s: string)
    requires n < 256
    ensures |s| == 4
  {
    ['0', '0', HexDigit(n / 16), HexDigit(n % 16)]
  }

  function EscapeChar(c: char): (e: string)
    ensures 1 <= |e| <= 6
  {
    match c
    case '"' => "\\\""
    case '\\' => "\\\\"
    case '\n' => "\\n"
    case '\r' => "\\r"
    case '\t' => "\\t"
    case _ => if (c as int) < 0x20 then "\\u" + Hex4(c as int) else [c]
  }

  function Escaped(s: string): (e: string)
    ensures |s| <= |e| <= 6 * |s|
  {
    if |s| == 0 then "" else EscapeChar(s[0]) + Escaped(s[1..])
  }

  // ---------------------------------------------------------------------
  // Decoding
  // ---------------------------------------------------------------------

  datatype Decoded = Text(text: string) | Malformed

  function HexValue(c: char): (v: int)
    ensures -1 <= v < 16
  {
    if '0' <= c <= '9' then c as int - '0' as int
    else if 'a' <= c <= 'f' then c as int - 'a' as int + 10
    else if 'A' <= c <= 'F' then c as int - 'A' as int + 10
    else -1
  }

  /** The value of the leading hex digits. */
  function HexDigits(s: string, acc: nat): nat
    decreases |s|
  {
    if |s| == 0 || HexValue(s[0]) == -1 then acc else HexDigits(s[1..], acc * 16 + HexValue(s[0]))
  }

  /** Digits after an optional `0x`, which counts only before a digit. */
  function Magnitude(s: string): nat {
    if |s| >= 3 && s[0] == '0' && (s[1] == 'x' || s[1] == 'X') && HexValue(s[2]) != -1 then HexDigits(s[2..], 0)
    else HexDigits(s, 0)
  }

  /** `isspace` in the C locale. */
  predicate IsSpaceChar(c: char) {
    c == ' ' || 9 <= c as int <= 13
  }

  /** `strtol` in base 16: blanks and a sign may come before the digits. */
  function StrToL(s: string): int
    decreases |s|
  {
    if |s| == 0 then 0
    else if IsSpaceChar(s[0]) then StrToL(s[1..])
    else if s[0] == '-' then -(Magnitude(s[1..]) as int)
    else if s[0] == '+' then Magnitude(s[1..])
    else Magnitude(s)
  }

  /** The character an escape sequence stands for, and the sequence's length;
      None when it is cut off by the end of the string. `p` starts after the
      backslash. */
  function Unescape(p: string): Option<(char, nat)> {
    if |p| == 0 then None
    else
      match p[0]
      case 'n' => Some(('\n', 1))
      case 'r' => Some(('\r', 1))
      case 't' => Some(('\t', 1))
      case 'u' => if |p| < 5 then None else Some(((StrToL(p[1..5]) % 256) as char, 5))
      case c => Some((c, 1))
  }

  /** Characters up to the closing quote, with escapes replaced. */
  function Decode(p: string): Decoded
    decreases |p|
  {
    if |p| == 0 then Malformed
    else if p[0] == '"' then Text("")
    else if p[0] == '\\' then
      match Unescape(p[1..])
      case None => Malformed
      case Some((c, n)) =>
        if |p| < 1 + n then Malformed
        else match Decode(p[1 + n..])
          case Malformed => Malformed
          case Text(t) => Text([c] + t)
    else
      match Decode(p[1..])
      case Malformed => Malformed
      case Text(t) => Text([p[0]] + t)
  }

  // ---------------------------------------------------------------------
  // Substring search
  // ---------------------------------------------------------------------

  predicate OccursAt(s: string, pat: string, i: nat) {
    i + |pat| <= |s| && s[i..i + |pat|] == pat
  }

  /** `strstr` from position `i`: the first occurrence, or -1. */
  function FindFrom(s: string, pat: string, i: nat): (p: int)
    requires i <= |s|
    ensures p == -1 ==> forall j :: i <= j <= |s| ==> !OccursAt(s, pat, j)
    ensures p != -1 ==> i <= p <= |s| && OccursAt(s, pat, p) && forall j :: i <= j < p ==> !OccursAt(s, pat, j)
    decreases |s| - i
  {
    if OccursAt(s, pat, i) then i
    else if i == |s| then -1
    else FindFrom(s, pat, i + 1)
  }

  function Find(s: string, pat: string): (p: int)
    ensures p == -1 ==> forall j :: 0 <= j <= |s| ==> !OccursAt(s, pat, j)
    ensures p != -1 ==> 0 <= p <= |s| && OccursAt(s, pat, p) && forall j :: 0 <= j < p ==> !OccursAt(s, pat, j)
  {
    FindFrom(s, pat, 0)
  }

  lemma FindIs(s: string, pat: string, p: nat)
    requires OccursAt(s, pat, p) && forall j :: 0 <= j < p ==> !OccursAt(s, pat, j)
    ensures Find(s, pat) == p
  {}

  function Pattern(field: string): string {
    "\"" + field + "\":\""
  }

  /** The text of "<field>" in `json`, if it is there, well formed, and fits a
      buffer of `size` bytes. */
  function Extract(json: string, field: string, size: nat): Option<string> {
    var p := Find(json, Pattern(field));
    if p == -1 then None
    else
      match Decode(json[p + |Pattern(field)|..])
      case Malformed => None
      case Text(t) => if |t| < size then Some(t) else None
  }

  // ---------------------------------------------------------------------
  // The payload
  // ---------------------------------------------------------------------

  datatype Delta = Delta(key: string, value: string, deleted: bool)

  const HEAD := "{\"interface_version\":2,\"key\":\""
  const MIDDLE := "\",\"value\":\""
  const TAIL := "\",\"deleted\":"

  function Flag(deleted: bool): string {
    if deleted then "true" else "false"
  }

  function Payload(d: Delta): string {
    HEAD + Escaped(d.key) + MIDDLE + Escaped(d.value) + TAIL + Flag(d.deleted) + "}"
  }

  /** What the subscriber's loop makes of a payload: the callback gets key and
      value as C strings. */
  function Received(payload: string): Option<Delta> {
    var key := Extract(payload, "key", CONFIG_MAX_KEY);
    var value := Extract(payload, "value", CONFIG_MAX_VALUE);
    if key.None? || value.None? then None
    else Some(Delta(CString(key.value), CString(value.value), Find(payload, "\"deleted\":true") != -1))
  }

  /** Keys and values the config parser can produce. */
  predicate Fits(d: Delta) {
    IsText(d.key) && IsText(d.value) && |d.key| < CONFIG_MAX_KEY && |d.value| < CONFIG_MAX_VALUE
  }

  // ---------------------------------------------------------------------
  // Decoding undoes escaping
  // ---------------------------------------------------------------------

  lemma HexValueOfDigit(n: nat)
    requires n < 16
    ensures HexValue(HexDigit(n)) == n
  {}

  lemma HexRoundTrip(n: nat)
    requires n < 256
    ensures StrToL(Hex4(n)) == n
  {
    HexValueOfDigit(n / 16);
    HexValueOfDigit(n % 16);
    var hi, lo := HexDigit(n / 16), HexDigit(n % 16);
    assert Hex4(n)[1..] == ['0', hi, lo] && ['0', hi, lo][1..] == [hi, lo] && [hi, lo][1..] == [lo] && [lo][1..] == "";
    assert HexDigits(Hex4(n), 0) == HexDigits(['0', hi, lo], 0) == HexDigits([hi, lo], 0);
    assert HexDigits([hi, lo], 0) == HexDigits([lo], n / 16) == HexDigits("", n / 16 * 16 + n % 16);
  }

  lemma UnescapeOne(c: char, rest: string)
    requires EscapeChar(c)[0] == '\\'
    ensures Unescape(EscapeChar(c)[1..] + rest) == Some((c, |EscapeChar(c)| - 1))
  {
    hide StrToL, Hex4;
    var e := EscapeChar(c);
    if (c as int) < 0x20 && c != '\n' && c != '\r' && c != '\t' {
      HexRoundTrip(c as int);
      assert (e[1..] + rest)[1..5] == Hex4(c as int);
    }
  }

  lemma DecodeOne(c: char, rest: string)
    ensures Decode(EscapeChar(c) + rest) ==
      match Decode(rest) case Malformed => Malformed case Text(t) => Text([c] + t)
  {
    var e := EscapeChar(c);
    var s := e + rest;
    if e[0] == '\\' {
      UnescapeOne(c, rest);
      assert s[1..] == e[1..] + rest;
      assert s[|e|..] == rest;
    } else {
      assert e == [c] && s[1..] == rest;
    }
  }

  lemma DecodeEnd(rest: string)
    ensures Decode("\"" + rest) == Text("")
  {}

  /** Reading back an escaped string up to its closing quote. */
  lemma {:induction false} DecodeEscaped(s: string, rest: string)
    ensures Decode(Escaped(s) + "\"" + rest) == Text(s)
    decreases |s|
  {
    hide Decode, EscapeChar;
    var tail := "\"" + rest;
    assert Escaped(s) + "\"" + rest == Escaped(s) + tail;
    if |s| == 0 {
      assert Escaped(s) + tail == tail;
      DecodeEnd(rest);
    } else {
      DecodeEscaped(s[1..], rest);
      assert Escaped(s[1..]) + "\"" + rest == Escaped(s[1..]) + tail;
      assert Escaped(s) + tail == EscapeChar(s[0]) + (Escaped(s[1..]) + tail);
      DecodeOne(s[0], Escaped(s[1..]) + tail);
      assert s == [s[0]] + s[1..];
    }
  }

  // ---------------------------------------------------------------------
  // Where the searches can match
  // ---------------------------------------------------------------------

  /** Every quote in `e` follows a backslash. */
  predicate QuotesEscaped(e: string) {
    forall i :: 0 <= i < |e| && e[i] == '"' ==> i > 0 && e[i - 1] == '\\'
  }

  lemma EscapeCharQuotes(c: char)
    ensures QuotesEscaped(EscapeChar(c))
  {}

  lemma {:induction false} EscapedQuotes(s: string)
    ensures QuotesEscaped(Escaped(s))
    decreases |s|
  {
    hide EscapeChar;
    if |s| > 0 {
      EscapeCharQuotes(s[0]);
      EscapedQuotes(s[1..]);
      var a, b := EscapeChar(s[0]), Escaped(s[1..]);
      forall i | 0 <= i < |a + b| && (a + b)[i] == '"'
        ensures i > 0 && (a + b)[i - 1] == '\\'
      {
        if i >= |a| {
          assert b[i - |a|] == '"';
        }
      }
    }
  }

  /** The payload with its two escaped texts left open. */
  function Frame(k: string, v: string, deleted: bool): string {
    HEAD + k + MIDDLE + v + TAIL + Flag(deleted) + "}"
  }

  /** A quote in the payload is a fixed one, or follows a backslash inside one
      of the two texts. */
  lemma QuotePlaces(k: string, v: string, deleted: bool, i: nat)
    requires QuotesEscaped(k) && QuotesEscaped(v)
    requires i < |Frame(k, v, deleted)| && Frame(k, v, deleted)[i] == '"'
    ensures var s, m := Frame(k, v, deleted), |HEAD| + |k|;
      var t := m + |MIDDLE| + |v|;
      || (i > 0 && s[i - 1] == '\\')
      || (i < |HEAD| && HEAD[i] == '"')
      || (m <= i < m + |MIDDLE| && MIDDLE[i - m] == '"')
      || (t <= i < t + |TAIL| && TAIL[i - t] == '"')
  {
    var s, m := Frame(k, v, deleted), |HEAD| + |k|;
    var t := m + |MIDDLE| + |v|;
    if |HEAD| <= i < m {
      assert k[i - |HEAD|] == '"' && s[i - 1] == k[i - 1 - |HEAD|];
    } else if m + |MIDDLE| <= i < t {
      assert v[i - m - |MIDDLE|] == '"' && s[i - 1] == v[i - 1 - m - |MIDDLE|];
    }
  }

  /** Characters of an occurrence. */
  lemma OccursChar(s: string, pat: string, p: nat, j: nat)
    requires OccursAt(s, pat, p) && j < |pat|
    ensures s[p + j] == pat[j]
  {
    assert s[p..p + |pat|][j] == s[p + j];
  }

  lemma OccursBy(s: string, pat: string, p: nat)
    requires p + |pat| <= |s| && forall j :: 0 <= j < |pat| ==> s[p + j] == pat[j]
    ensures OccursAt(s, pat, p)
  {}

  lemma FrameParts(k: string, v: string, deleted: bool)
    ensures var s, m := Frame(k, v, deleted), |HEAD| + |k|;
      var t := m + |MIDDLE| + |v|;
      && |s| == t + |TAIL| + |Flag(deleted)| + 1
      && (forall j :: 0 <= j < |HEAD| ==> s[j] == HEAD[j])
      && (forall j :: 0 <= j < |k| ==> s[|HEAD| + j] == k[j])
      && (forall j :: 0 <= j < |MIDDLE| ==> s[m + j] == MIDDLE[j])
      && (forall j :: 0 <= j < |TAIL| ==> s[t + j] == TAIL[j])
      && (forall j :: 0 <= j < |Flag(deleted)| ==> s[t + |TAIL| + j] == Flag(deleted)[j])
  {
    hide Flag;
  }

  lemma NoEarlyKey(k: string, v: string, deleted: bool, p: nat)
    requires OccursAt(Frame(k, v, deleted), Pattern("key"), p)
    ensures p >= |HEAD| - 7
  {
    hide Frame, Flag;
    var s, pat := Frame(k, v, deleted), "\"key\":\"";
    assert Pattern("key") == pat;
    OccursChar(s, pat, p, 0);
    OccursChar(s, pat, p, 1);
    if p < |HEAD| - 7 {
      HeadAt(k, v, deleted, p);
      HeadAt(k, v, deleted, p + 1);
    }
  }

  lemma HeadAt(k: string, v: string, deleted: bool, i: nat)
    requires i < |HEAD|
    ensures i < |Frame(k, v, deleted)| && Frame(k, v, deleted)[i] == HEAD[i]
  {
    hide Frame, Flag;
    FrameParts(k, v, deleted);
  }

  /** `"key":"` is found in the fixed head, nowhere earlier. */
  lemma FindKey(k: string, v: string, deleted: bool)
    ensures Find(Frame(k, v, deleted), Pattern("key")) == |HEAD| - 7
  {
    hide Frame, Find, OccursAt;
    var s, pat := Frame(k, v, deleted), "\"key\":\"";
    assert Pattern("key") == pat;
    FrameParts(k, v, deleted);
    OccursBy(s, pat, |HEAD| - 7);
    forall p | 0 <= p < |HEAD| - 7
      ensures !OccursAt(s, pat, p)
    {
      if OccursAt(s, pat, p) {
        NoEarlyKey(k, v, deleted, p);
      }
    }
    FindIs(s, pat, |HEAD| - 7);
  }

  /** A quote whose neighbours rule out both texts is one of the fixed quotes. */
  lemma FixedQuote(k: string, v: string, deleted: bool, i: nat)
    requires QuotesEscaped(k) && QuotesEscaped(v)
    requires 0 < i < |Frame(k, v, deleted)| && Frame(k, v, deleted)[i] == '"' && Frame(k, v, deleted)[i - 1] != '\\'
    ensures var m := |HEAD| + |k|;
      var t := m + |MIDDLE| + |v|;
      || i == 1 || i == 19 || i == 23 || i == 27 || i == 29
      || i == m || i == m + 2 || i == m + 8 || i == m + 10
      || i == t || i == t + 2 || i == t + 10
  {
    hide Frame, Flag;
    QuotePlaces(k, v, deleted, i);
  }

  lemma MiddleAt(k: string, v: string, deleted: bool, i: nat)
    requires i < |MIDDLE|
    ensures |HEAD| + |k| + i < |Frame(k, v, deleted)| && Frame(k, v, deleted)[|HEAD| + |k| + i] == MIDDLE[i]
  {
    hide Frame, Flag;
    FrameParts(k, v, deleted);
  }

  lemma TailAt(k: string, v: string, deleted: bool, i: nat)
    requires i < |TAIL|
    ensures var t := |HEAD| + |k| + |MIDDLE| + |v|;
      t + i < |Frame(k, v, deleted)| && Frame(k, v, deleted)[t + i] == TAIL[i]
  {
    hide Frame, Flag;
    FrameParts(k, v, deleted);
  }

  /** A fixed quote between a letter and a colon ends one of the four field names. */
  lemma ColonQuote(k: string, v: string, deleted: bool, i: nat)
    requires QuotesEscaped(k) && QuotesEscaped(v) && 0 < i && i + 1 < |Frame(k, v, deleted)|
    requires var s := Frame(k, v, deleted); s[i] == '"' && s[i - 1] != '\\' && s[i - 1] != ':' && s[i + 1] == ':'
    ensures var s, m := Frame(k, v, deleted), |HEAD| + |k|;
      var t := m + |MIDDLE| + |v|;
      || (i == 19 && s[i - 1] == 'n') || (i == 27 && s[i - 1] == 'y')
      || (i == m + 8 && s[i - 1] == 'e') || (i == t + 10 && s[i - 1] == 'd')
  {
    hide Frame, Flag, QuotesEscaped;
    FixedQuote(k, v, deleted, i);
    HeadAt(k, v, deleted, 2);
    HeadAt(k, v, deleted, 18);
    HeadAt(k, v, deleted, 24);
    HeadAt(k, v, deleted, 26);
    MiddleAt(k, v, deleted, 1);
    MiddleAt(k, v, deleted, 3);
    MiddleAt(k, v, deleted, 7);
    TailAt(k, v, deleted, 1);
    TailAt(k, v, deleted, 3);
    TailAt(k, v, deleted, 9);
    HeadAt(k, v, deleted, 28);
    MiddleAt(k, v, deleted, 9);
  }

  /** Nothing in the key, nor across its ends, looks like `"value":"`. */
  lemma NoEarlyValue(k: string, v: string, deleted: bool, p: nat)
    requires QuotesEscaped(k) && QuotesEscaped(v)
    requires OccursAt(Frame(k, v, deleted), Pattern("value"), p)
    ensures p >= |HEAD| + |k| + 2
  {
    hide Frame, Flag, QuotesEscaped;
    var s, pat := Frame(k, v, deleted), "\"value\":\"";
    assert Pattern("value") == pat;
    OccursChar(s, pat, p, 5);
    OccursChar(s, pat, p, 6);
    OccursChar(s, pat, p, 7);
    ColonQuote(k, v, deleted, p + 6);
  }

  lemma ValueText(j: nat)
    requires j < 9
    ensures |Pattern("value")| == 9 && Pattern("value")[j] == MIDDLE[2 + j]
  {
    assert Pattern("value") == "\"value\":\"";
  }

  lemma FindValue(k: string, v: string, deleted: bool)
    requires QuotesEscaped(k) && QuotesEscaped(v)
    ensures Find(Frame(k, v, deleted), Pattern("value")) == |HEAD| + |k| + 2
  {
    hide Frame, Find, QuotesEscaped, OccursAt, Pattern;
    var s, pat := Frame(k, v, deleted), Pattern("value");
    var at := |HEAD| + |k| + 2;
    ValueText(0);
    MiddleAt(k, v, deleted, 10);
    forall j | 0 <= j < |pat|
      ensures s[at + j] == pat[j]
    {
      ValueText(j);
      MiddleAt(k, v, deleted, 2 + j);
    }
    OccursBy(s, pat, at);
    forall p | 0 <= p < at
      ensures !OccursAt(s, pat, p)
    {
      if OccursAt(s, pat, p) {
        NoEarlyValue(k, v, deleted, p);
      }
    }
    FindIs(s, pat, at);
  }

  const DELETED := "\"deleted\":true"

  /** An occurrence of `"deleted":true` is the payload's own flag. */
  lemma NoStrayDeleted(k: string, v: string, deleted: bool, p: nat)
    requires QuotesEscaped(k) && QuotesEscaped(v)
    requires OccursAt(Frame(k, v, deleted), DELETED, p)
    ensures deleted
  {
    hide Frame, QuotesEscaped, Flag;
    var s := Frame(k, v, deleted);
    OccursChar(s, DELETED, p, 7);
    OccursChar(s, DELETED, p, 8);
    OccursChar(s, DELETED, p, 9);
    OccursChar(s, DELETED, p, 10);
    ColonQuote(k, v, deleted, p + 8);
    FlagStart(k, v, deleted);
  }

  lemma FlagStart(k: string, v: string, deleted: bool)
    ensures var t := |HEAD| + |k| + |MIDDLE| + |v|;
      t + |TAIL| < |Frame(k, v, deleted)| && (Frame(k, v, deleted)[t + |TAIL|] == 't' <==> deleted)
  {
    hide Frame;
    FrameParts(k, v, deleted);
    var t := |HEAD| + |k| + |MIDDLE| + |v|;
    assert Frame(k, v, deleted)[t + |TAIL| + 0] == Flag(deleted)[0];
    assert Flag(false)[0] == 'f' && Flag(true)[0] == 't';
  }

  lemma DeletedText(j: nat)
    requires j < |DELETED|
    ensures DELETED[j] == if j < 10 then TAIL[2 + j] else "true"[j - 10]
  {}

  lemma TrueFlagAt(k: string, v: string, j: nat)
    requires j < 4
    ensures var t := |HEAD| + |k| + |MIDDLE| + |v| + |TAIL|;
      t + j < |Frame(k, v, true)| && Frame(k, v, true)[t + j] == "true"[j]
  {
    hide Frame;
    FrameParts(k, v, true);
    assert Flag(true) == "true";
  }

  lemma DeletedIsThere(k: string, v: string)
    ensures OccursAt(Frame(k, v, true), DELETED, |HEAD| + |k| + |MIDDLE| + |v| + 2)
  {
    hide Frame, OccursAt, Flag;
    var s, at := Frame(k, v, true), |HEAD| + |k| + |MIDDLE| + |v| + 2;
    TrueFlagAt(k, v, 3);
    forall j | 0 <= j < |DELETED|
      ensures s[at + j] == DELETED[j]
    {
      DeletedText(j);
      if j < 10 {
        TailAt(k, v, true, 2 + j);
      } else {
        TrueFlagAt(k, v, j - 10);
      }
    }
    OccursBy(s, DELETED, at);
  }

  lemma FindDeleted(k: string, v: string, deleted: bool)
    requires QuotesEscaped(k) && QuotesEscaped(v)
    ensures Find(Frame(k, v, deleted), DELETED) != -1 <==> deleted
  {
    hide Frame, QuotesEscaped, OccursAt, Flag;
    var s := Frame(k, v, deleted);
    if deleted {
      FrameParts(k, v, deleted);
      DeletedIsThere(k, v);
    }
    if Find(s, DELETED) != -1 {
      NoStrayDeleted(k, v, deleted, Find(s, DELETED));
    }
  }

  // ---------------------------------------------------------------------
  // Main results
  // ---------------------------------------------------------------------

  lemma PayloadIsFrame(d: Delta)
    ensures Payload(d) == Frame(Escaped(d.key), Escaped(d.value), d.deleted)
  {}

  lemma AfterKey(k: string, v: string, deleted: bool)
    ensures Frame(k, v, deleted)[|HEAD|..] == k + "\"" + (MIDDLE[1..] + v + TAIL + Flag(deleted) + "}")
  {}

  lemma AfterValue(k: string, v: string, deleted: bool)
    ensures Frame(k, v, deleted)[|HEAD| + |k| + |MIDDLE|..] == v + "\"" + (TAIL[1..] + Flag(deleted) + "}")
  {}

  /** A subscriber recovers every delta byte for byte: no key or value, whatever
      quotes or backslashes it holds, can be mistaken for payload structure. */
  lemma RoundTrip(d: Delta)
    requires Fits(d)
    ensures Received(Payload(d)) == Some(d)
  {
    hide Frame, Find, Decode, Escaped, Payload, QuotesEscaped, Flag;
    var k, v := Escaped(d.key), Escaped(d.value);
    PayloadIsFrame(d);
    EscapedQuotes(d.key);
    EscapedQuotes(d.value);
    FindKey(k, v, d.deleted);
    FindValue(k, v, d.deleted);
    FindDeleted(k, v, d.deleted);
    AfterKey(k, v, d.deleted);
    AfterValue(k, v, d.deleted);
    DecodeEscaped(d.key, MIDDLE[1..] + v + TAIL + Flag(d.deleted) + "}");
    DecodeEscaped(d.value, TAIL[1..] + Flag(d.deleted) + "}");
    CStringOfText(d.key);
    CStringOfText(d.value);
  }

  /** The publisher never drops a delta for its size: both escape buffers and
      the payload buffer always suffice. */
  lemma NeverTruncated(d: Delta)
    requires Fits(d)
    ensures |Escaped(d.key)| < ESC_KEY_SIZE && |Escaped(d.value)| < ESC_VALUE_SIZE
    ensures |Payload(d)| < MAX_PAYLOAD
  {
    PayloadIsFrame(d);
    FrameParts(Escaped(d.key), Escaped(d.value), d.deleted);
  }
}
