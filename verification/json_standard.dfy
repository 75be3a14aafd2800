/** A strict reader for the JSON the adapter emits, written from RFC 8259 alone:
    objects (section 4), numbers (section 6) and strings (section 7). It knows
    nothing of the adapter's own substring searches. */
module JsonStandard {
  import opened Options
  import opened JsonDelta

  datatype Json = JsonString(text: string) | JsonNumber(digits: string) | JsonBool(b: bool)

  datatype Member = Member(name: string, value: Json)

  /** `unescaped` of section 7: no control character, quote or backslash. */
  predicate Unescaped(c: char) {
    ' ' <= c && c != '"' && c != '\\'
  }

  predicate IsHex(c: char) {
    '0' <= c <= '9' || 'a' <= c <= 'f' || 'A' <= c <= 'F'
  }

  function HexNumber(s: string): (n: nat)
    requires forall c :: c in s ==> IsHex(c)
    decreases |s|
  {
    if |s| == 0 then 0
    else
      assert IsHex(s[|s| - 1]);
      HexNumber(s[..|s| - 1]) * 16 + HexValue(s[|s| - 1])
  }

  /** One escape sequence after its backslash, and its length. */
  function ReadEscape(p: string): (r: Option<(char, nat)>)
    ensures r.Some? ==> 1 <= r.value.1 <= |p|
  {
    if |p| == 0 then None
    else match p[0]
      case '"' => Some(('"', 1))
      case '\\' => Some(('\\', 1))
      case '/' => Some(('/', 1))
      case 'b' => Some((8 as char, 1))
      case 'f' => Some((12 as char, 1))
      case 'n' => Some(('\n', 1))
      case 'r' => Some(('\r', 1))
      case 't' => Some(('\t', 1))
      case 'u' =>
        if |p| < 5 || (exists c :: c in p[1..5] && !IsHex(c)) then None
        else
          var n := HexNumber(p[1..5]);
          if n < 0xD800 then Some((n as char, 5)) else None
      case _ => None
  }

  /** The text of a string after its opening quote, and what follows it. */
  function ReadString(p: string): (r: Option<(string, string)>)
    ensures r.Some? ==> |r.value.1| < |p|
    decreases |p|
  {
    if |p| == 0 then None
    else if p[0] == '"' then Some(("", p[1..]))
    else if p[0] == '\\' then
      match ReadEscape(p[1..])
      case None => None
      case Some((c, n)) => Cons(c, ReadString(p[1 + n..]))
    else if Unescaped(p[0]) then Cons(p[0], ReadString(p[1..]))
    else None
  }

  function Cons(c: char, r: Option<(string, string)>): Option<(string, string)> {
    match r
    case None => None
    case Some((s, rest)) => Some(([c] + s, rest))
  }

  predicate StartsWith(p: string, s: string) {
    |s| <= |p| && p[..|s|] == s
  }

  function Digits(p: string): (n: nat)
    ensures n <= |p|
  {
    if |p| > 0 && '0' <= p[0] <= '9' then 1 + Digits(p[1..]) else 0
  }

  function ReadValue(p: string): (r: Option<(Json, string)>)
    ensures r.Some? ==> |r.value.1| < |p|
  {
    if StartsWith(p, "\"") then
      match ReadString(p[1..])
      case None => None
      case Some((s, rest)) => Some((JsonString(s), rest))
    else if StartsWith(p, "true") then Some((JsonBool(true), p[4..]))
    else if StartsWith(p, "false") then Some((JsonBool(false), p[5..]))
    else if Digits(p) > 0 && (p[0] != '0' || Digits(p) == 1) then Some((JsonNumber(p[..Digits(p)]), p[Digits(p)..]))
    else None
  }

  /** One `"name":value`. */
  function ReadMember(p: string): (r: Option<(Member, string)>)
    ensures r.Some? ==> |r.value.1| < |p|
  {
    if !StartsWith(p, "\"") then None
    else match ReadString(p[1..])
      case None => None
      case Some((name, rest)) =>
        if !StartsWith(rest, ":") then None
        else match ReadValue(rest[1..])
          case None => None
          case Some((v, after)) => Some((Member(name, v), after))
  }

  /** The members up to the closing brace, which ends the text. */
  function ReadMembers(p: string): Option<seq<Member>>
    decreases |p|
  {
    match ReadMember(p)
    case None => None
    case Some((m, rest)) =>
      if rest == "}" then Some([m])
      else if !StartsWith(rest, ",") then None
      else match ReadMembers(rest[1..])
        case None => None
        case Some(ms) => Some([m] + ms)
  }

  function ReadObject(p: string): Option<seq<Member>> {
    if StartsWith(p, "{") then ReadMembers(p[1..]) else None
  }

  // ---------------------------------------------------------------------

  lemma ReadEscapeOne(c: char, rest: string)
    requires EscapeChar(c)[0] == '\\'
    ensures ReadEscape(EscapeChar(c)[1..] + rest) == Some((c, |EscapeChar(c)| - 1))
  {
    var e := EscapeChar(c);
    if (c as int) < 0x20 && c != '\n' && c != '\r' && c != '\t' {
      HexIs(c as int);
      assert (e[1..] + rest)[1..5] == Hex4(c as int);
    }
  }

  lemma HexIs(n: nat)
    requires n < 0x20
    ensures (forall c :: c in Hex4(n) ==> IsHex(c)) && HexNumber(Hex4(n)) == n
  {
    HexValueOfDigit(n / 16);
    HexValueOfDigit(n % 16);
    var h := Hex4(n);
    assert h[..3] == ['0', '0', HexDigit(n / 16)] && h[..3][..2] == ['0', '0'] && h[..3][..2][..1] == ['0'];
    assert HexNumber(h[..3][..2][..1]) == HexNumber([]) * 16 + 0;
    assert HexNumber(h[..3][..2]) == 0;
    assert HexNumber(h[..3]) == n / 16;
  }

  lemma ReadStringOne(c: char, rest: string)
    ensures ReadString(EscapeChar(c) + rest) == Cons(c, ReadString(rest))
  {
    var e := EscapeChar(c);
    var s := e + rest;
    if e[0] == '\\' {
      ReadEscapeOne(c, rest);
      assert s[1..] == e[1..] + rest;
      assert s[|e|..] == rest;
    } else {
      assert e == [c] && s[1..] == rest;
    }
  }

  lemma ReadStringEnd(rest: string)
    ensures ReadString("\"" + rest) == Some(("", rest))
  {
    assert ("\"" + rest)[1..] == rest;
  }

  /** The strict reader takes an escaped text for the text itself. */
  lemma {:induction false} ReadEscaped(s: string, rest: string)
    ensures ReadString(Escaped(s) + ("\"" + rest)) == Some((s, rest))
    decreases |s|
  {
    hide ReadString, EscapeChar;
    if |s| == 0 {
      assert Escaped(s) + ("\"" + rest) == "\"" + rest;
      ReadStringEnd(rest);
    } else {
      ReadEscaped(s[1..], rest);
      assert Escaped(s) + ("\"" + rest) == EscapeChar(s[0]) + (Escaped(s[1..]) + ("\"" + rest));
      ReadStringOne(s[0], Escaped(s[1..]) + ("\"" + rest));
      assert s == [s[0]] + s[1..];
    }
  }

  lemma ReadPlainOne(c: char, rest: string)
    requires Unescaped(c)
    ensures ReadString([c] + rest) == Cons(c, ReadString(rest))
  {
    assert ([c] + rest)[1..] == rest;
  }

  lemma {:induction false} ReadPlain(s: string, rest: string)
    requires forall c :: c in s ==> Unescaped(c)
    ensures ReadString(s + ("\"" + rest)) == Some((s, rest))
    decreases |s|
  {
    hide ReadString;
    if |s| == 0 {
      assert s + ("\"" + rest) == "\"" + rest;
      ReadStringEnd(rest);
    } else {
      ReadPlain(s[1..], rest);
      assert s + ("\"" + rest) == [s[0]] + (s[1..] + ("\"" + rest));
      ReadPlainOne(s[0], s[1..] + ("\"" + rest));
      assert s == [s[0]] + s[1..];
    }
  }

  /** `"name":` followed by a value. */
  function Field(name: string, value: string): string {
    "\"" + (name + ("\"" + (":" + value)))
  }

  /** A quoted text followed by the rest of the object. */
  function Quoted(text: string, rest: string): string {
    "\"" + (text + ("\"" + rest))
  }

  lemma MemberIs(name: string, v: string, rest: string, j: Json)
    requires forall c :: c in name ==> Unescaped(c)
    requires ReadValue(v) == Some((j, rest))
    ensures ReadMember(Field(name, v)) == Some((Member(name, j), rest))
  {
    hide ReadString, ReadValue;
    assert Field(name, v)[1..] == name + ("\"" + (":" + v));
    ReadPlain(name, ":" + v);
    assert (":" + v)[1..] == v;
  }

  lemma ValueIsString(s: string, rest: string)
    ensures ReadValue(Quoted(Escaped(s), rest)) == Some((JsonString(s), rest))
  {
    hide ReadString, Escaped;
    assert Quoted(Escaped(s), rest)[1..] == Escaped(s) + ("\"" + rest);
    ReadEscaped(s, rest);
  }

  lemma ValueIsTwo(rest: string)
    ensures ReadValue("2," + rest) == Some((JsonNumber("2"), "," + rest))
  {
    var p := "2," + rest;
    assert p[1..] == "," + rest;
    assert Digits(p[1..]) == 0;
    assert p[..1] == "2";
  }

  lemma ValueIsFlag(b: bool)
    ensures ReadValue(Flag(b) + "}") == Some((JsonBool(b), "}"))
  {
    var p := Flag(b) + "}";
    if b {
      assert p[..4] == "true" && p[4..] == "}";
    } else {
      assert p[0] == 'f';
      assert p[..5] == "false" && p[5..] == "}";
    }
  }

  lemma LastMember(p: string, m: Member)
    requires ReadMember(p) == Some((m, "}"))
    ensures ReadMembers(p) == Some([m])
  {}

  lemma MoreMembers(p: string, m: Member, rest: string, ms: seq<Member>)
    requires ReadMember(p) == Some((m, "," + rest)) && ReadMembers(rest) == Some(ms)
    ensures ReadMembers(p) == Some([m] + ms)
  {
    hide ReadMember;
    assert ("," + rest)[1..] == rest;
  }

  lemma FlagMember(b: bool)
    ensures ReadMembers(Field("deleted", Flag(b) + "}")) == Some([Member("deleted", JsonBool(b))])
  {
    hide ReadMembers, ReadMember, ReadValue, Field;
    ValueIsFlag(b);
    MemberIs("deleted", Flag(b) + "}", "}", JsonBool(b));
    LastMember(Field("deleted", Flag(b) + "}"), Member("deleted", JsonBool(b)));
  }

  lemma TextMember(name: string, s: string, rest: string, ms: seq<Member>)
    requires (forall c :: c in name ==> Unescaped(c)) && ReadMembers(rest) == Some(ms)
    ensures ReadMembers(Field(name, Quoted(Escaped(s), "," + rest))) == Some([Member(name, JsonString(s))] + ms)
  {
    hide ReadMembers, ReadMember, ReadValue, Field, Quoted, Escaped;
    var v := Quoted(Escaped(s), "," + rest);
    ValueIsString(s, "," + rest);
    MemberIs(name, v, "," + rest, JsonString(s));
    MoreMembers(Field(name, v), Member(name, JsonString(s)), rest, ms);
  }

  lemma VersionMember(rest: string, ms: seq<Member>)
    requires ReadMembers(rest) == Some(ms)
    ensures ReadMembers(Field("interface_version", "2," + rest)) ==
      Some([Member("interface_version", JsonNumber("2"))] + ms)
  {
    hide ReadMembers, ReadMember, ReadValue, Field;
    ValueIsTwo(rest);
    MemberIs("interface_version", "2," + rest, "," + rest, JsonNumber("2"));
    MoreMembers(Field("interface_version", "2," + rest), Member("interface_version", JsonNumber("2")), rest, ms);
  }

  lemma Regroup(a: string, b: string, c: string, d: string, e: string, f: string, g: string)
    ensures a + b + c + d + e + f + g == a + b + (c + d + (e + f + g))
  {}

  const VERSION := "{\"interface_version\":2,"

  lemma HeadSplits()
    ensures HEAD == VERSION + "\"key\":\""
  {}

  lemma VersionText(p: string)
    ensures VERSION + p == "{" + Field("interface_version", "2," + p)
  {}

  lemma KeyText(k: string, rest: string)
    ensures "\"key\":\"" + k + ("\"," + rest) == Field("key", Quoted(k, "," + rest))
  {}

  lemma HeadMembers(k: string, rest: string)
    ensures HEAD + k + ("\"," + rest) == "{" + Field("interface_version", "2," + Field("key", Quoted(k, "," + rest)))
  {
    hide Field, Quoted;
    HeadSplits();
    KeyText(k, rest);
    VersionText(Field("key", Quoted(k, "," + rest)));
    Reassociate(VERSION, "\"key\":\"", k, "\"," + rest);
  }

  lemma Reassociate(a: string, b: string, c: string, d: string)
    ensures (a + b) + c + d == a + (b + c + d)
  {}

  lemma MiddleMember(v: string, rest: string)
    ensures MIDDLE + v + ("\"," + rest) == "\"," + Field("value", Quoted(v, "," + rest))
  {}

  lemma TailMember(flag: string)
    ensures TAIL + flag + "}" == "\"," + Field("deleted", flag + "}")
  {}

  /** The format string, member by member. */
  lemma PayloadMembers(k: string, v: string, flag: string)
    ensures HEAD + k + MIDDLE + v + TAIL + flag + "}" ==
      "{" + Field("interface_version", "2," +
      Field("key", Quoted(k, "," +
      Field("value", Quoted(v, "," +
      Field("deleted", flag + "}"))))))
  {
    hide Field, Quoted;
    Regroup(HEAD, k, MIDDLE, v, TAIL, flag, "}");
    TailMember(flag);
    var p3 := Field("deleted", flag + "}");
    MiddleMember(v, p3);
    HeadMembers(k, Field("value", Quoted(v, "," + p3)));
  }

  /** Every payload is a JSON text whose four members the strict reader
      sees as the version, the key, the value and the flag. */
  lemma StandardReads(d: Delta)
    ensures ReadObject(Payload(d)) == Some([
      Member("interface_version", JsonNumber("2")), Member("key", JsonString(d.key)),
      Member("value", JsonString(d.value)), Member("deleted", JsonBool(d.deleted))])
  {
    hide ReadMembers, Escaped, Flag, Field, Quoted;
    var m2, m3 := Member("value", JsonString(d.value)), Member("deleted", JsonBool(d.deleted));
    var m1 := Member("key", JsonString(d.key));
    var p3 := Field("deleted", Flag(d.deleted) + "}");
    FlagMember(d.deleted);
    var p2 := Field("value", Quoted(Escaped(d.value), "," + p3));
    TextMember("value", d.value, p3, [m3]);
    var p1 := Field("key", Quoted(Escaped(d.key), "," + p2));
    TextMember("key", d.key, p2, [m2] + [m3]);
    VersionMember(p1, [m1] + ([m2] + [m3]));
    PayloadMembers(Escaped(d.key), Escaped(d.value), Flag(d.deleted));
    var p0 := Field("interface_version", "2," + p1);
    assert Payload(d) == "{" + p0;
    assert StartsWith("{" + p0, "{");
    var m0 := Member("interface_version", JsonNumber("2"));
    assert [m0] + ([m1] + ([m2] + [m3])) == [m0, m1, m2, m3];
    assert ("{" + p0)[1..] == p0;
  }
}
