/** The adapter's escape and extract loops over its buffers, and the publish and
    receive ends built from them. */
module JsonCodec {
  import opened Options
  import opened CStrings
  import opened ConfigLimits
  import opened JsonDelta

  lemma {:induction false} EscapedConcat(a: string, b: string)
    ensures Escaped(a + b) == Escaped(a) + Escaped(b)
    decreases |a|
  {
    hide EscapeChar;
    if |a| == 0 {
      assert a + b == b;
    } else {
      EscapedConcat(a[1..], b);
      assert (a + b)[1..] == a[1..] + b;
    }
  }

  lemma EscapedSplit(s: string, p: nat)
    requires p < |s|
    ensures Escaped(s[..p + 1]) == Escaped(s[..p]) + EscapeChar(s[p])
    ensures |Escaped(s[..p])| + |EscapeChar(s[p])| <= |Escaped(s)|
  {
    hide EscapeChar;
    EscapedConcat(s[..p], [s[p]]);
    assert s[..p] + [s[p]] == s[..p + 1];
    assert Escaped([s[p]]) == EscapeChar(s[p]) + Escaped([]);
    EscapedConcat(s[..p + 1], s[p + 1..]);
    assert s[..p + 1] + s[p + 1..] == s;
  }

  /** `memcpy` of a sequence to position `o`. */
  method CopyInto(dst: array<char>, o: nat, s: string)
    requires o + |s| <= dst.Length
    modifies dst
    ensures dst[..o + |s|] == old(dst[..o]) + s
  {
    forall j | 0 <= j < |s| {
      dst[o + j] := s[j];
    }
  }

  /** Escapes `src` into `dst`, failing exactly when text and terminator do not
      fit. */
  method JsonEscape(src: string, dst: array<char>) returns (rc: int)
    requires IsText(src)
    modifies dst
    ensures rc == 0 <==> |Escaped(src)| < dst.Length
    ensures rc == 0 || rc == -1
    ensures rc == 0 ==> dst[..|Escaped(src)|] == Escaped(src) && dst[|Escaped(src)|] == NUL
  {
    hide EscapeChar;
    var o, p := 0, 0;
    while p < |src|
      invariant p <= |src|
      invariant o == |Escaped(src[..p])| <= dst.Length
      invariant dst[..o] == Escaped(src[..p])
    {
      EscapedSplit(src, p);
      var sequence := EscapeChar(src[p]);
      if o + |sequence| >= dst.Length {
        return -1;
      }
      CopyInto(dst, o, sequence);
      o := o + |sequence|;
      p := p + 1;
    }
    assert src[..p] == src;
    if o >= dst.Length {
      return -1;
    }
    dst[o] := NUL;
    rc := 0;
  }

  function Prepend(t: string, d: Decoded): Decoded {
    match d
    case Malformed => Malformed
    case Text(u) => Text(t + u)
  }

  lemma DecodeEscape(p: string)
    requires |p| > 0 && p[0] == '\\'
    ensures match Unescape(p[1..])
      case None => Decode(p) == Malformed
      case Some((c, n)) => 1 + n <= |p| && Decode(p) == Prepend([c], Decode(p[1 + n..]))
  {}

  lemma DecodePlain(p: string)
    requires |p| > 0 && p[0] != '\\' && p[0] != '"'
    ensures Decode(p) == Prepend([p[0]], Decode(p[1..]))
  {}

  lemma PrependTwice(t: string, c: char, d: Decoded)
    ensures Prepend(t, Prepend([c], d)) == Prepend(t + [c], d)
  {
    if d.Text? {
      assert t + ([c] + d.text) == t + [c] + d.text;
    }
  }

  /** Copies the decoded text of a string field into `out`. */
  method JsonExtract(json: string, field: string, out: array<char>) returns (rc: int)
    requires out.Length > 0
    modifies out
    ensures rc == 0 || rc == -1
    ensures rc == 0 <==> Extract(json, field, out.Length).Some?
    ensures rc == 0 ==>
      var t := Extract(json, field, out.Length).value;
      |t| < out.Length && out[..|t|] == t && out[|t|] == NUL
  {
    hide Decode, Unescape, Find;
    var at := Find(json, Pattern(field));
    if at == -1 {
      return -1;
    }
    var start := at + |Pattern(field)|;
    ghost var all := Decode(json[start..]);
    var p, o := start, 0;
    while p < |json| && json[p] != '"'
      invariant start <= p <= |json| && 0 <= o < out.Length
      invariant all == Prepend(out[..o], Decode(json[p..]))
      decreases |json| - p
    {
      var c: char;
      var next: nat;
      assert json[p..][0] == json[p];
      if json[p] == '\\' {
        DecodeEscape(json[p..]);
        assert json[p..][1..] == json[p + 1..];
        match Unescape(json[p + 1..])
        case None =>
          return -1;
        case Some((ch, n)) =>
          c, next := ch, p + 1 + n;
          assert json[p..][1 + n..] == json[next..];
      } else {
        DecodePlain(json[p..]);
        c, next := json[p], p + 1;
        assert json[p..][1..] == json[next..];
      }
      PrependTwice(out[..o], c, Decode(json[next..]));
      if o + 1 >= out.Length {
        return -1;
      }
      out[o] := c;
      p, o := next, o + 1;
    }
    DecodeStops(json[p..]);
    if p == |json| {
      return -1;
    }
    out[o] := NUL;
    rc := 0;
  }

  lemma DecodeStops(p: string)
    ensures |p| == 0 ==> Decode(p) == Malformed
    ensures |p| > 0 && p[0] == '"' ==> Decode(p) == Text("")
  {}

  lemma EscapeCharIsText(c: char)
    requires c != NUL
    ensures IsText(EscapeChar(c))
  {}

  lemma {:induction false} EscapedIsText(s: string)
    requires IsText(s)
    ensures IsText(Escaped(s))
    decreases |s|
  {
    hide EscapeChar;
    if |s| > 0 {
      EscapeCharIsText(s[0]);
      EscapedIsText(s[1..]);
    }
  }

  datatype Status = Sent(payload: string) | ErrPublish

  /** Builds the payload in the adapter's buffers. It is refused exactly when
      one of them is too small. */
  method BuildPayload(d: Delta) returns (status: Status)
    requires IsText(d.key) && IsText(d.value)
    ensures status == (
      if |Escaped(d.key)| < ESC_KEY_SIZE && |Escaped(d.value)| < ESC_VALUE_SIZE && |Payload(d)| < MAX_PAYLOAD
      then Sent(Payload(d)) else ErrPublish)
  {
    hide Escaped, Flag;
    var escKey := new char[ESC_KEY_SIZE];
    var escValue := new char[ESC_VALUE_SIZE];
    var rc := JsonEscape(d.key, escKey);
    if rc != 0 {
      return ErrPublish;
    }
    rc := JsonEscape(d.value, escValue);
    if rc != 0 {
      return ErrPublish;
    }
    EscapedIsText(d.key);
    EscapedIsText(d.value);
    ReadBack(escKey[..], Escaped(d.key));
    ReadBack(escValue[..], Escaped(d.value));
    var payload := HEAD + CString(escKey[..]) + MIDDLE + CString(escValue[..]) + TAIL + Flag(d.deleted) + "}";
    if |payload| >= MAX_PAYLOAD {
      return ErrPublish;
    }
    status := Sent(payload);
  }

  /** Decodes one signal's payload into the callback's arguments, or ignores it. */
  method ReadPayload(payload: string) returns (d: Option<Delta>)
    ensures d == Received(payload)
  {
    hide Extract, Find;
    var key := new char[CONFIG_MAX_KEY];
    var value := new char[CONFIG_MAX_VALUE];
    var rc := JsonExtract(payload, "key", key);
    if rc != 0 {
      return None;
    }
    rc := JsonExtract(payload, "value", value);
    if rc != 0 {
      return None;
    }
    ReadBackCut(key[..], Extract(payload, "key", CONFIG_MAX_KEY).value);
    ReadBackCut(value[..], Extract(payload, "value", CONFIG_MAX_VALUE).value);
    var deleted := Find(payload, DELETED) != -1;
    d := Some(Delta(CString(key[..]), CString(value[..]), deleted));
  }
}
