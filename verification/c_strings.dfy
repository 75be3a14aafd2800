/** C strings over buffers of characters. */
module CStrings {

  const NUL: char := '\0'

  /** No NUL inside: the text of a C string. */
  predicate IsText(s: string) {
    NUL !in s
  }

  /** Everything before the first `stop`. */
  function Before<T(==)>(s: seq<T>, stop: T): (r: seq<T>)
    ensures |r| <= |s|
    ensures stop !in r && r == s[..|r|]
    ensures |r| < |s| ==> s[|r|] == stop
  {
    if |s| == 0 || s[0] == stop then [] else [s[0]] + Before(s[1..], stop)
  }

  lemma {:induction false} BeforeStop<T>(s: seq<T>, stop: T, rest: seq<T>)
    requires stop !in s
    ensures Before(s + [stop] + rest, stop) == s && Before(s, stop) == s
    decreases |s|
  {
    if |s| > 0 {
      BeforeStop(s[1..], stop, rest);
      assert (s + [stop] + rest)[1..] == s[1..] + [stop] + rest;
    }
  }

  /** What a buffer holds when read as a C string. */
  function CString(buffer: string): (s: string)
    ensures |s| <= |buffer|
    ensures IsText(s) && s == buffer[..|s|]
    ensures |s| < |buffer| ==> buffer[|s|] == NUL
  {
    Before(buffer, NUL)
  }

  /** A terminated copy of a text reads back as that text. */
  lemma CStringOf(s: string, rest: string)
    requires IsText(s)
    ensures CString(s + [NUL] + rest) == s
  {
    hide Before;
    BeforeStop(s, NUL, rest);
  }

  lemma CStringOfText(s: string)
    requires IsText(s)
    ensures CString(s) == s
  {
    hide Before;
    BeforeStop(s, NUL, "");
  }

  /** Reading a buffer filled with a text and a terminator. */
  lemma ReadBack(buffer: string, t: string)
    requires IsText(t) && |t| < |buffer| && buffer[..|t|] == t && buffer[|t|] == NUL
    ensures CString(buffer) == t
  {
    CStringOf(t, buffer[|t| + 1..]);
    assert t + [NUL] + buffer[|t| + 1..] == buffer;
  }

  /** The same when what was stored may itself hold a NUL. */
  lemma ReadBackCut(buffer: string, t: string)
    requires |t| < |buffer| && buffer[..|t|] == t && buffer[|t|] == NUL
    ensures CString(buffer) == CString(t)
  {
    hide CString;
    var c := CString(t);
    if |c| < |t| {
      assert t == c + [NUL] + t[|c| + 1..];
      assert buffer == c + [NUL] + buffer[|c| + 1..];
      CStringOf(c, buffer[|c| + 1..]);
    } else {
      ReadBack(buffer, t);
    }
  }
}
