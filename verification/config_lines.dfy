/** Which lines of a config file are read, and as what, over the characters of the
    line. */
module ConfigLines {
  import opened Options
  import opened CStrings
  import opened ConfigLimits
  import opened ConfigText

  predicate AllBlank(s: string) {
    forall i :: 0 <= i < |s| ==> IsBlank(s[i])
  }

  predicate AllSpace(s: string) {
    forall i :: 0 <= i < |s| ==> IsSpace(s[i])
  }

  // ---------------------------------------------------------------------
  // Lines that are read
  // ---------------------------------------------------------------------

  lemma {:induction false} SkipLeading(b: string, s: string)
    requires AllBlank(b)
    ensures SkipBlanks(b + s) == SkipBlanks(s)
    decreases |b|
  {
    if |b| == 0 {
      assert b + s == s;
    } else {
      assert (b + s)[0] == b[0] && (b + s)[1..] == b[1..] + s;
      SkipLeading(b[1..], s);
    }
  }

  lemma {:induction false} TrimTrailing(s: string, w: string)
    requires AllSpace(w) && (|s| > 0 ==> !IsSpace(s[|s| - 1]))
    ensures RTrim(s + w) == s
    decreases |w|
  {
    if |w| == 0 {
      assert s + w == s;
    } else {
      var n := |w| - 1;
      assert (s + w)[|s + w| - 1] == w[n] && (s + w)[..|s + w| - 1] == s + w[..n];
      TrimTrailing(s, w[..n]);
    }
  }

  lemma {:induction false} SkipInSpace(w: string)
    requires AllSpace(w)
    ensures AllSpace(SkipBlanks(w))
    decreases |w|
  {
    if |w| > 0 && IsBlank(w[0]) {
      SkipInSpace(w[1..]);
    }
  }

  /** A value between blanks and trailing white space, cut to its buffer. */
  lemma ValueForm(b: string, v: string, w: string)
    requires AllBlank(b) && AllSpace(w) && NormalValue(v)
    ensures RTrim(Truncated(SkipBlanks(b + v + w), CONFIG_MAX_VALUE - 1)) == v
  {
    hide RTrim, IsSpace, IsBlank, SkipBlanks, Truncated, NormalValue, AllBlank, AllSpace;
    assert b + v + w == b + (v + w);
    SkipLeading(b, v + w);
    ValueChars(v);
    var s := if |v| == 0 then SkipBlanks(w) else w;
    if |v| == 0 {
      assert v + w == w;
      SkipInSpace(w);
      assert v + s == s;
    } else {
      assert (v + w)[0] == v[0];
      SkipNone(v + w);
    }
    var n := CONFIG_MAX_VALUE - 1;
    var kept := if |v + s| <= n then s else s[..n - |v|];
    CutForm(v, s, n);
    SpacePrefix(s, |kept|);
    TrimTrailing(v, kept);
  }

  lemma ValueChars(v: string)
    requires NormalValue(v)
    ensures |v| < CONFIG_MAX_VALUE && (|v| > 0 ==> !IsBlank(v[0]) && !IsSpace(v[|v| - 1]))
  {}

  lemma CutForm(v: string, s: string, n: nat)
    requires |v| <= n
    ensures Truncated(v + s, n) == v + if |v + s| <= n then s else s[..n - |v|]
  {}

  lemma SpacePrefix(s: string, n: nat)
    requires AllSpace(s) && n <= |s|
    ensures AllSpace(s[..n])
    ensures s[..|s|] == s
  {
    hide IsSpace;
  }

  /** White space around key and value does not matter: such a line is read as
      exactly its pair, as long as the key and what follows it up to the equals
      sign fit the key's buffer. */
  lemma LineForm(p: Pair, b1: string, b2: string, b3: string, w: string)
    requires NormalPair(p) && AllBlank(b1) && AllSpace(b2) && AllBlank(b3) && AllSpace(w)
    requires '=' !in b2 && |p.key| + |b2| < CONFIG_MAX_KEY
    ensures ParseLine(b1 + p.key + b2 + "=" + b3 + p.value + w, CONFIG_MAX_KEY, CONFIG_MAX_VALUE) == Some(p)
  {
    hide ParseLine, RTrim, SkipBlanks, Truncated, NormalKey, NormalValue, IsSpace;
    var rest := b3 + p.value + w;
    assert b1 + p.key + b2 + "=" + b3 + p.value + w == b1 + (p.key + b2 + ['='] + rest);
    KeyForm(p.key, b2, rest);
    LeadingBlanks(b1, p.key + b2 + ['='] + rest);
    ValueForm(b3, p.value, w);
  }

  lemma LeadingBlanks(b: string, line: string)
    requires AllBlank(b)
    ensures ParseLine(b + line, CONFIG_MAX_KEY, CONFIG_MAX_VALUE) == ParseLine(line, CONFIG_MAX_KEY, CONFIG_MAX_VALUE)
  {
    hide RTrim, SkipBlanks, Truncated, IndexOf;
    SkipLeading(b, line);
  }

  lemma KeyForm(k: string, b: string, rest: string)
    requires NormalKey(k) && AllSpace(b) && '=' !in b && |k| + |b| < CONFIG_MAX_KEY
    ensures ParseLine(k + b + ['='] + rest, CONFIG_MAX_KEY, CONFIG_MAX_VALUE) ==
      Some(Pair(k, RTrim(Truncated(SkipBlanks(rest), CONFIG_MAX_VALUE - 1))))
  {
    hide ParseLine, RTrim, SkipBlanks, Truncated, IndexOf, NormalKey, IsSpace, IsBlank, AllSpace;
    var head := k + b;
    KeyChars(k);
    IndexOfAfter(head, '=', rest);
    SplitAt(head, rest);
    TrimTrailing(k, b);
    ParseAt(head + ['='] + rest, |head|);
  }

  lemma SplitAt(head: string, rest: string)
    requires |head| > 0
    ensures var l := head + ['='] + rest;
      l[0] == head[0] && l[..|head|] == head && l[|head| + 1..] == rest
  {}

  lemma ParseAt(l: string, eq: nat)
    requires 0 < eq < |l| && eq < CONFIG_MAX_KEY && IndexOf(l, '=') == eq && |RTrim(l[..eq])| > 0
    requires !IsBlank(l[0]) && l[0] != '#' && l[0] != '\r' && l[0] != '\n'
    ensures ParseLine(l, CONFIG_MAX_KEY, CONFIG_MAX_VALUE) ==
      Some(Pair(RTrim(l[..eq]), RTrim(Truncated(SkipBlanks(l[eq + 1..]), CONFIG_MAX_VALUE - 1))))
  {
    hide RTrim, Truncated, IndexOf;
    SkipNone(l);
  }

  lemma KeyChars(k: string)
    requires NormalKey(k)
    ensures |k| > 0 && '=' !in k && !IsSpace(k[|k| - 1])
    ensures !IsBlank(k[0]) && k[0] != '#' && k[0] != '\r' && k[0] != '\n'
  {}

  /** In a file such a line, ended by a newline and no longer than the buffer,
      puts its pair in the table whatever follows. */
  lemma FileLine(p: Pair, b1: string, b2: string, b3: string, b4: string, rest: string, cfg: seq<Pair>)
    requires NormalPair(p) && AllBlank(b1) && AllBlank(b2) && AllBlank(b3) && AllSpace(b4) && '\n' !in b4
    requires |p.key| + |b2| < CONFIG_MAX_KEY
    requires |b1 + p.key + b2 + "=" + b3 + p.value + b4| + 1 < LINE_SIZE
    ensures ReadFrom(b1 + p.key + b2 + "=" + b3 + p.value + b4 + "\n" + rest, cfg) == ReadFrom(rest, Put(cfg, Some(p)))
  {
    hide ParseLine, NormalKey, NormalValue, Put, ReadFrom, IsBlank, IsSpace;
    var body := b1 + p.key + b2 + "=" + b3 + p.value + b4;
    NoNewline(p, b1, b2, b3, b4);
    ReadOne(body, rest, cfg);
    EndsInSpace(b4);
    assert body + "\n" == b1 + p.key + b2 + "=" + b3 + p.value + (b4 + "\n");
    LineForm(p, b1, b2, b3, b4 + "\n");
  }

  lemma EndsInSpace(b: string)
    requires AllSpace(b)
    ensures AllSpace(b + "\n")
  {}

  /** One line of a file that fits the buffer. */
  lemma ReadOne(body: string, rest: string, cfg: seq<Pair>)
    requires IsText(body + "\n") && '\n' !in body && |body| + 1 < LINE_SIZE
    ensures ReadFrom(body + "\n" + rest, cfg) ==
      ReadFrom(rest, Put(cfg, ParseLine(body + "\n", CONFIG_MAX_KEY, CONFIG_MAX_VALUE)))
  {
    hide ParseLine, IndexOf, Put;
    var file := body + ['\n'] + rest;
    IndexOfAfter(body, '\n', rest);
    CStringOfText(body + "\n");
    assert body + "\n" + rest == file;
    assert file[..|body| + 1] == body + "\n" && file[|body| + 1..] == rest;
  }

  /** The last one, when it ends the file. */
  lemma ReadLast(line: string, cfg: seq<Pair>)
    requires IsText(line) && '\n' !in line && 0 < |line| < LINE_SIZE
    ensures ReadFrom(line, cfg) == Put(cfg, ParseLine(line, CONFIG_MAX_KEY, CONFIG_MAX_VALUE))
  {
    hide ParseLine, IndexOf, Put;
    CStringOfText(line);
    assert line[..|line|] == line && line[|line|..] == "";
  }

  /** The last line of a file need not end in a newline. */
  lemma LastLine(p: Pair, b1: string, b2: string, b3: string, b4: string, cfg: seq<Pair>)
    requires NormalPair(p) && AllBlank(b1) && AllBlank(b2) && AllBlank(b3) && AllSpace(b4) && '\n' !in b4
    requires |p.key| + |b2| < CONFIG_MAX_KEY
    requires |b1 + p.key + b2 + "=" + b3 + p.value + b4| < LINE_SIZE
    ensures ReadFrom(b1 + p.key + b2 + "=" + b3 + p.value + b4, cfg) == Put(cfg, Some(p))
  {
    hide ParseLine, NormalKey, NormalValue, Put, ReadFrom, IsBlank, IsSpace;
    var line := b1 + p.key + b2 + "=" + b3 + p.value + b4;
    NoNewline(p, b1, b2, b3, b4);
    LineForm(p, b1, b2, b3, b4);
    ReadLast(line, cfg);
  }

  /** One read takes the file up to and including its first newline, or all of it,
      but never more than the buffer holds. */
  lemma ChunkIs(file: string)
    requires |file| > 0
    ensures var n := ChunkLength(file);
      && 0 < n <= |file| && n < LINE_SIZE && '\n' !in file[..n - 1]
      && (n == |file| || n == LINE_SIZE - 1 || file[n - 1] == '\n')
  {
    var n := ChunkLength(file);
    var end := IndexOf(file, '\n');
    forall j | 0 <= j < n - 1
      ensures file[j] != '\n'
    {
      assert end == -1 ==> file[j] in file;
    }
  }

  /** A refused line changes nothing. */
  lemma RefusedLine(line: string, rest: string, cfg: seq<Pair>)
    requires IsText(line) && '\n' !in line && |line| + 1 < LINE_SIZE
    requires NothingOn(line + "\n") || '=' !in line + "\n" || NoKey(line + "\n") || LongKey(line + "\n")
    ensures ReadFrom(line + "\n" + rest, cfg) == ReadFrom(rest, cfg)
  {
    hide ParseLine, NothingOn, NoKey, LongKey, ReadFrom;
    RefusedIff(line + "\n");
    ReadOne(line, rest, cfg);
  }

  lemma NoNewline(p: Pair, b1: string, b2: string, b3: string, b4: string)
    requires NormalPair(p) && AllBlank(b1) && AllBlank(b2) && AllBlank(b3) && AllSpace(b4) && '\n' !in b4
    ensures var body := b1 + p.key + b2 + "=" + b3 + p.value + b4;
      '\n' !in body && IsText(body) && IsText(body + "\n")
    ensures '=' !in b2 && AllSpace(b2)
  {
    assert NUL !in b1 && NUL !in b2 && NUL !in b3 && NUL !in b4;
    assert '\n' !in b1 && '\n' !in b2 && '\n' !in b3;
  }

  // ---------------------------------------------------------------------
  // Lines that are not
  // ---------------------------------------------------------------------

  /** Blank, or a comment. */
  predicate NothingOn(line: string) {
    exists n :: 0 <= n <= |line| && AllBlank(line[..n]) &&
                (n == |line| || line[n] == '#' || line[n] == '\r' || line[n] == '\n')
  }

  /** Nothing but blanks in front of the first equals sign. */
  predicate NoKey(line: string) {
    exists e :: 0 <= e < |line| && line[e] == '=' && AllBlank(line[..e])
  }

  /** From its first character to the equals sign the key fills its buffer. */
  predicate LongKey(line: string) {
    exists n, e :: 0 <= n < e < |line| && AllBlank(line[..n]) && !IsBlank(line[n]) &&
                   line[e] == '=' && '=' !in line[..e] && e - n >= CONFIG_MAX_KEY
  }

  lemma {:induction false} SkipPoint(line: string) returns (n: nat)
    ensures n <= |line| && SkipBlanks(line) == line[n..] && AllBlank(line[..n])
    ensures n < |line| ==> !IsBlank(line[n])
    decreases |line|
  {
    n := 0;
    if |line| > 0 && IsBlank(line[0]) {
      var m := SkipPoint(line[1..]);
      n := m + 1;
      assert line[1..][m..] == line[n..];
      forall i | 0 <= i < n
        ensures IsBlank(line[i])
      {
        assert i > 0 ==> line[i] == line[1..][..m][i - 1];
      }
    }
  }

  lemma SamePoint(line: string, n: nat, m: nat)
    requires n <= |line| && m <= |line| && AllBlank(line[..n]) && AllBlank(line[..m])
    requires n < |line| ==> !IsBlank(line[n])
    requires m < |line| ==> !IsBlank(line[m])
    ensures n == m
  {
    assert forall j :: 0 <= j < n ==> line[j] == line[..n][j];
    assert forall j :: 0 <= j < m ==> line[j] == line[..m][j];
  }

  lemma TrimmedAway(s: string)
    requires |s| > 0 && !IsSpace(s[0])
    ensures |RTrim(s)| > 0
    decreases |s|
  {}

  /** A line is passed over exactly when it is blank or a comment, has no equals
      sign, has no key, or has a key too long for its buffer. */
  lemma RefusedIff(line: string)
    ensures ParseLine(line, CONFIG_MAX_KEY, CONFIG_MAX_VALUE) == None
      <==> NothingOn(line) || '=' !in line || NoKey(line) || LongKey(line)
  {
    hide RTrim, SkipBlanks, Truncated, IsBlank, AllBlank;
    Specials();
    var n := SkipPoint(line);
    var l := line[n..];
    var eq := IndexOf(l, '=');
    assert |l| > 0 ==> l[0] == line[n];
    if NothingOn(line) {
      var m :| 0 <= m <= |line| && AllBlank(line[..m]) &&
        (m == |line| || line[m] == '#' || line[m] == '\r' || line[m] == '\n');
      SamePoint(line, n, m);
    } else if |l| > 0 {
      assert l[0] != '#' && l[0] != '\r' && l[0] != '\n';
      if '=' in line {
        FirstEquals(line, n);
        assert line[n + eq] == '=';
        if eq == 0 {
          assert NoKey(line);
        } else {
          NotNoKey(line, n);
          NotSpace(l[0]);
          TrimmedAway(l[..eq]);
          LongKeyIs(line, n, eq);
        }
      } else {
        assert eq == -1;
      }
    }
  }

  lemma Specials()
    ensures !IsBlank('=') && !IsBlank('#') && !IsBlank('\r') && !IsBlank('\n')
  {}

  lemma NotSpace(c: char)
    requires !IsBlank(c) && c != '\r' && c != '\n'
    ensures !IsSpace(c)
  {}

  lemma FirstEquals(line: string, n: nat)
    requires n < |line| && AllBlank(line[..n]) && '=' in line
    ensures var eq := IndexOf(line[n..], '=');
      eq != -1 && n + eq < |line| && line[n + eq] == '=' && '=' !in line[..n + eq]
  {
    hide IndexOf;
    var i :| 0 <= i < |line| && line[i] == '=';
    assert forall j :: 0 <= j < n ==> line[j] == line[..n][j];
    assert line[n..][i - n] == '=';
    var eq := IndexOf(line[n..], '=');
    forall j | 0 <= j < n + eq
      ensures line[j] != '='
    {
      if j < n {
        assert IsBlank(line[..n][j]);
      } else {
        assert line[n..][j - n] == line[j];
      }
    }
  }

  lemma NotNoKey(line: string, n: nat)
    requires n < |line| && AllBlank(line[..n]) && !IsBlank(line[n]) && line[n] != '='
    ensures !NoKey(line)
  {
    if e :| 0 <= e < |line| && line[e] == '=' && AllBlank(line[..e]) {
      SamePoint(line, n, e);
    }
  }

  lemma LongKeyIs(line: string, n: nat, eq: nat)
    requires 0 < eq && n + eq < |line| && AllBlank(line[..n]) && !IsBlank(line[n])
    requires line[n + eq] == '=' && '=' !in line[..n + eq]
    ensures LongKey(line) <==> eq >= CONFIG_MAX_KEY
  {
    if LongKey(line) {
      var m, e :| 0 <= m < e < |line| && AllBlank(line[..m]) && !IsBlank(line[m]) &&
        line[e] == '=' && '=' !in line[..e] && e - m >= CONFIG_MAX_KEY;
      SamePoint(line, n, m);
      assert forall j :: 0 <= j < e ==> line[..e][j] == line[j] && line[j] in line[..e];
      var f := n + eq;
      assert forall j :: 0 <= j < f ==> line[..f][j] == line[j] && line[j] in line[..f];
    }
  }
}
