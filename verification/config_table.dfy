/** The in-memory config table and the loops that fill it from a file, look keys
    up in it, and print it. */
module ConfigTable {
  import opened Options
  import opened CStrings
  import opened ConfigLimits
  import opened ConfigText

  lemma PositionIs(cfg: seq<Pair>, key: string, i: nat)
    requires i <= |cfg| && (i < |cfg| ==> cfg[i].key == key)
    requires forall j :: 0 <= j < i ==> cfg[j].key != key
    ensures Position(cfg, key) == i
  {}

  /** `strncpy` of a whole text, then a terminator. */
  method CopyText(dst: array<char>, t: string)
    requires IsText(t) && |t| < dst.Length
    modifies dst
    ensures CString(dst[..]) == t
  {
    forall j | 0 <= j < |t| {
      dst[j] := t[j];
    }
    dst[|t|] := NUL;
    ReadBack(dst[..], t);
  }

  /** Trims a C string in its buffer by moving its terminator back. */
  method TrimInPlace(s: array<char>)
    requires NUL in s[..]
    modifies s
    ensures CString(s[..]) == RTrim(old(CString(s[..])))
  {
    hide CString;
    ghost var t := CString(s[..]);
    var n := |CString(s[..])|;
    HasTerminator(s[..]);
    assert t[..n] == t;
    while n > 0 && IsSpace(s[n - 1])
      invariant n <= |t| < s.Length && s[..n] == t[..n] && s[n] == NUL
      invariant RTrim(t[..n]) == RTrim(t)
    {
      assert t[..n][..n - 1] == t[..n - 1] && t[..n][n - 1] == s[n - 1];
      n := n - 1;
      s[n] := NUL;
    }
    assert n > 0 ==> t[..n][n - 1] == s[n - 1];
    assert IsText(t[..n]);
    ReadBack(s[..], t[..n]);
  }

  lemma HasTerminator(buffer: string)
    requires NUL in buffer
    ensures |CString(buffer)| < |buffer|
  {
    assert buffer[..|buffer|] == buffer;
  }

  lemma CopyTerminates(buffer: string)
    requires |CString(buffer)| < |buffer|
    ensures NUL in buffer
  {
    assert buffer[|CString(buffer)|] == NUL;
  }

  /** The part of a line after its `=`. */
  method ParseValueInto(rest: string, value: array<char>)
    requires IsText(rest) && value.Length > 0
    modifies value
    ensures CString(value[..]) == RTrim(Truncated(SkipBlanks(rest), value.Length - 1))
  {
    hide CString, RTrim, Truncated, SkipBlanks;
    var v := 0;
    assert rest[0..] == rest;
    while v < |rest| && IsBlank(rest[v])
      invariant v <= |rest| && SkipBlanks(rest[v..]) == SkipBlanks(rest)
    {
      SkipOne(rest, v);
      v := v + 1;
    }
    SkipStops(rest, v);
    var vp := rest[v..];
    var vl := if |vp| >= value.Length then value.Length - 1 else |vp|;
    TruncatedIs(vp, value.Length - 1);
    CopyText(value, vp[..vl]);
    CopyTerminates(value[..]);
    TrimInPlace(value);
  }

  /** Splits one line into a key and a value buffer. */
  method ParseLineInto(line: string, key: array<char>, value: array<char>) returns (rc: int)
    requires IsText(line) && value.Length > 0 && key != value
    modifies key, value
    ensures rc == 0 || rc == -1
    ensures rc == 0 <==> ParseLine(line, key.Length, value.Length).Some?
    ensures rc == 0 ==> ParseLine(line, key.Length, value.Length) == Some(Pair(CString(key[..]), CString(value[..])))
  {
    hide CString, RTrim, IndexOf, Truncated, SkipBlanks;
    var p := 0;
    while p < |line| && IsBlank(line[p])
      invariant p <= |line| && SkipBlanks(line[p..]) == SkipBlanks(line)
    {
      SkipOne(line, p);
      p := p + 1;
    }
    SkipStops(line, p);
    var l := line[p..];
    if |l| == 0 || l[0] == '#' || l[0] == '\r' || l[0] == '\n' {
      return -1;
    }
    var kl := IndexOf(l, '=');
    if kl == -1 {
      return -1;
    }
    if kl == 0 || kl >= key.Length {
      return -1;
    }
    CopyText(key, l[..kl]);
    CopyTerminates(key[..]);
    TrimInPlace(key);
    if CString(key[..]) == "" {
      return -1;
    }
    ParseValueInto(l[kl + 1..], value);
    rc := 0;
  }

  lemma SkipOne(line: string, p: nat)
    requires p < |line| && IsBlank(line[p])
    ensures SkipBlanks(line[p..]) == SkipBlanks(line[p + 1..])
  {
    assert line[p..][1..] == line[p + 1..];
  }

  lemma SkipStops(line: string, p: nat)
    requires p <= |line| && (p < |line| ==> !IsBlank(line[p]))
    ensures SkipBlanks(line[p..]) == line[p..]
  {}

  lemma TruncatedIs(s: string, n: nat)
    ensures Truncated(s, n) == s[..if |s| > n then n else |s|]
  {}

  /** `fgets` from position `pos` of an open file. */
  method GetLine(file: string, pos: nat, line: array<char>) returns (next: nat)
    requires pos < |file| && line.Length == LINE_SIZE
    modifies line
    ensures next == pos + ChunkLength(file[pos..]) <= |file|
    ensures CString(line[..]) == CString(file[pos..next])
  {
    hide CString, IndexOf;
    var n := 0;
    while n < LINE_SIZE - 1 && pos + n < |file| && (n == 0 || line[n - 1] != '\n')
      invariant n <= LINE_SIZE - 1 && pos + n <= |file|
      invariant line[..n] == file[pos..pos + n]
      invariant forall j :: 0 <= j < n - 1 ==> line[j] != '\n'
    {
      assert n > 0 ==> file[pos + n - 1] == line[n - 1];
      line[n] := file[pos + n];
      assert line[..n + 1] == line[..n] + [line[n]];
      assert file[pos..pos + n + 1] == file[pos..pos + n] + [file[pos + n]];
      n := n + 1;
    }
    assert n > 0 ==> line[n - 1] == file[pos + n - 1];
    forall j | 0 <= j < n
      ensures file[pos..][j] == line[j]
    {
      assert file[pos..pos + n][j] == line[j];
    }
    line[n] := NUL;
    ChunkEnds(file[pos..], n);
    next := pos + n;
    ReadBackCut(line[..], file[pos..next]);
  }

  lemma ChunkEnds(file: string, n: nat)
    requires 0 < n <= |file| && n < LINE_SIZE
    requires forall j :: 0 <= j < n - 1 ==> file[j] != '\n'
    requires n == |file| || n == LINE_SIZE - 1 || file[n - 1] == '\n'
    ensures ChunkLength(file) == n
  {
    hide IndexOf;
    var i := IndexOf(file, '\n');
    assert i == -1 ==> file[n - 1] in file;
  }

  class Config {
    const pairs: array<Pair>
    var count: nat

    ghost predicate Valid()
      reads this
    {
      pairs.Length == CONFIG_MAX_PAIRS && count <= CONFIG_MAX_PAIRS
    }

    ghost function Contents(): seq<Pair>
      reads this, pairs
      requires Valid()
    {
      pairs[..count]
    }

    constructor ()
      ensures Valid() && fresh(pairs) && Contents() == []
    {
      pairs := new Pair[CONFIG_MAX_PAIRS](_ => Pair("", ""));
      count := 0;
    }

    method Lookup(key: string) returns (value: Option<string>)
      requires Valid()
      ensures value == Get(Contents(), key)
    {
      var i := 0;
      while i < count
        invariant i <= count
        invariant forall j :: 0 <= j < i ==> pairs[j].key != key
      {
        if pairs[i].key == key {
          PositionIs(Contents(), key, i);
          return Some(pairs[i].value);
        }
        i := i + 1;
      }
      PositionIs(Contents(), key, i);
      value := None;
    }

    method Update(key: string, value: string) returns (rc: int)
      requires Valid()
      modifies this`count, pairs
      ensures Valid() && (rc == 0 || rc == -1)
      ensures rc == 0 <==> Set(old(Contents()), key, value).Some?
      ensures Contents() == if rc == 0 then Set(old(Contents()), key, value).value else old(Contents())
    {
      var i := 0;
      while i < count
        invariant i <= count
        invariant forall j :: 0 <= j < i ==> pairs[j].key != key
      {
        if pairs[i].key == key {
          PositionIs(Contents(), key, i);
          pairs[i] := pairs[i].(value := Truncated(value, CONFIG_MAX_VALUE - 1));
          return 0;
        }
        i := i + 1;
      }
      PositionIs(Contents(), key, i);
      if count >= CONFIG_MAX_PAIRS {
        return -1;
      }
      pairs[count] := Pair(Truncated(key, CONFIG_MAX_KEY - 1), Truncated(value, CONFIG_MAX_VALUE - 1));
      count := count + 1;
      rc := 0;
    }

    /** Clears the table and fills it from the file's lines. */
    method Read(file: string)
      requires Valid()
      modifies this`count, pairs
      ensures Valid() && Contents() == Parse(file)
    {
      hide Set, LineOf, ChunkLength;
      count := 0;
      var line := new char[LINE_SIZE];
      var pos := 0;
      assert file[0..] == file;
      while pos < |file|
        invariant pos <= |file| && Valid()
        invariant ReadFrom(file[pos..], Contents()) == Parse(file)
        decreases |file| - pos
      {
        ghost var before := Contents();
        var next := GetLine(file, pos, line);
        assert file[pos..][..next - pos] == file[pos..next] && file[pos..][next - pos..] == file[next..];
        var key, value := new char[CONFIG_MAX_KEY], new char[CONFIG_MAX_VALUE];
        var rc := ParseLineInto(CString(line[..]), key, value);
        LineOfChunk(file[pos..next]);
        if rc == 0 {
          var _ := Update(CString(key[..]), CString(value[..]));
        }
        assert Contents() == Put(before, LineOf(file[pos..next]));
        pos := next;
      }
    }

    /** The text a rewrite of the file contains. */
    method Render() returns (text: string)
      requires Valid()
      ensures text == Print(Contents())
    {
      text := HEADER;
      var i := 0;
      while i < count
        invariant i <= count && text == HEADER + PrintPairs(pairs[..i])
      {
        assert pairs[..i + 1][..i] == pairs[..i];
        text := text + PrintPair(pairs[i]);
        i := i + 1;
      }
    }
  }

  lemma LineOfChunk(chunk: string)
    ensures LineOf(chunk) == ParseLine(CString(chunk), CONFIG_MAX_KEY, CONFIG_MAX_VALUE)
  {}
}
