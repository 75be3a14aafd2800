/** The key=value config file: its line parser, its reader with a fixed line
    buffer, and its printer. */
module ConfigText {
  import opened Options
  import opened CStrings
  import opened ConfigLimits

  const LINE_SIZE := CONFIG_MAX_KEY + CONFIG_MAX_VALUE + 4

  datatype Pair = Pair(key: string, value: string)

  // ---------------------------------------------------------------------
  // Lines
  // ---------------------------------------------------------------------

  predicate IsBlank(c: char) {
    c == ' ' || c == '\t'
  }

  predicate IsSpace(c: char) {
    IsBlank(c) || c == '\r' || c == '\n'
  }

  function SkipBlanks(s: string): (r: string)
    ensures |r| <= |s|
    ensures |r| > 0 ==> !IsBlank(r[0])
  {
    if |s| > 0 && IsBlank(s[0]) then SkipBlanks(s[1..]) else s
  }

  function RTrim(s: string): (r: string)
    ensures |r| <= |s|
    ensures |r| > 0 ==> !IsSpace(r[|r| - 1])
  {
    if |s| > 0 && IsSpace(s[|s| - 1]) then RTrim(s[..|s| - 1]) else s
  }

  /** `strchr`: the first position of `c`, or -1. */
  function IndexOf(s: string, c: char): (i: int)
    ensures i == -1 ==> c !in s
    ensures i != -1 ==> 0 <= i < |s| && s[i] == c && forall j :: 0 <= j < i ==> s[j] != c
  {
    if |s| == 0 then -1
    else if s[0] == c then 0
    else
      var i := IndexOf(s[1..], c);
      if i == -1 then -1 else i + 1
  }

  /** `strncpy` of at most `n` characters, then a terminator. */
  function Truncated(s: string, n: nat): (r: string)
    ensures |r| <= n && r <= s
  {
    if |s| <= n then s else s[..n]
  }

  /** One line, for a key buffer of `klen` and a value buffer of `vlen` bytes. */
  function ParseLine(line: string, klen: nat, vlen: nat): Option<Pair>
    requires vlen > 0
  {
    var l := SkipBlanks(line);
    if |l| == 0 || l[0] == '#' || l[0] == '\r' || l[0] == '\n' then None
    else
      var eq := IndexOf(l, '=');
      if eq == -1 || eq == 0 || eq >= klen then None
      else
        var key := RTrim(l[..eq]);
        if |key| == 0 then None
        else Some(Pair(key, RTrim(Truncated(SkipBlanks(l[eq + 1..]), vlen - 1))))
  }

  // ---------------------------------------------------------------------
  // The table
  // ---------------------------------------------------------------------

  /** The position of `key`'s first pair, or the number of pairs. */
  function Position(cfg: seq<Pair>, key: string): (i: nat)
    ensures i <= |cfg|
    ensures i < |cfg| ==> cfg[i].key == key
    ensures forall j :: 0 <= j < i ==> cfg[j].key != key
  {
    if |cfg| == 0 || cfg[0].key == key then 0 else 1 + Position(cfg[1..], key)
  }

  function Get(cfg: seq<Pair>, key: string): Option<string> {
    var i := Position(cfg, key);
    if i < |cfg| then Some(cfg[i].value) else None
  }

  /** Update in place, or append while there is room. */
  function Set(cfg: seq<Pair>, key: string, value: string): Option<seq<Pair>> {
    var i := Position(cfg, key);
    var v := Truncated(value, CONFIG_MAX_VALUE - 1);
    if i < |cfg| then Some(cfg[i := cfg[i].(value := v)])
    else if |cfg| >= CONFIG_MAX_PAIRS then None
    else Some(cfg + [Pair(Truncated(key, CONFIG_MAX_KEY - 1), v)])
  }

  /** The reader's loop body: a pair that does not fit is dropped. */
  function Put(cfg: seq<Pair>, line: Option<Pair>): seq<Pair> {
    match line
    case None => cfg
    case Some(p) =>
      match Set(cfg, p.key, p.value)
      case None => cfg
      case Some(c) => c
  }

  // ---------------------------------------------------------------------
  // The file
  // ---------------------------------------------------------------------

  /** How much of the file one `fgets` takes: up to and including a newline,
      but no more than the buffer holds beside its terminator. */
  function ChunkLength(file: string): (n: nat)
    requires |file| > 0
    ensures 0 < n <= |file|
  {
    var end := IndexOf(file, '\n') + 1;
    var line := if end == 0 then |file| else end;
    if line < LINE_SIZE then line else LINE_SIZE - 1
  }

  function LineOf(chunk: string): Option<Pair> {
    ParseLine(CString(chunk), CONFIG_MAX_KEY, CONFIG_MAX_VALUE)
  }

  function ReadFrom(file: string, cfg: seq<Pair>): seq<Pair>
    decreases |file|
  {
    if |file| == 0 then cfg
    else
      var n := ChunkLength(file);
      ReadFrom(file[n..], Put(cfg, LineOf(file[..n])))
  }

  function Parse(file: string): seq<Pair> {
    ReadFrom(file, [])
  }

  /** A missing file reads as an empty table. */
  function Parsed(file: Option<string>): seq<Pair> {
    match file case None => [] case Some(text) => Parse(text)
  }

  const HEADER := "# robust-config key=value store\n"

  function PrintPair(p: Pair): string {
    p.key + "=" + p.value + "\n"
  }

  function PrintPairs(cfg: seq<Pair>): string {
    if |cfg| == 0 then "" else PrintPairs(cfg[..|cfg| - 1]) + PrintPair(cfg[|cfg| - 1])
  }

  function Print(cfg: seq<Pair>): string {
    HEADER + PrintPairs(cfg)
  }

  // ---------------------------------------------------------------------
  // What the parser can produce
  // ---------------------------------------------------------------------

  predicate NormalKey(k: string) {
    && 0 < |k| < CONFIG_MAX_KEY
    && IsText(k) && '=' !in k && '\n' !in k
    && !IsBlank(k[0]) && k[0] != '#' && k[0] != '\r' && !IsSpace(k[|k| - 1])
  }

  predicate NormalValue(v: string) {
    && |v| < CONFIG_MAX_VALUE
    && IsText(v) && '\n' !in v
    && (|v| > 0 ==> !IsBlank(v[0]) && !IsSpace(v[|v| - 1]))
  }

  predicate NormalPair(p: Pair) {
    NormalKey(p.key) && NormalValue(p.value)
  }

  predicate DistinctKeys(cfg: seq<Pair>) {
    forall i, j :: 0 <= i < j < |cfg| ==> cfg[i].key != cfg[j].key
  }

  predicate Normal(cfg: seq<Pair>) {
    && |cfg| <= CONFIG_MAX_PAIRS
    && DistinctKeys(cfg)
    && forall i :: 0 <= i < |cfg| ==> NormalPair(cfg[i])
  }

  // ---------------------------------------------------------------------
  // Everything parsed is normal
  // ---------------------------------------------------------------------

  /** A newline, if any, ends the chunk. */
  predicate OneLine(s: string) {
    forall i :: 0 <= i < |s| && s[i] == '\n' ==> i == |s| - 1
  }

  lemma ChunkIsOneLine(file: string)
    requires |file| > 0
    ensures OneLine(file[..ChunkLength(file)])
  {
    var end := IndexOf(file, '\n') + 1;
    var n := ChunkLength(file);
    forall i | 0 <= i < n && file[..n][i] == '\n'
      ensures i == n - 1
    {
      assert file[i] == '\n' && file[i] in file;
    }
  }

  lemma {:induction false} SkipBlanksIsSuffix(s: string)
    ensures SkipBlanks(s) == s[|s| - |SkipBlanks(s)|..]
    decreases |s|
  {
    if |s| > 0 && IsBlank(s[0]) {
      SkipBlanksIsSuffix(s[1..]);
    }
  }

  lemma {:induction false} RTrimIsPrefix(s: string)
    ensures RTrim(s) == s[..|RTrim(s)|]
    decreases |s|
  {
    if |s| > 0 && IsSpace(s[|s| - 1]) {
      RTrimIsPrefix(s[..|s| - 1]);
    }
  }

  lemma KeyIsNormal(l: string, eq: nat)
    requires IsText(l) && OneLine(l) && eq < |l| && IndexOf(l, '=') == eq && 0 < eq < CONFIG_MAX_KEY
    requires !IsBlank(l[0]) && l[0] != '#' && l[0] != '\r' && l[0] != '\n'
    ensures |RTrim(l[..eq])| > 0 ==> NormalKey(RTrim(l[..eq]))
  {
    hide RTrim;
    var k := RTrim(l[..eq]);
    RTrimIsPrefix(l[..eq]);
    forall i | 0 <= i < |k|
      ensures k[i] != NUL && k[i] != '=' && k[i] != '\n'
    {
      assert k[i] == l[i] && l[i] in l;
    }
  }

  lemma ValueIsNormal(rest: string)
    requires IsText(rest) && OneLine(rest)
    ensures NormalValue(RTrim(Truncated(SkipBlanks(rest), CONFIG_MAX_VALUE - 1)))
  {
    hide RTrim, SkipBlanks;
    var s := SkipBlanks(rest);
    var t := Truncated(s, CONFIG_MAX_VALUE - 1);
    var v := RTrim(t);
    SkipBlanksIsSuffix(rest);
    RTrimIsPrefix(t);
    forall i | 0 <= i < |v|
      ensures v[i] != '\n' && v[i] != NUL
    {
      assert v[i] == t[i] == s[i];
      var at := |rest| - |s| + i;
      assert rest[at] == v[i] && rest[at] in rest;
    }
  }

  lemma LineIsNormal(line: string)
    requires IsText(line) && OneLine(line)
    ensures match ParseLine(line, CONFIG_MAX_KEY, CONFIG_MAX_VALUE)
      case None => true
      case Some(p) => NormalPair(p)
  {
    hide NormalKey, NormalValue, RTrim, Truncated, IsSpace, SkipBlanks, IndexOf;
    var l := SkipBlanks(line);
    SkipBlanksIsSuffix(line);
    var eq := IndexOf(l, '=');
    if |l| > 0 && eq > 0 {
      assert OneLine(l) && OneLine(l[eq + 1..]);
      if eq < CONFIG_MAX_KEY && l[0] != '#' && l[0] != '\r' && l[0] != '\n' {
        KeyIsNormal(l, eq);
        ValueIsNormal(l[eq + 1..]);
      }
    }
  }

  lemma ChunkIsNormal(file: string)
    requires |file| > 0
    ensures match LineOf(file[..ChunkLength(file)]) case None => true case Some(p) => NormalPair(p)
  {
    hide ParseLine, NormalPair, ChunkLength;
    var chunk := file[..ChunkLength(file)];
    ChunkIsOneLine(file);
    var line := CString(chunk);
    assert OneLine(line);
    LineIsNormal(line);
  }

  lemma NormalFits(p: Pair)
    requires NormalPair(p)
    ensures Truncated(p.key, CONFIG_MAX_KEY - 1) == p.key && Truncated(p.value, CONFIG_MAX_VALUE - 1) == p.value
  {}

  lemma PutKeepsNormal(cfg: seq<Pair>, line: Option<Pair>)
    requires Normal(cfg) && (line.Some? ==> NormalPair(line.value))
    ensures Normal(Put(cfg, line))
  {
    hide NormalKey, NormalValue;
    if line.Some? {
      NormalFits(line.value);
    }
  }

  lemma {:induction false} ReadFromIsNormal(file: string, cfg: seq<Pair>)
    requires Normal(cfg)
    ensures Normal(ReadFrom(file, cfg))
    decreases |file|
  {
    hide Normal, LineOf, Put, ChunkLength, NormalPair;
    if |file| > 0 {
      var n := ChunkLength(file);
      ChunkIsNormal(file);
      PutKeepsNormal(cfg, LineOf(file[..n]));
      ReadFromIsNormal(file[n..], Put(cfg, LineOf(file[..n])));
    }
  }

  /** Every file parses to at most 64 pairs with distinct, well-formed keys. */
  lemma ParseIsNormal(file: string)
    ensures Normal(Parse(file))
  {
    ReadFromIsNormal(file, []);
  }

  lemma ParsedIsNormal(file: Option<string>)
    ensures Normal(Parsed(file))
  {
    match file
    case None => assert Normal([]);
    case Some(text) => ParseIsNormal(text);
  }

  // ---------------------------------------------------------------------
  // Printing what was parsed
  // ---------------------------------------------------------------------

  lemma RTrimDropsNewline(v: string)
    requires |v| > 0 ==> !IsSpace(v[|v| - 1])
    ensures RTrim(v + "\n") == v
  {
    assert (v + "\n")[..|v|] == v;
  }

  lemma {:induction false} IndexOfAfter(k: string, c: char, rest: string)
    requires c !in k
    ensures IndexOf(k + [c] + rest, c) == |k|
  {
    var s := k + [c] + rest;
    var i := IndexOf(s, c);
    assert s[|k|] == c;
    assert forall j :: 0 <= j < |k| ==> s[j] == k[j];
  }

  lemma ValueBack(v: string)
    requires NormalValue(v)
    ensures RTrim(Truncated(SkipBlanks(v + "\n"), CONFIG_MAX_VALUE - 1)) == v
  {
    assert SkipBlanks(v + "\n") == v + "\n";
    RTrimDropsNewline(v);
    assert Truncated(v + "\n", CONFIG_MAX_VALUE - 1) == if |v| < CONFIG_MAX_VALUE - 1 then v + "\n" else v;
  }

  lemma SkipNone(s: string)
    requires |s| > 0 && !IsBlank(s[0])
    ensures SkipBlanks(s) == s
  {}

  lemma TrimNone(s: string)
    requires |s| > 0 && !IsSpace(s[|s| - 1])
    ensures RTrim(s) == s
  {}

  lemma ParseSplit(line: string, eq: nat, klen: nat, vlen: nat)
    requires 0 < eq < |line| && eq < klen && vlen > 0 && IndexOf(line, '=') == eq
    requires !IsSpace(line[0]) && line[0] != '#' && !IsSpace(line[eq - 1])
    ensures ParseLine(line, klen, vlen) ==
      Some(Pair(line[..eq], RTrim(Truncated(SkipBlanks(line[eq + 1..]), vlen - 1))))
  {
    hide Truncated, SkipBlanks, RTrim, IndexOf;
    SkipNone(line);
    TrimNone(line[..eq]);
  }

  lemma KeyBack(k: string, rest: string)
    requires NormalKey(k)
    ensures ParseLine(k + ['='] + rest, CONFIG_MAX_KEY, CONFIG_MAX_VALUE) ==
      Some(Pair(k, RTrim(Truncated(SkipBlanks(rest), CONFIG_MAX_VALUE - 1))))
  {
    hide Truncated, SkipBlanks, RTrim, IndexOf, ParseLine;
    var line := k + ['='] + rest;
    IndexOfAfter(k, '=', rest);
    assert line[0] == k[0] && line[|k| - 1] == k[|k| - 1];
    ParseSplit(line, |k|, CONFIG_MAX_KEY, CONFIG_MAX_VALUE);
    assert line[..|k|] == k && line[|k| + 1..] == rest;
  }

  /** A normal pair's printed line parses back to it. */
  lemma LineRoundTrip(p: Pair)
    requires NormalPair(p)
    ensures ParseLine(PrintPair(p), CONFIG_MAX_KEY, CONFIG_MAX_VALUE) == Some(p)
  {
    hide ParseLine, NormalKey, NormalValue, RTrim, Truncated, SkipBlanks;
    assert PrintPair(p) == p.key + ['='] + (p.value + "\n");
    KeyBack(p.key, p.value + "\n");
    ValueBack(p.value);
  }

  /** The printed line of a normal pair is taken by one `fgets`, whole. */
  lemma LineFits(p: Pair, rest: string)
    requires NormalPair(p)
    ensures |PrintPair(p)| < LINE_SIZE
    ensures ChunkLength(PrintPair(p) + rest) == |PrintPair(p)|
    ensures CString(PrintPair(p)) == PrintPair(p)
  {
    var body := p.key + "=" + p.value;
    assert PrintPair(p) + rest == body + ['\n'] + rest;
    IndexOfAfter(body, '\n', rest);
    CStringOfText(PrintPair(p));
  }

  lemma ReadPair(p: Pair, rest: string, cfg: seq<Pair>)
    requires NormalPair(p)
    ensures ReadFrom(PrintPair(p) + rest, cfg) == ReadFrom(rest, Put(cfg, Some(p)))
  {
    hide ChunkLength, ParseLine, Put, NormalPair, CString;
    var file := PrintPair(p) + rest;
    LineFits(p, rest);
    LineRoundTrip(p);
    assert file[..|PrintPair(p)|] == PrintPair(p) && file[|PrintPair(p)|..] == rest;
  }

  lemma PutAppends(cfg: seq<Pair>, i: nat)
    requires Normal(cfg) && i < |cfg|
    ensures Put(cfg[..i], Some(cfg[i])) == cfg[..i + 1]
  {
    NormalFits(cfg[i]);
  }

  lemma {:induction false} ReadPairs(cfg: seq<Pair>, n: nat, rest: string)
    requires Normal(cfg) && n <= |cfg|
    ensures ReadFrom(PrintPairs(cfg[..n]) + rest, []) == ReadFrom(rest, cfg[..n])
    decreases n
  {
    hide Normal, Put, ReadFrom, PrintPair;
    if n == 0 {
      assert PrintPairs(cfg[..0]) + rest == rest;
    } else {
      var p := cfg[n - 1];
      assert cfg[..n][..n - 1] == cfg[..n - 1];
      assert PrintPairs(cfg[..n]) + rest == PrintPairs(cfg[..n - 1]) + (PrintPair(p) + rest);
      ReadPairs(cfg, n - 1, PrintPair(p) + rest);
      assert NormalPair(p) by { NormalAt(cfg, n - 1); }
      ReadPair(p, rest, cfg[..n - 1]);
      PutAppends(cfg, n - 1);
    }
  }

  lemma NormalAt(cfg: seq<Pair>, i: nat)
    requires Normal(cfg) && i < |cfg|
    ensures NormalPair(cfg[i])
  {}

  lemma CommentParses(line: string)
    requires IsText(line) && |line| > 0 && line[0] == '#'
    ensures LineOf(line) == None
  {
    hide RTrim, Truncated, IndexOf, CString;
    CStringOfText(line);
    SkipNone(line);
  }

  lemma CommentIsSkipped(body: string, rest: string)
    requires IsText(body) && '\n' !in body && 0 < |body| < LINE_SIZE - 1 && body[0] == '#'
    ensures ReadFrom(body + ['\n'] + rest, []) == ReadFrom(rest, [])
  {
    hide LineOf, IndexOf;
    var line := body + ['\n'];
    var file := line + rest;
    IndexOfAfter(body, '\n', rest);
    assert file[..|line|] == line && file[|line|..] == rest;
    assert line[0] == '#';
    CommentParses(line);
  }

  lemma HeaderIsSkipped(rest: string)
    ensures ReadFrom(HEADER + rest, []) == ReadFrom(rest, [])
  {
    hide ReadFrom;
    var body := "# robust-config key=value store";
    assert HEADER == body + ['\n'];
    CommentIsSkipped(body, rest);
  }

  /** What is printed reads back unchanged, in order. */
  lemma PrintThenParse(cfg: seq<Pair>)
    requires Normal(cfg)
    ensures Parse(Print(cfg)) == cfg
  {
    hide Normal, ReadFrom, PrintPairs;
    HeaderIsSkipped(PrintPairs(cfg));
    assert cfg[..|cfg|] == cfg;
    ReadPairs(cfg, |cfg|, "");
    assert PrintPairs(cfg) + "" == PrintPairs(cfg);
    assert ReadFrom("", cfg) == cfg by { ReadNothing(cfg); }
  }

  lemma ReadNothing(cfg: seq<Pair>)
    ensures ReadFrom("", cfg) == cfg
  {}

  /** Rewriting any file in the daemon's own form changes nothing it means. */
  lemma TextNormalForm(file: string)
    ensures Parse(Print(Parse(file))) == Parse(file)
  {
    ParseIsNormal(file);
    PrintThenParse(Parse(file));
  }

  // ---------------------------------------------------------------------
  // Updates through the file
  // ---------------------------------------------------------------------

  lemma SetKeepsNormal(cfg: seq<Pair>, key: string, value: string)
    requires Normal(cfg) && NormalPair(Pair(key, value)) && Set(cfg, key, value).Some?
    ensures Normal(Set(cfg, key, value).value)
  {
    PutKeepsNormal(cfg, Some(Pair(key, value)));
  }

  lemma GetIsNormal(cfg: seq<Pair>, key: string)
    requires Normal(cfg) && Get(cfg, key).Some?
    ensures NormalPair(Pair(key, Get(cfg, key).value))
  {
    hide NormalKey, NormalValue;
    var i := Position(cfg, key);
    assert cfg[i] == Pair(key, cfg[i].value);
  }

  lemma GetAfterSet(cfg: seq<Pair>, key: string, value: string, other: string)
    requires Normal(cfg) && NormalPair(Pair(key, value)) && Set(cfg, key, value).Some?
    ensures Get(Set(cfg, key, value).value, other) == if other == key then Some(value) else Get(cfg, other)
  {
    hide NormalKey, NormalValue;
    NormalFits(Pair(key, value));
    var c := Set(cfg, key, value).value;
    var i := Position(cfg, key);
    assert i == |cfg| ==> c[i].key == key;
    SamePosition(cfg, c, if i < |cfg| then |cfg| else i, other);
  }

  lemma SamePosition(a: seq<Pair>, b: seq<Pair>, n: nat, key: string)
    requires n <= |a| && n <= |b| && forall j :: 0 <= j < n ==> a[j].key == b[j].key
    ensures Position(a, key) < n || Position(b, key) < n ==> Position(a, key) == Position(b, key)
  {
    var i, j := Position(a, key), Position(b, key);
    if i < n {
      assert b[i].key == key;
    }
    if j < n {
      assert a[j].key == key;
    }
  }

  /** An update is read back from the printed file exactly when its key and
      value are ones the parser itself can produce; every other key is then
      untouched. */
  lemma UpdateReadsBackIff(cfg: seq<Pair>, key: string, value: string)
    requires Normal(cfg) && Set(cfg, key, value).Some?
    ensures var after := Parse(Print(Set(cfg, key, value).value));
      && (Get(after, key) == Some(value) <==> NormalPair(Pair(key, value)))
      && (NormalPair(Pair(key, value)) ==> forall other :: other != key ==> Get(after, other) == Get(cfg, other))
  {
    hide Normal, NormalPair, Print, Parse, Get, Set;
    var c := Set(cfg, key, value).value;
    ParseIsNormal(Print(c));
    if Get(Parse(Print(c)), key) == Some(value) {
      GetIsNormal(Parse(Print(c)), key);
    }
    if NormalPair(Pair(key, value)) {
      SetKeepsNormal(cfg, key, value);
      PrintThenParse(c);
      forall other
        ensures Get(c, other) == if other == key then Some(value) else Get(cfg, other)
      {
        GetAfterSet(cfg, key, value, other);
      }
    }
  }
}
