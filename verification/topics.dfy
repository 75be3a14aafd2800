/** Machine configurations, the decoder topics chosen for a measured byte flow,
    and which messages the resulting MQTT filters receive (topic levels and
    wildcards as in section 4.7 of MQTT 3.1.1). */
module Topics {
  import opened Options

  const MAX_DECODER_TOPICS := 256

  datatype MachineConfig = MachineConfig(machineSn: string, serialPort: string, minDelta: int,
                                         maxModule: int, maxUnit: int)

  datatype Error = BadMachineSn | BadSerialPort | NotPositive(name: string) | TooManyTopics

  predicate IsAlphanumeric(c: char) {
    'A' <= c <= 'Z' || 'a' <= c <= 'z' || '0' <= c <= '9'
  }

  predicate SnChar(c: char) {
    IsAlphanumeric(c) || c == '.' || c == '_' || c == ':' || c == '-'
  }

  predicate PortChar(c: char) {
    IsAlphanumeric(c) || c == '.' || c == '_' || c == '-'
  }

  predicate IsAll(port: string) {
    && |port| == 3
    && (port[0] == 'a' || port[0] == 'A') && (port[1] == 'l' || port[1] == 'L') && (port[2] == 'l' || port[2] == 'L')
  }

  /** The first complaint the constructor raises, if any. */
  function Check(c: MachineConfig): Option<Error> {
    if |c.machineSn| == 0 || |c.machineSn| > 128 ||
      (exists i :: 0 <= i < |c.machineSn| && !SnChar(c.machineSn[i])) then Some(BadMachineSn)
    else if !IsAll(c.serialPort) &&
      (|c.serialPort| > 31 || exists i :: 0 <= i < |c.serialPort| && !PortChar(c.serialPort[i]))
    then Some(BadSerialPort)
    else if c.minDelta <= 0 then Some(NotPositive("min_delta"))
    else if c.maxModule <= 0 then Some(NotPositive("max_module"))
    else if c.maxUnit <= 0 then Some(NotPositive("max_unit"))
    else if c.maxModule * c.maxUnit > MAX_DECODER_TOPICS then Some(TooManyTopics)
    else None
  }

  predicate Accepted(c: MachineConfig) {
    Check(c) == None
  }

  // ---------------------------------------------------------------------
  // The chosen topics
  // ---------------------------------------------------------------------

  function Digit(n: nat): char
    requires n < 10
  {
    "0123456789"[n]
  }

  function Decimal(n: nat): (s: string)
    ensures |s| > 0
  {
    if n < 10 then [Digit(n)] else Decimal(n / 10) + [Digit(n % 10)]
  }

  function MachineFilter(sn: string): string {
    sn + "/" + "#"
  }

  function ModuleFilter(sn: string, m: nat): string {
    sn + "/" + (Decimal(m) + "/" + "#")
  }

  function UnitFilter(sn: string, m: nat, u: nat): string {
    sn + "/" + (Decimal(m) + "/" + (Decimal(u) + "/" + "#"))
  }

  function ModuleFilters(sn: string, modules: int): set<string> {
    set m: int | 1 <= m <= modules :: ModuleFilter(sn, m)
  }

  function UnitFilters(sn: string, modules: int, units: int): set<string> {
    set m: int, u: int | 1 <= m <= modules && 1 <= u <= units :: UnitFilter(sn, m, u)
  }

  function DetermineTopics(delta: int, c: MachineConfig): set<string> {
    if delta < c.minDelta then {MachineFilter(c.machineSn)}
    else if delta < 2 * c.minDelta then ModuleFilters(c.machineSn, c.maxModule)
    else UnitFilters(c.machineSn, c.maxModule, c.maxUnit)
  }

  // ---------------------------------------------------------------------
  // MQTT matching
  // ---------------------------------------------------------------------

  /** The levels between slashes. */
  function Levels(s: string): (r: seq<string>)
    ensures |r| > 0
  {
    if |s| == 0 then [""]
    else
      var rest := Levels(s[1..]);
      if s[0] == '/' then [""] + rest else [[s[0]] + rest[0]] + rest[1..]
  }

  /** `+` stands for one level, a final `#` for its parent and everything below. */
  predicate MatchLevels(filter: seq<string>, topic: seq<string>) {
    if filter == ["#"] then true
    else if |filter| == 0 || |topic| == 0 then |filter| == |topic|
    else (filter[0] == "+" || filter[0] == topic[0]) && MatchLevels(filter[1..], topic[1..])
  }

  /** Filters that begin with a wildcard do not see topics that begin with `$`. */
  predicate Matches(filter: string, topic: string) {
    && (|filter| > 0 && (filter[0] == '#' || filter[0] == '+') ==> !(|topic| > 0 && topic[0] == '$'))
    && MatchLevels(Levels(filter), Levels(topic))
  }

  /** Where machine `sn` publishes point `p` of unit `u` in module `m`; `p` may
      have further levels. */
  function PointTopic(sn: string, m: nat, u: nat, p: string): string {
    sn + "/" + (Decimal(m) + "/" + (Decimal(u) + "/" + p))
  }

  // ---------------------------------------------------------------------
  // Decimal numerals
  // ---------------------------------------------------------------------

  function Number(s: string): int {
    if |s| == 0 then 0 else Number(s[..|s| - 1]) * 10 + (s[|s| - 1] as int - '0' as int)
  }

  lemma {:induction false} DecimalIsNumber(n: nat)
    ensures Number(Decimal(n)) == n
    decreases n
  {
    var s := Decimal(n);
    if n < 10 {
      assert s[..0] == "";
    } else {
      DecimalIsNumber(n / 10);
      assert s[..|s| - 1] == Decimal(n / 10);
    }
  }

  /** Different numbers have different numerals. */
  lemma DecimalInjective(a: nat, b: nat)
    requires Decimal(a) == Decimal(b)
    ensures a == b
  {
    DecimalIsNumber(a);
    DecimalIsNumber(b);
  }

  /** Usable as one topic level, and not a wildcard. */
  predicate Plain(s: string) {
    |s| > 0 && forall i :: 0 <= i < |s| ==> s[i] != '/' && s[i] != '#' && s[i] != '+' && s[i] != '$'
  }

  lemma {:induction false} DecimalIsPlain(n: nat)
    ensures Plain(Decimal(n))
    decreases n
  {
    if n >= 10 {
      DecimalIsPlain(n / 10);
    }
  }

  /** A configuration is accepted exactly when its names are short and made of the
      allowed characters, its limits positive, and its points few enough. */
  lemma AcceptedIff(c: MachineConfig)
    ensures Accepted(c)
      <==> && 1 <= |c.machineSn| <= 128 && (forall ch :: ch in c.machineSn ==> SnChar(ch))
           && (IsAll(c.serialPort) || (|c.serialPort| <= 31 && forall ch :: ch in c.serialPort ==> PortChar(ch)))
           && 1 <= c.minDelta && 1 <= c.maxModule && 1 <= c.maxUnit && c.maxModule * c.maxUnit <= 256
  {
    if exists i :: 0 <= i < |c.machineSn| && !SnChar(c.machineSn[i]) {
      var i :| 0 <= i < |c.machineSn| && !SnChar(c.machineSn[i]);
      assert c.machineSn[i] in c.machineSn;
    }
    if exists i :: 0 <= i < |c.serialPort| && !PortChar(c.serialPort[i]) {
      var i :| 0 <= i < |c.serialPort| && !PortChar(c.serialPort[i]);
      assert c.serialPort[i] in c.serialPort;
    }
  }

  lemma AcceptedIsPlain(c: MachineConfig)
    requires Accepted(c)
    ensures Plain(c.machineSn)
  {
    var s := c.machineSn;
    forall i | 0 <= i < |s|
      ensures s[i] != '/' && s[i] != '#' && s[i] != '+' && s[i] != '$'
    {
      assert SnChar(s[i]);
    }
  }

  // ---------------------------------------------------------------------
  // What a filter receives
  // ---------------------------------------------------------------------

  lemma {:induction false} LevelsOfJoin(a: string, rest: string)
    requires forall i :: 0 <= i < |a| ==> a[i] != '/'
    ensures Levels(a + "/" + rest) == [a] + Levels(rest)
    decreases |a|
  {
    var s := a + "/" + rest;
    if |a| == 0 {
      assert s[1..] == rest;
    } else {
      LevelsOfJoin(a[1..], rest);
      assert s[1..] == a[1..] + "/" + rest;
      assert Levels(s[1..])[1..] == Levels(rest);
      assert [a[0]] + a[1..] == a;
    }
  }

  lemma LevelsOfHash()
    ensures Levels("#") == ["#"]
  {
    assert "#"[1..] == "" && ['#'] + "" == "#";
    assert Levels("")[1..] == [];
  }

  /** A filter of plain levels followed by `#` receives exactly the topics that
      begin with those levels. */
  lemma {:induction false} HashMatches(prefix: seq<string>, topic: seq<string>)
    requires forall i :: 0 <= i < |prefix| ==> Plain(prefix[i])
    ensures MatchLevels(prefix + ["#"], topic) <==> prefix <= topic
    decreases |prefix|
  {
    var filter := prefix + ["#"];
    if |prefix| == 0 {
      assert filter == ["#"];
    } else {
      assert |filter| > 1;
      assert filter[1..] == prefix[1..] + ["#"];
      if |topic| > 0 {
        HashMatches(prefix[1..], topic[1..]);
        assert Plain(prefix[0]) && filter[0] == prefix[0];
        assert prefix[0] != "+" by {
          assert "+"[0] == '+';
        }
        assert prefix <= topic <==> prefix[0] == topic[0] && prefix[1..] <= topic[1..] by {
          PrefixSplits(prefix, topic);
        }
      }
    }
  }

  lemma PrefixSplits(prefix: seq<string>, topic: seq<string>)
    requires |prefix| > 0 && |topic| > 0
    ensures prefix <= topic <==> prefix[0] == topic[0] && prefix[1..] <= topic[1..]
  {
    if prefix[0] == topic[0] && prefix[1..] <= topic[1..] {
      assert prefix == [prefix[0]] + prefix[1..] && topic == [topic[0]] + topic[1..];
    }
    if prefix <= topic {
      assert prefix == topic[..|prefix|];
      assert prefix[1..] == topic[1..][..|prefix| - 1];
    }
  }

  /** The levels of a tier's filter, without the `#`. */
  lemma FilterLevels(sn: string, m: nat, u: nat)
    requires Plain(sn)
    ensures Levels(MachineFilter(sn)) == [sn] + ["#"]
    ensures Levels(ModuleFilter(sn, m)) == [sn, Decimal(m)] + ["#"]
    ensures Levels(UnitFilter(sn, m, u)) == [sn, Decimal(m), Decimal(u)] + ["#"]
  {
    hide Levels;
    LevelsOfHash();
    DecimalIsPlain(m);
    DecimalIsPlain(u);
    LevelsOfJoin(sn, "#");
    LevelsOfJoin(Decimal(m), "#");
    LevelsOfJoin(Decimal(u), "#");
    LevelsOfJoin(sn, Decimal(m) + "/" + "#");
    LevelsOfJoin(Decimal(m), Decimal(u) + "/" + "#");
    LevelsOfJoin(sn, Decimal(m) + "/" + (Decimal(u) + "/" + "#"));
  }

  lemma TopicLevels(sn: string, m: nat, u: nat, p: string)
    requires Plain(sn)
    ensures Levels(PointTopic(sn, m, u, p)) == [sn, Decimal(m), Decimal(u)] + Levels(p)
  {
    hide Levels;
    DecimalIsPlain(m);
    DecimalIsPlain(u);
    LevelsOfJoin(Decimal(u), p);
    LevelsOfJoin(Decimal(m), Decimal(u) + "/" + p);
    LevelsOfJoin(sn, Decimal(m) + "/" + (Decimal(u) + "/" + p));
  }

  /** A point's messages reach the filters that name its machine, its module or
      its unit, and no other. */
  lemma PointMatchesIff(sn: string, m: nat, u: nat, p: string, i: nat, j: nat)
    requires Plain(sn)
    ensures Matches(MachineFilter(sn), PointTopic(sn, m, u, p))
    ensures Matches(ModuleFilter(sn, i), PointTopic(sn, m, u, p)) <==> i == m
    ensures Matches(UnitFilter(sn, i, j), PointTopic(sn, m, u, p)) <==> i == m && j == u
  {
    hide Levels, MatchLevels, Decimal;
    var t := [sn, Decimal(m), Decimal(u)] + Levels(p);
    TopicLevels(sn, m, u, p);
    FilterLevels(sn, i, j);
    DecimalIsPlain(i);
    DecimalIsPlain(j);
    HashMatches([sn], t);
    HashMatches([sn, Decimal(i)], t);
    HashMatches([sn, Decimal(i), Decimal(j)], t);
    assert t[0] == sn && t[1] == Decimal(m) && t[2] == Decimal(u);
    assert t[..1] == [sn] && t[..2] == [sn, Decimal(m)] && t[..3] == [sn, Decimal(m), Decimal(u)];
    if Decimal(i) == Decimal(m) {
      DecimalInjective(i, m);
    }
    if Decimal(j) == Decimal(u) {
      DecimalInjective(j, u);
    }
  }

  /** Some decoder receives the topic. */
  ghost predicate IsRead(filters: set<string>, topic: string) {
    exists f :: f in filters && Matches(f, topic)
  }

  /** No two decoders receive the topic. */
  ghost predicate NotReadTwice(filters: set<string>, topic: string) {
    forall f, g | f in filters && g in filters :: Matches(f, topic) && Matches(g, topic) ==> f == g
  }

  /** In every tier each point of the machine is received by exactly one decoder. */
  lemma TiersPartition(delta: int, c: MachineConfig, m: int, u: int, p: string)
    requires Accepted(c) && 1 <= m <= c.maxModule && 1 <= u <= c.maxUnit
    ensures IsRead(DetermineTopics(delta, c), PointTopic(c.machineSn, m, u, p))
    ensures NotReadTwice(DetermineTopics(delta, c), PointTopic(c.machineSn, m, u, p))
  {
    hide Matches, MachineFilter, ModuleFilter, UnitFilter, PointTopic, Plain;
    var sn := c.machineSn;
    AcceptedIsPlain(c);
    var own := if delta < c.minDelta then MachineFilter(sn)
               else if delta < 2 * c.minDelta then ModuleFilter(sn, m) else UnitFilter(sn, m, u);
    PointMatchesIff(sn, m, u, p, m, u);
    assert own in DetermineTopics(delta, c);
    forall f | f in DetermineTopics(delta, c) && Matches(f, PointTopic(sn, m, u, p))
      ensures f == own
    {
      if delta >= 2 * c.minDelta {
        var i: int, j: int :| 1 <= i <= c.maxModule && 1 <= j <= c.maxUnit && f == UnitFilter(sn, i, j);
        PointMatchesIff(sn, m, u, p, i, j);
      } else if delta >= c.minDelta {
        var i: int :| 1 <= i <= c.maxModule && f == ModuleFilter(sn, i);
        PointMatchesIff(sn, m, u, p, i, u);
      }
    }
  }

  // ---------------------------------------------------------------------
  // Machines do not see each other
  // ---------------------------------------------------------------------

  /** Everything a machine's filters receive is under its own serial number. */
  lemma FilterStaysHome(delta: int, c: MachineConfig, f: string, topic: string)
    requires Accepted(c) && f in DetermineTopics(delta, c) && Matches(f, topic)
    ensures Levels(topic)[0] == c.machineSn
  {
    hide Levels, MatchLevels, Decimal, Plain, Accepted, MachineFilter, ModuleFilter, UnitFilter;
    var sn := c.machineSn;
    AcceptedIsPlain(c);
    if delta < c.minDelta {
      FilterLevels(sn, 0, 0);
      HashMatches([sn], Levels(topic));
    } else if delta < 2 * c.minDelta {
      var i: int :| 1 <= i <= c.maxModule && f == ModuleFilter(sn, i);
      FilterLevels(sn, i, 0);
      DecimalIsPlain(i);
      HashMatches([sn, Decimal(i)], Levels(topic));
    } else {
      var i: int, j: int :| 1 <= i <= c.maxModule && 1 <= j <= c.maxUnit && f == UnitFilter(sn, i, j);
      FilterLevels(sn, i, j);
      DecimalIsPlain(i);
      DecimalIsPlain(j);
      HashMatches([sn, Decimal(i), Decimal(j)], Levels(topic));
    }
  }

  /** Two machines' decoders can receive the same message exactly when the
      machines share a serial number, whatever tier each is in. */
  lemma MachinesOverlapIff(d1: int, c1: MachineConfig, d2: int, c2: MachineConfig)
    requires Accepted(c1) && Accepted(c2)
    ensures (exists topic, f, g :: f in DetermineTopics(d1, c1) && g in DetermineTopics(d2, c2)
                                   && Matches(f, topic) && Matches(g, topic))
      <==> c1.machineSn == c2.machineSn
  {
    hide Matches, Levels, DetermineTopics, Accepted;
    if c1.machineSn == c2.machineSn {
      AcceptedCounts(c1);
      AcceptedCounts(c2);
      TiersPartition(d1, c1, 1, 1, "");
      TiersPartition(d2, c2, 1, 1, "");
    }
    forall topic, f, g | f in DetermineTopics(d1, c1) && g in DetermineTopics(d2, c2) &&
      Matches(f, topic) && Matches(g, topic)
      ensures c1.machineSn == c2.machineSn
    {
      FilterStaysHome(d1, c1, f, topic);
      FilterStaysHome(d2, c2, g, topic);
    }
  }

  lemma AcceptedCounts(c: MachineConfig)
    requires Accepted(c)
    ensures 1 <= c.maxModule && 1 <= c.maxUnit && c.maxModule * c.maxUnit <= MAX_DECODER_TOPICS
  {}

  // ---------------------------------------------------------------------
  // How many decoders
  // ---------------------------------------------------------------------

  lemma FiltersInjective(sn: string, m: nat, u: nat, i: nat, j: nat)
    requires Plain(sn)
    ensures ModuleFilter(sn, m) == ModuleFilter(sn, i) ==> m == i
    ensures UnitFilter(sn, m, u) == UnitFilter(sn, i, j) ==> m == i && u == j
  {
    hide Matches, ModuleFilter, UnitFilter, Plain;
    PointMatchesIff(sn, m, u, "", m, u);
    PointMatchesIff(sn, m, u, "", i, j);
  }

  lemma {:induction false} ModuleCount(sn: string, n: nat)
    requires Plain(sn)
    ensures |ModuleFilters(sn, n)| == n
    decreases n
  {
    hide ModuleFilter, Plain;
    if n == 0 {
      assert ModuleFilters(sn, 0) == {};
    } else {
      ModuleCount(sn, n - 1);
      assert ModuleFilters(sn, n) == ModuleFilters(sn, n - 1) + {ModuleFilter(sn, n)};
      forall m: int | 1 <= m <= n - 1
        ensures ModuleFilter(sn, m) != ModuleFilter(sn, n)
      {
        FiltersInjective(sn, m, 0, n, 0);
      }
    }
  }

  /** One module's row of unit filters. */
  function Row(sn: string, m: nat, units: int): set<string> {
    set u: int | 1 <= u <= units :: UnitFilter(sn, m, u)
  }

  lemma {:induction false} RowCount(sn: string, m: nat, n: nat)
    requires Plain(sn)
    ensures |Row(sn, m, n)| == n
    decreases n
  {
    hide UnitFilter, Plain;
    if n == 0 {
      assert Row(sn, m, 0) == {};
    } else {
      RowCount(sn, m, n - 1);
      assert Row(sn, m, n) == Row(sn, m, n - 1) + {UnitFilter(sn, m, n)};
      forall u: int | 1 <= u <= n - 1
        ensures UnitFilter(sn, m, u) != UnitFilter(sn, m, n)
      {
        FiltersInjective(sn, m, u, m, n);
      }
    }
  }

  lemma RowIsNew(sn: string, n: nat, units: nat)
    requires Plain(sn) && n > 0
    ensures UnitFilters(sn, n - 1, units) !! Row(sn, n, units)
  {
    hide UnitFilter, Plain;
    forall f | f in UnitFilters(sn, n - 1, units)
      ensures f !in Row(sn, n, units)
    {
      var m: int, u: int :| 1 <= m <= n - 1 && 1 <= u <= units && f == UnitFilter(sn, m, u);
      forall v: int | 1 <= v <= units
        ensures f != UnitFilter(sn, n, v)
      {
        FiltersInjective(sn, m, u, n, v);
      }
    }
  }

  lemma RowsAdd(sn: string, n: nat, units: nat)
    requires n > 0
    ensures UnitFilters(sn, n, units) == UnitFilters(sn, n - 1, units) + Row(sn, n, units)
  {
    hide UnitFilter;
  }

  lemma {:induction false} UnitCount(sn: string, n: nat, units: nat)
    requires Plain(sn)
    ensures |UnitFilters(sn, n, units)| == n * units
    decreases n
  {
    hide UnitFilter, Plain, Row, UnitFilters;
    if n == 0 {
      NoRows(sn, units);
    } else {
      UnitCount(sn, n - 1, units);
      RowCount(sn, n, units);
      RowsAdd(sn, n, units);
      RowIsNew(sn, n, units);
      assert n * units == (n - 1) * units + units;
    }
  }

  lemma NoRows(sn: string, units: nat)
    ensures UnitFilters(sn, 0, units) == {}
  {}

  /** One decoder, one per module, or one per unit; never more than the limit. */
  lemma TopicCount(delta: int, c: MachineConfig)
    requires Accepted(c)
    ensures |DetermineTopics(delta, c)| ==
      if delta < c.minDelta then 1
      else if delta < 2 * c.minDelta then c.maxModule
      else c.maxModule * c.maxUnit
    ensures 1 <= |DetermineTopics(delta, c)| <= MAX_DECODER_TOPICS
  {
    hide Plain, Accepted, ModuleFilters, UnitFilters;
    AcceptedIsPlain(c);
    AcceptedCounts(c);
    ModuleCount(c.machineSn, c.maxModule);
    UnitCount(c.machineSn, c.maxModule, c.maxUnit);
    ProductBounds(c.maxModule, c.maxUnit);
  }

  lemma ProductBounds(a: nat, b: nat)
    requires 1 <= a && 1 <= b
    ensures a <= a * b && 1 <= a * b
  {
    assert a * b == a + a * (b - 1);
  }
}
