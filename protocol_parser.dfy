/** The parsers of `show protocols all` text (src/protocolParser.ts): route
    counts, route-change statistics, one channel block, a BGP capability
    block, a BGP timer, and the active and passive BGP session bodies. Each
    regex of the source is a call to a scan of JsRegex, whose contract says
    which part of the text the regex picks. */
module ProtocolParser {
  import opened Wrappers
  import opened JsRegex
  import opened JsNumber
  import opened BirdTypes

  // ---------------------------------------------------------------------------
  // protocolRoutesParser

  /** The maximal digit runs of the text, none for an absent text. */
  function DigitRuns(text: Option<string>): (runs: seq<string>)
    ensures forall t :: t in runs ==> t != [] && AllMatch(t, Digits)
  {
    if text.Some? then Tokens(text.value, Digits) else []
  }

  function CountAt(runs: seq<string>, k: nat): Option<nat>
    requires forall t :: t in runs ==> AllMatch(t, Digits)
  {
    if k < |runs| then assert runs[k] in runs; Some(DecimalValue(runs[k])) else None
  }

  /** The first, second and third runs of digits are the imported, exported and
      preferred counts; a count whose run is missing is absent. */
  function RoutesParser(text: Option<string>): (r: ProtocolRoutes)
    ensures text.None? ==> r == ProtocolRoutes(None, None, None)
    ensures r.preferred.Some? ==> r.exported.Some?
    ensures r.exported.Some? ==> r.imported.Some?
  {
    var runs := DigitRuns(text);
    ProtocolRoutes(CountAt(runs, 0), CountAt(runs, 1), CountAt(runs, 2))
  }

  /** A text without digits, like an absent one, has no counts. */
  lemma RoutesAbsentWithoutDigits(text: Option<string>)
    requires text.Some? ==> NoneMatch(text.value, Digits)
    ensures RoutesParser(text) == ProtocolRoutes(None, None, None)
  {
    if text.Some? {
      KeepNone(text.value, Digits);
      TokensEmpty(text.value, Digits);
    }
  }

  /** `imported` is the first maximal run of digits, wherever it stands. */
  lemma RoutesImportedIsFirstRun(gap: string, run: string, rest: string)
    requires NoneMatch(gap, Digits) && IsNumeral(run)
    requires rest == [] || !IsDigit(rest[0])
    ensures RoutesParser(Some(gap + run + rest)).imported == Some(DecimalValue(run))
  {
    assert gap + run + rest == gap + (run + rest);
    TokensSkip(gap, run + rest, Digits);
    TokensHead(run, rest, Digits);
  }

  /** Runs after the third do not matter. */
  lemma RoutesIgnoreLaterRuns(text: string, sep: string, later: string)
    requires sep != [] && NoneMatch(sep, Digits)
    requires |DigitRuns(Some(text))| >= 3
    ensures RoutesParser(Some(text + sep + later)) == RoutesParser(Some(text))
  {
    TokensSplit(text, sep, later, Digits);
    var runs, all := DigitRuns(Some(text)), DigitRuns(Some(text + sep + later));
    assert all[0] == runs[0] && all[1] == runs[1] && all[2] == runs[2];
  }

  /** The rest of the `Routes:` line as the daemon prints it. */
  function RoutesLine(imported: nat, exported: nat, preferred: nat): string {
    DecimalText(imported) + " imported, " + DecimalText(exported) + " exported, "
      + DecimalText(preferred) + " preferred"
  }

  /** The parser reads back the three counts the daemon prints. */
  lemma RoutesRoundTrip(imported: nat, exported: nat, preferred: nat)
    ensures RoutesParser(Some(RoutesLine(imported, exported, preferred)))
         == ProtocolRoutes(Some(imported), Some(exported), Some(preferred))
  {
    var a, b, c := DecimalText(imported), DecimalText(exported), DecimalText(preferred);
    var s1, s2, s3 := " imported, ", " exported, ", " preferred";
    assert NoneMatch(s1, Digits) && NoneMatch(s2, Digits) && NoneMatch(s3, Digits);
    assert RoutesLine(imported, exported, preferred) == a + s1 + (b + s2 + (c + s3 + []));
    TokensSplit(c, s3, [], Digits);
    TokensOfRun(c, Digits);
    TokensSplit(b, s2, c + s3 + [], Digits);
    TokensOfRun(b, Digits);
    TokensSplit(a, s1, b + s2 + (c + s3 + []), Digits);
    TokensOfRun(a, Digits);
    DecimalTextValue(imported);
    DecimalTextValue(exported);
    DecimalTextValue(preferred);
  }

  // ---------------------------------------------------------------------------
  // protocolRouteChangeStatsParser

  /** The maximal runs over 0-9 ( ? : - ), none for an absent text. */
  function StatTokens(text: Option<string>): seq<string> {
    if text.Some? then Tokens(text.value, StatChars) else []
  }

  /** `---` is "not applicable"; any other token goes through parseInt. */
  function StatValue(token: string): Option<JsInt> {
    if token == "---" then None else Some(ParseInt(token))
  }

  function StatAt(tokens: seq<string>, k: nat): Option<JsInt> {
    if k < |tokens| then StatValue(tokens[k]) else None
  }

  /** The five fields in order. */
  function StatsList(s: ProtocolRouteChangeStats): seq<Option<JsInt>> {
    [s.received, s.rejected, s.filtered, s.ignored, s.accepted]
  }

  const NoStats := ProtocolRouteChangeStats(None, None, None, None, None)

  function RouteChangeStatsParser(text: Option<string>): (r: ProtocolRouteChangeStats)
    ensures text.None? ==> r == NoStats
    ensures forall k :: |StatTokens(text)| <= k < 5 ==> StatsList(r)[k] == None
  {
    var tokens := StatTokens(text);
    ProtocolRouteChangeStats(StatAt(tokens, 0), StatAt(tokens, 1), StatAt(tokens, 2), StatAt(tokens, 3), StatAt(tokens, 4))
  }

  /** How the daemon prints one statistic: a count, or `---`. */
  function StatText(v: Option<nat>): string {
    match v
    case None => "---"
    case Some(n) => DecimalText(n)
  }

  function StatTexts(vs: seq<Option<nat>>): (ts: seq<string>)
    ensures |ts| == |vs| && forall k :: 0 <= k < |vs| ==> ts[k] == StatText(vs[k])
  {
    if vs == [] then [] else [StatText(vs[0])] + StatTexts(vs[1..])
  }

  /** What the parser should give for a printed statistic. */
  function StatOf(v: Option<nat>): Option<JsInt> {
    match v
    case None => None
    case Some(n) => Some(Int(n))
  }

  lemma StatValueOfText(v: Option<nat>)
    ensures StatValue(StatText(v)) == StatOf(v)
  {
    if v.Some? {
      var t := DecimalText(v.value);
      assert t[0] != '-';
      ParseIntDecimalText(v.value);
    }
  }

  /** Every printed statistic is one run of the statistics character class. */
  lemma StatTextsAreRuns(vs: seq<Option<nat>>)
    ensures forall p :: p in StatTexts(vs) ==> p != [] && AllMatch(p, StatChars)
  {
    var texts := StatTexts(vs);
    forall p | p in texts ensures p != [] && AllMatch(p, StatChars) {
      var k :| 0 <= k < |texts| && texts[k] == p;
      if vs[k].Some? {
        assert AllMatch(DecimalText(vs[k].value), Digits);
      }
    }
  }

  /** The k-th field is the k-th token's value. */
  lemma StatsPositional(text: Option<string>)
    ensures forall k :: 0 <= k < 5 ==> StatsList(RouteChangeStatsParser(text))[k] == StatAt(StatTokens(text), k)
  {
    var ts := StatTokens(text);
    var r := RouteChangeStatsParser(text);
    assert r == ProtocolRouteChangeStats(StatAt(ts, 0), StatAt(ts, 1), StatAt(ts, 2), StatAt(ts, 3), StatAt(ts, 4));
    FieldsInOrder(r, ts);
  }

  lemma FieldsInOrder(r: ProtocolRouteChangeStats, ts: seq<string>)
    requires r == ProtocolRouteChangeStats(StatAt(ts, 0), StatAt(ts, 1), StatAt(ts, 2), StatAt(ts, 3), StatAt(ts, 4))
    ensures forall k :: 0 <= k < 5 ==> StatsList(r)[k] == StatAt(ts, k)
  {
    forall k | 0 <= k < 5 ensures StatsList(r)[k] == StatAt(ts, k) {
      if k == 0 {} else if k == 1 {} else if k == 2 {} else if k == 3 {} else {}
    }
  }

  /** Up to five statistics printed space-separated are read back positionally;
      the fields after the last printed one are absent. */
  lemma StatsRoundTrip(vs: seq<Option<nat>>)
    requires |vs| <= 5
    ensures forall k :: 0 <= k < 5 ==>
      StatsList(RouteChangeStatsParser(Some(Join(StatTexts(vs), " "))))[k] == (if k < |vs| then StatOf(vs[k]) else None)
  {
    var texts := StatTexts(vs);
    var line := Some(Join(texts, " "));
    StatTextsAreRuns(vs);
    assert NoneMatch(" ", StatChars);
    TokensOfJoin(texts, " ", StatChars);
    assert StatTokens(line) == texts;
    forall k | 0 <= k < 5 ensures StatAt(texts, k) == (if k < |vs| then StatOf(vs[k]) else None) {
      if k < |vs| {
        StatValueOfText(vs[k]);
      }
    }
    StatsPositional(line);
  }

  lemma ExampleStatsLine()
    ensures Join(StatTexts([Some(10), Some(2), None, Some(0), Some(8)]), " ") == "10 2 --- 0 8"
  {
    assert DecimalText(10) == "10" && DecimalText(2) == "2" && DecimalText(0) == "0" && DecimalText(8) == "8";
    assert StatTexts([Some(10), Some(2), None, Some(0), Some(8)]) == ["10", "2", "---", "0", "8"];
    ExampleJoin();
  }

  lemma ExampleJoin()
    ensures Join(["10", "2", "---", "0", "8"], " ") == "10 2 --- 0 8"
  {
    var texts := ["10", "2", "---", "0", "8"];
    assert texts[1..] == ["2", "---", "0", "8"];
    assert texts[1..][1..] == ["---", "0", "8"];
    assert texts[1..][1..][1..] == ["0", "8"];
    assert texts[1..][1..][1..][1..] == ["8"];
    assert Join(["0", "8"], " ") == "0 8";
    assert Join(["---", "0", "8"], " ") == "--- 0 8";
    assert Join(["2", "---", "0", "8"], " ") == "2 --- 0 8";
  }

  /** The worked example: `10 2 --- 0 8`. */
  lemma StatsExample()
    ensures RouteChangeStatsParser(Some("10 2 --- 0 8"))
         == ProtocolRouteChangeStats(Some(Int(10)), Some(Int(2)), None, Some(Int(0)), Some(Int(8)))
  {
    var vs := [Some(10), Some(2), None, Some(0), Some(8)];
    var expected := ProtocolRouteChangeStats(Some(Int(10)), Some(Int(2)), None, Some(Int(0)), Some(Int(8)));
    ExampleStatsLine();
    StatsRoundTrip(vs);
    var r := RouteChangeStatsParser(Some("10 2 --- 0 8"));
    forall k | 0 <= k < 5 ensures StatsList(r)[k] == StatsList(expected)[k] {
      assert StatsList(r)[k] == StatOf(vs[k]);
    }
    StatsListInjective(r, expected);
  }

  lemma StatsListInjective(x: ProtocolRouteChangeStats, y: ProtocolRouteChangeStats)
    requires forall k :: 0 <= k < 5 ==> StatsList(x)[k] == StatsList(y)[k]
    ensures x == y
  {
    assert StatsList(x)[0] == StatsList(y)[0] && StatsList(x)[1] == StatsList(y)[1];
    assert StatsList(x)[2] == StatsList(y)[2] && StatsList(x)[3] == StatsList(y)[3];
    assert StatsList(x)[4] == StatsList(y)[4];
  }

  // ---------------------------------------------------------------------------
  // protocolChannelParser

  /** `o?.split(" ")` for an optional captured line. */
  function SplitOption(o: Option<string>): Option<seq<string>> {
    match o
    case None => None
    case Some(line) => Some(Split(line, ' '))
  }

  function ChannelParser(text: string): (r: ProtocolChannel)
    ensures r.channel <= text && '\n' !in r.channel
    ensures |r.channel| == |text| || text[|r.channel|] == '\n'
    ensures IsFirstCapture(text, "State: ", NonSpace, r.state)
    ensures IsFirstCapture(text, "Table: ", NonSpace, r.table)
    ensures IsFirstCapture(text, "Preference: ", NonSpace, r.preference)
    ensures IsFirstCapture(text, "Input filter: ", NonSpace, r.inputFilter)
    ensures IsFirstCapture(text, "Output filter: ", NonSpace, r.outputFilter)
    ensures IsFirstCapture(text, "Import limit: ", NonSpace, r.importLimit)
    ensures IsFirstCapture(text, "Action: ", NonSpace, r.action)
    ensures forall line :: IsFirstCapture(text, "Routes: ", NonNewline, line) ==> r.routes == RoutesParser(line)
    ensures forall line :: IsFirstCapture(text, "Import updates: ", NonNewline, line) ==>
      r.routeChangeStats.importUpdates == RouteChangeStatsParser(line)
    ensures forall line :: IsFirstCapture(text, "Import withdraws: ", NonNewline, line) ==>
      r.routeChangeStats.importWithdraws == RouteChangeStatsParser(line)
    ensures forall line :: IsFirstCapture(text, "Export updates: ", NonNewline, line) ==>
      r.routeChangeStats.exportUpdates == RouteChangeStatsParser(line)
    ensures forall line :: IsFirstCapture(text, "Export withdraws: ", NonNewline, line) ==>
      r.routeChangeStats.exportWithdraws == RouteChangeStatsParser(line)
    ensures forall line :: IsFirstCapture(text, "BGP Next hop: ", NonNewline, line) ==>
      r.bgpNextHop == SplitOption(line)
  {
    CaptureAfterIsTheCapture(text, "Routes: ", NonNewline);
    CaptureAfterIsTheCapture(text, "Import updates: ", NonNewline);
    CaptureAfterIsTheCapture(text, "Import withdraws: ", NonNewline);
    CaptureAfterIsTheCapture(text, "Export updates: ", NonNewline);
    CaptureAfterIsTheCapture(text, "Export withdraws: ", NonNewline);
    CaptureAfterIsTheCapture(text, "BGP Next hop: ", NonNewline);
    ProtocolChannel(
      FirstLine(text),
      CaptureAfter(text, "State: ", NonSpace),
      CaptureAfter(text, "Table: ", NonSpace),
      CaptureAfter(text, "Preference: ", NonSpace),
      CaptureAfter(text, "Input filter: ", NonSpace),
      CaptureAfter(text, "Output filter: ", NonSpace),
      CaptureAfter(text, "Import limit: ", NonSpace),
      CaptureAfter(text, "Action: ", NonSpace),
      RoutesParser(CaptureAfter(text, "Routes: ", NonNewline)),
      RouteChangeStats(
        RouteChangeStatsParser(CaptureAfter(text, "Import updates: ", NonNewline)),
        RouteChangeStatsParser(CaptureAfter(text, "Import withdraws: ", NonNewline)),
        RouteChangeStatsParser(CaptureAfter(text, "Export updates: ", NonNewline)),
        RouteChangeStatsParser(CaptureAfter(text, "Export withdraws: ", NonNewline))),
      SplitOption(CaptureAfter(text, "BGP Next hop: ", NonNewline)))
  }

  /** Without its label, a statistics line leaves all five fields absent, and
      without `BGP Next hop: ` there is no next-hop list. */
  lemma ChannelMissingLabels(text: string)
    ensures !Occurs(text, "Import updates: ") ==> ChannelParser(text).routeChangeStats.importUpdates == NoStats
    ensures !Occurs(text, "Import withdraws: ") ==> ChannelParser(text).routeChangeStats.importWithdraws == NoStats
    ensures !Occurs(text, "Export updates: ") ==> ChannelParser(text).routeChangeStats.exportUpdates == NoStats
    ensures !Occurs(text, "Export withdraws: ") ==> ChannelParser(text).routeChangeStats.exportWithdraws == NoStats
    ensures !Occurs(text, "BGP Next hop: ") ==> ChannelParser(text).bgpNextHop == None
  {
    var keys := ["Import updates: ", "Import withdraws: ", "Export updates: ", "Export withdraws: ", "BGP Next hop: "];
    forall key | key in keys && !Occurs(text, key) ensures IsFirstCapture(text, key, NonNewline, None) {
      assert forall i :: CaptureStart(text, key, NonNewline, i) ==> OccursAt(text, key, i);
    }
  }

  /** The next-hop list, joined with spaces, is the rest of the `BGP Next hop: ` line. */
  lemma ChannelNextHopIsLine(text: string)
    requires ChannelParser(text).bgpNextHop.Some?
    ensures IsFirstCapture(text, "BGP Next hop: ", NonNewline, Some(Join(ChannelParser(text).bgpNextHop.value, " ")))
  {
    var line := CaptureAfter(text, "BGP Next hop: ", NonNewline);
    JoinSplit(line.value, ' ');
  }

  // ---------------------------------------------------------------------------
  // protcoolCapabilitiesParser

  /** `text.match(key)?.at(1)!.split(" ") ?? []`. */
  function SplitOrEmpty(o: Option<string>): seq<string> {
    match o
    case None => []
    case Some(v) => Split(v, ' ')
  }

  function CapabilitiesParser(text: string): (r: BgpCapabilities)
    ensures r.routeRefresh <==> Occurs(text, "Route refresh")
    ensures r.extendedMessage <==> Occurs(text, "Extended message")
    ensures r.gracefulRestart <==> Occurs(text, "Graceful restart")
    ensures r.fourOctetASNumbers <==> Occurs(text, "4-octet AS numbers")
    ensures r.enhancedRefresh <==> Occurs(text, "Enhanced refresh")
    ensures r.longLivedGracefulRestart <==> Occurs(text, "Long-lived graceful restart")
    ensures forall af :: IsFirstCapture(text, "AF announced: ", LowerAlnumSpace, af) ==>
      r.multiprotocol.afAnnounced == SplitOrEmpty(af)
    ensures r.multiprotocol.afAnnounced == [] <==> !HasCapture(text, "AF announced: ", LowerAlnumSpace)
    ensures |r.extendedNextHop.ipv6NextHop| <= 1
    ensures forall hop :: IsFirstCapture(text, "IPv6 nexthop: ", NonSpace, hop) ==>
      r.extendedNextHop.ipv6NextHop == (if hop.Some? then [hop.value] else [])
  {
    var af := CaptureAfter(text, "AF announced: ", LowerAlnumSpace);
    var hop := CaptureAfter(text, "IPv6 nexthop: ", NonSpace);
    CaptureAfterIsTheCapture(text, "AF announced: ", LowerAlnumSpace);
    CaptureAfterIsTheCapture(text, "IPv6 nexthop: ", NonSpace);
    var hops := if hop.Some? then SplitNoSeparator(hop.value, ' '); Split(hop.value, ' ') else [];
    BgpCapabilities(
      Multiprotocol(SplitOrEmpty(af)),
      Includes(text, "Route refresh"),
      ExtendedNextHop(hops),
      Includes(text, "Extended message"),
      Includes(text, "Graceful restart"),
      Includes(text, "4-octet AS numbers"),
      Includes(text, "Enhanced refresh"),
      Includes(text, "Long-lived graceful restart"))
  }

  // ---------------------------------------------------------------------------
  // protocolBgpTimerParser (the split only)

  /** `text.split("/")`: `current` is the text before the first `/` (all of it
      when there is none), and `max` the text from there to the next `/`. */
  function TimerParser(text: string): (r: BgpTimer)
    ensures r.current <= text && '/' !in r.current
    ensures |r.current| == |text| || text[|r.current|] == '/'
    ensures r.max.None? <==> '/' !in text
    ensures r.max.Some? ==> var rest := text[|r.current| + 1..];
      r.max.value <= rest && '/' !in r.max.value && (|r.max.value| == |rest| || rest[|r.max.value|] == '/')
  {
    var parts := Split(text, '/');
    SplitHead(text, '/');
    if |parts[0]| == |text| then
      assert text[..|parts[0]|] == text;
      SplitNoSeparator(text, '/');
      BgpTimer(parts[0], None)
    else
      var rest := text[|parts[0]| + 1..];
      assert text == parts[0] + ['/'] + rest;
      SplitAtSeparator(parts[0], rest, '/');
      SplitHead(rest, '/');
      BgpTimer(parts[0], Some(parts[1]))
  }

  /** `current/max` (with anything after a second `/` ignored) gives back the two numerals. */
  lemma TimerRoundTrip(current: string, max: string, rest: seq<string>)
    requires '/' !in current && '/' !in max && forall p :: p in rest ==> '/' !in p
    ensures TimerParser(Join([current, max] + rest, "/")) == BgpTimer(current, Some(max))
  {
    var parts := [current, max] + rest;
    assert forall p :: p in parts ==> '/' !in p;
    SplitJoin(parts, '/');
  }

  /** The worked example `4/20`. */
  lemma TimerExample()
    ensures TimerParser("4/20") == BgpTimer("4", Some("20"))
  {
    TimerRoundTrip("4", "20", []);
    assert Join(["4", "20"] + [], "/") == "4/20";
  }

  // ---------------------------------------------------------------------------
  // protocolBgpParser and protocolPassiveBgpParser

  /** One regex the BGP parsers require to match: `key(cls+)`, read at capture
      group 1, or `start(.|\n)+?(?=stop)`, read as the whole match. */
  datatype Pattern = Capture(key: string, cls: CharClass) | Between(start: string, stop: string)

  /** The source dereferences a failed match and throws; the model names the pattern. */
  datatype ParseError = NoMatch(pattern: Pattern)

  const NeighborAddress := Capture("Neighbor address: ", NonSpace)
  const NeighborRange := Capture("Neighbor range: ", NonSpace)
  const NeighborAS := Capture("Neighbor AS: ", Digits)
  const LocalAS := Capture("Local AS: ", Digits)
  const NeighborID := Capture("Neighbor ID: ", NonSpace)
  const LocalCapabilities := Between("Local capabilities\n", "Neighbor capabilities")
  const NeighborCapabilities := Between("Neighbor capabilities\n", "Session:")
  const Session := Capture("Session: ", NonNewline)
  const SourceAddress := Capture("Source address: ", NonSpace)
  const HoldTimer := Capture("Hold timer: ", TimerChars)
  const KeepaliveTimer := Capture("Keepalive timer: ", TimerChars)
  const SendHoldTimer := Capture("Send hold timer: ", TimerChars)

  /** The patterns of an active session, in the order the source evaluates them. */
  const BgpPatterns := [NeighborAddress, NeighborAS, LocalAS, NeighborID, LocalCapabilities,
                        NeighborCapabilities, Session, SourceAddress, HoldTimer, KeepaliveTimer, SendHoldTimer]

  const PassiveBgpPatterns := [NeighborRange, NeighborAS, LocalAS]

  /** The text a pattern picks, described declaratively. */
  ghost predicate Picks(text: string, p: Pattern, o: Option<string>) {
    match p
    case Capture(key, cls) => IsFirstCapture(text, key, cls, o)
    case Between(start, stop) => IsFirstSlice(text, start, stop, o)
  }

  ghost predicate Matched(text: string, p: Pattern) {
    match p
    case Capture(key, cls) => HasCapture(text, key, cls)
    case Between(start, stop) => HasSlice(text, start, stop)
  }

  function Find(text: string, p: Pattern): (r: Option<string>)
    ensures Picks(text, p, r)
    ensures r.Some? <==> Matched(text, p)
    ensures p.Capture? && r.Some? ==> r.value != [] && AllMatch(r.value, p.cls)
  {
    match p
    case Capture(key, cls) => CaptureAfter(text, key, cls)
    case Between(start, stop) => FirstSlice(text, start, stop)
  }

  lemma FindIsThePick(text: string, p: Pattern)
    ensures forall o :: Picks(text, p, o) ==> o == Find(text, p)
  {
    match p
    case Capture(key, cls) => CaptureAfterIsTheCapture(text, key, cls);
    case Between(start, stop) => FirstSliceIsTheSlice(text, start, stop);
  }

  ghost predicate IsFirstUnmatched(text: string, ps: seq<Pattern>, k: int) {
    0 <= k < |ps| && !Matched(text, ps[k]) && forall j :: 0 <= j < k ==> Matched(text, ps[j])
  }

  /** The position of the first pattern without a match: where the source throws. */
  function FirstUnmatched(text: string, ps: seq<Pattern>): (r: Option<nat>)
    ensures r.None? <==> forall j :: 0 <= j < |ps| ==> Matched(text, ps[j])
    ensures r.Some? ==> IsFirstUnmatched(text, ps, r.value)
  {
    if ps == [] then None
    else if Find(text, ps[0]).None? then Some(0)
    else match FirstUnmatched(text, ps[1..])
      case None => None
      case Some(k) => Some(k + 1)
  }

  /** What an active session record says about its text. */
  ghost predicate BgpReadFrom(t: string, b: ProtocolBgp) {
    && b.state == FirstLine(t)
    && (forall o :: Picks(t, NeighborAddress, o) ==> o == Some(b.neighborAddress))
    && (forall o :: Picks(t, NeighborAS, o) ==> o.Some? && AllMatch(o.value, Digits) && b.neighborAS == DecimalValue(o.value))
    && (forall o :: Picks(t, LocalAS, o) ==> o.Some? && AllMatch(o.value, Digits) && b.localAS == DecimalValue(o.value))
    && (forall o :: Picks(t, NeighborID, o) ==> o == Some(b.neighborID))
    && (forall o :: Picks(t, LocalCapabilities, o) ==> o.Some? && b.localCapabilities == CapabilitiesParser(o.value))
    && (forall o :: Picks(t, NeighborCapabilities, o) ==> o.Some? && b.neighborCapabilities == CapabilitiesParser(o.value))
    && (forall o :: Picks(t, Session, o) ==> o.Some? && b.session == Split(o.value, ' '))
    && (forall o :: Picks(t, SourceAddress, o) ==> o == Some(b.sourceAddress))
    && (forall o :: Picks(t, HoldTimer, o) ==> o.Some? && b.holdTimer == TimerParser(o.value))
    && (forall o :: Picks(t, KeepaliveTimer, o) ==> o.Some? && b.keepaliveTimer == TimerParser(o.value))
    && (forall o :: Picks(t, SendHoldTimer, o) ==> o.Some? && b.sendHoldTimer == TimerParser(o.value))
  }

  function ReadBgp(t: string): (b: ProtocolBgp)
    requires forall p :: p in BgpPatterns ==> Matched(t, p)
    ensures BgpReadFrom(t, b)
  {
    FindIsThePick(t, NeighborAddress);
    FindIsThePick(t, NeighborAS);
    FindIsThePick(t, LocalAS);
    FindIsThePick(t, NeighborID);
    FindIsThePick(t, LocalCapabilities);
    FindIsThePick(t, NeighborCapabilities);
    FindIsThePick(t, Session);
    FindIsThePick(t, SourceAddress);
    FindIsThePick(t, HoldTimer);
    FindIsThePick(t, KeepaliveTimer);
    FindIsThePick(t, SendHoldTimer);
    ProtocolBgp(
      FirstLine(t),
      Find(t, NeighborAddress).value,
      DecimalValue(Find(t, NeighborAS).value),
      DecimalValue(Find(t, LocalAS).value),
      Find(t, NeighborID).value,
      CapabilitiesParser(Find(t, LocalCapabilities).value),
      CapabilitiesParser(Find(t, NeighborCapabilities).value),
      Split(Find(t, Session).value, ' '),
      Find(t, SourceAddress).value,
      TimerParser(Find(t, HoldTimer).value),
      TimerParser(Find(t, KeepaliveTimer).value),
      TimerParser(Find(t, SendHoldTimer).value))
  }

  /** An absent body gives nothing; otherwise every pattern must match, and the
      first that does not is the error. */
  function BgpParser(text: Option<string>): (r: Result<Option<ProtocolBgp>, ParseError>)
    ensures text.None? ==> r == Ok(None)
    ensures text.Some? ==> (r.Ok? <==> forall p :: p in BgpPatterns ==> Matched(text.value, p))
    ensures text.Some? && r.Ok? ==> r.value.Some? && BgpReadFrom(text.value, r.value.value)
    ensures text.Some? && r.Err? ==>
      exists k :: IsFirstUnmatched(text.value, BgpPatterns, k) && r.error == NoMatch(BgpPatterns[k])
  {
    if text.None? then Ok(None)
    else
      var t := text.value;
      match FirstUnmatched(t, BgpPatterns)
      case Some(k) => Err(NoMatch(BgpPatterns[k]))
      case None => Ok(Some(ReadBgp(t)))
  }

  /** What a passive session record says about its text. */
  ghost predicate PassiveBgpReadFrom(t: string, b: ProtocolPassiveBgp) {
    && b.state == FirstLine(t)
    && (forall o :: Picks(t, NeighborRange, o) ==> o == Some(b.neighborRange))
    && (forall o :: Picks(t, NeighborAS, o) ==> o.Some? && AllMatch(o.value, Digits) && b.neighborAS == DecimalValue(o.value))
    && (forall o :: Picks(t, LocalAS, o) ==> o.Some? && AllMatch(o.value, Digits) && b.localAS == DecimalValue(o.value))
  }

  function PassiveBgpParser(text: Option<string>): (r: Result<Option<ProtocolPassiveBgp>, ParseError>)
    ensures text.None? ==> r == Ok(None)
    ensures text.Some? ==> (r.Ok? <==> forall p :: p in PassiveBgpPatterns ==> Matched(text.value, p))
    ensures text.Some? && r.Ok? ==> r.value.Some? && PassiveBgpReadFrom(text.value, r.value.value)
    ensures text.Some? && r.Err? ==>
      exists k :: IsFirstUnmatched(text.value, PassiveBgpPatterns, k) && r.error == NoMatch(PassiveBgpPatterns[k])
  {
    if text.None? then Ok(None)
    else
      var t := text.value;
      match FirstUnmatched(t, PassiveBgpPatterns)
      case Some(k) => Err(NoMatch(PassiveBgpPatterns[k]))
      case None =>
        assert Matched(t, PassiveBgpPatterns[0]) && Matched(t, PassiveBgpPatterns[1]) && Matched(t, PassiveBgpPatterns[2]);
        FindIsThePick(t, NeighborRange);
        FindIsThePick(t, NeighborAS);
        FindIsThePick(t, LocalAS);
        Ok(Some(ProtocolPassiveBgp(
          FirstLine(t),
          Find(t, NeighborRange).value,
          DecimalValue(Find(t, NeighborAS).value),
          DecimalValue(Find(t, LocalAS).value))))
  }

  /** The literal text a pattern cannot match without. */
  function KeyOf(p: Pattern): string {
    match p
    case Capture(key, _) => key
    case Between(start, _) => start
  }

  lemma UnmatchedWithoutKey(t: string, p: Pattern)
    requires !Occurs(t, KeyOf(p))
    ensures !Matched(t, p)
  {
    match p
    case Capture(key, cls) =>
      assert forall i :: CaptureStart(t, key, cls, i) ==> OccursAt(t, key, i);
    case Between(start, stop) =>
      assert forall i, j :: SliceAt(t, start, stop, i, j) ==> OccursAt(t, start, i);
  }

  /** A session body without one of the required labels fails to parse. */
  lemma BgpNeedsEveryKey(t: string, p: Pattern)
    requires p in BgpPatterns && !Occurs(t, KeyOf(p))
    ensures BgpParser(Some(t)).Err?
  {
    UnmatchedWithoutKey(t, p);
  }

  lemma PassiveBgpNeedsEveryKey(t: string, p: Pattern)
    requires p in PassiveBgpPatterns && !Occurs(t, KeyOf(p))
    ensures PassiveBgpParser(Some(t)).Err?
  {
    UnmatchedWithoutKey(t, p);
  }
}
