/** FFCVParser (apps/results_pars/services/ffcv_parser.py): the generic table scan of the
    team's fixtures page, the row parser that turns one row's text into a ParsedMatch, and
    the target-team filter.

    A page is what BeautifulSoup hands over: a sequence of tables, each a sequence of rows.
    A row carries the texts of its cells (`c.get_text(" ", strip=True)`), its own text
    (`tr.get_text(" ", strip=True)`) and the absolute URL of its first link, if it has one
    (`urljoin(base_url + "/", href)`); these are inputs to the model. */
module FfcvParser {
  import opened Wrappers
  import opened Text
  import opened Calendar
  import opened ResultsModels
  import opened ScoreRegex
  import opened RoundRegex
  import opened VenueRegex
  import opened DateTimeRegex
  import opened TeamsRegex

  /** One parsed fixture row. */
  datatype ParsedMatch = ParsedMatch(
    externalKey: string,
    sourceUrl: string,
    competitionName: string,
    seasonName: Option<string>,
    roundNumber: Option<nat>,
    kickoffAt: Option<DateTime>,
    homeName: string,
    awayName: string,
    homeScore: Option<nat>,
    awayScore: Option<nat>,
    status: MatchStatus,
    resultNote: Option<string>,
    venueName: Option<string>)

  datatype Row = Row(cells: seq<string>, text: string, link: Option<string>)

  /** The parser's settings. They are fixed at construction and never change afterwards. */
  datatype Parser = Parser(baseUrl: string, teamMatchesUrlTemplate: string, targetTeamId: string, targetTeamName: string)

  /** str.rstrip("/") */
  function RStripSlash(s: string): (r: string)
    ensures r <= s && (r == [] || r[|r| - 1] != '/')
    ensures forall k :: |r| <= k < |s| ==> s[k] == '/'
    decreases |s|
  {
    if s != [] && s[|s| - 1] == '/' then RStripSlash(s[..|s| - 1]) else s
  }

  /** FFCVParser(base_url, team_matches_url_template, target_team_id, target_team_name). */
  function NewParser(baseUrl: string, template: string, targetTeamId: string, targetTeamName: string): (p: Parser)
    ensures p.baseUrl <= baseUrl && (p.baseUrl == [] || p.baseUrl[|p.baseUrl| - 1] != '/')
    ensures forall k :: |p.baseUrl| <= k < |baseUrl| ==> baseUrl[k] == '/'
    ensures p.targetTeamName == [] ||
            (!IsSpace(p.targetTeamName[0]) && !IsSpace(p.targetTeamName[|p.targetTeamName| - 1]))
    ensures p.teamMatchesUrlTemplate == template && p.targetTeamId == targetTeamId
  {
    Parser(RStripSlash(baseUrl), template, targetTeamId, Strip(targetTeamName))
  }

  // ---------------------------------------------------------------------------
  // The target-team filter

  /** _is_target_match: the lower-cased target name occurs in the lower-cased home or away name. */
  predicate IsTargetMatch(p: Parser, home: string, away: string) {
    var t := Lower(p.targetTeamName);
    Contains(Lower(home), t) || Contains(Lower(away), t)
  }

  /** The configured name is stripped before it is compared: a side that contains the
      stripped name, in any letter case, makes the row a target match. */
  lemma TargetNameStripped(baseUrl: string, template: string, id: string, name: string, home: string, away: string, i: nat)
    requires var t := Lower(Strip(name)); i + |t| <= |home| && t <= Lower(home)[i..]
    ensures IsTargetMatch(NewParser(baseUrl, template, id, name), home, away)
  {
    var t := Lower(Strip(name));
    assert 0 <= i <= |Lower(home)| - |t|;
  }

  /** A configured name that is empty or only whitespace keeps every row. */
  lemma BlankTargetKeepsAll(p: Parser, home: string, away: string)
    requires p.targetTeamName == []
    ensures IsTargetMatch(p, home, away)
  {
    assert Lower(p.targetTeamName) <= Lower(home)[0..];
  }

  // ---------------------------------------------------------------------------
  // Status, kickoff and the external key

  /** The status chain of _parse_match_row: PLAYED with a score; without one, a postponement
      word wins over a cancellation word, and SCHEDULED is the fallback. */
  function InferStatus(score: Option<(nat, nat)>, lowered: string): (s: MatchStatus)
    ensures s != Unknown
    ensures s == Played <==> score.Some?
    ensures s == Postponed <==> score.None? && (Contains(lowered, "aplaz") || Contains(lowered, "suspend"))
    ensures s == Cancelled <==> score.None? && !Contains(lowered, "aplaz") && !Contains(lowered, "suspend") &&
                                (Contains(lowered, "anul") || Contains(lowered, "cancel"))
  {
    if score.Some? then Played
    else if Contains(lowered, "aplaz") || Contains(lowered, "suspend") then Postponed
    else if Contains(lowered, "anul") || Contains(lowered, "cancel") then Cancelled
    else Scheduled
  }

  /** _extract_datetime: no date-time pattern gives None; otherwise datetime(y, mo, d, hh, mm)
      is built from the groups, and its ValueError propagates. */
  function ExtractDatetime(text: string): Result<Option<DateTime>, Exception> {
    match FindDateTime(text)
    case None => Ok(None)
    case Some(g) =>
      match Construct(g.year, g.month, g.day, g.hour, g.minute)
      case Ok(dt) => Ok(Some(dt))
      case Err(e) => Err(e)
  }

  /** The three outcomes of _extract_datetime. */
  lemma ExtractDatetimeSpec(text: string)
    ensures ExtractDatetime(text) == Ok(None) <==>
              forall i: nat, dl: nat, ml: nat, t: nat, hl: nat :: !DatePattern(text, i, dl, ml, t, hl)
    ensures ExtractDatetime(text).Err? <==>
              FindDateTime(text).Some? &&
              var g := FindDateTime(text).value;
              !Valid(DateTime(g.year, g.month, g.day, g.hour, g.minute))
    ensures ExtractDatetime(text).Err? ==> ExtractDatetime(text).error.kind == ValueError
    ensures ExtractDatetime(text).Ok? && ExtractDatetime(text).value.Some? ==>
              var g := FindDateTime(text).value;
              ExtractDatetime(text).value.value == DateTime(g.year, g.month, g.day, g.hour, g.minute) &&
              Valid(ExtractDatetime(text).value.value)
  {
    FindDateTimeNone(text);
  }

  const NoKickoff := "nodt"
  const NoRound := "nornd"

  function KickoffText(kickoff: Option<DateTime>): string {
    if kickoff.Some? then Format(kickoff.value) else NoKickoff
  }

  function RoundText(round: Option<nat>): string {
    if round.Some? then NatToString(round.value) else NoRound
  }

  /** The five fields of f"{home}|{away}|{dt}|{rnd}|{source_url}". */
  function KeyFields(sourceUrl: string, home: string, away: string, kickoff: Option<DateTime>, round: Option<nat>): seq<string> {
    [home, away, KickoffText(kickoff), RoundText(round), sourceUrl]
  }

  function KeyCore(sourceUrl: string, home: string, away: string, kickoff: Option<DateTime>, round: Option<nat>): string {
    Join(KeyFields(sourceUrl, home, away, kickoff, round), '|')
  }

  /** _make_external_key: the five fields joined by '|', every whitespace run collapsed to one
      space, and the result stripped. */
  function MakeExternalKey(sourceUrl: string, home: string, away: string, kickoff: Option<DateTime>, round: Option<nat>): string {
    Strip(CollapseSpaces(KeyCore(sourceUrl, home, away, kickoff, round)))
  }

  /** An external key neither starts nor ends with whitespace, holds no whitespace other than
      single spaces, and never two of them in a row. */
  lemma ExternalKeyNormalised(sourceUrl: string, home: string, away: string, kickoff: Option<DateTime>, round: Option<nat>)
    ensures Normal(MakeExternalKey(sourceUrl, home, away, kickoff, round))
  {
    Normalised(KeyCore(sourceUrl, home, away, kickoff, round));
  }

  /** The kickoff and round fields of a key hold neither whitespace nor '|'. */
  lemma SentinelFieldsPlain(kickoff: Option<DateTime>, round: Option<nat>)
    requires kickoff.Some? ==> Valid(kickoff.value)
    ensures NoSpace(KickoffText(kickoff)) && '|' !in KickoffText(kickoff)
    ensures NoSpace(RoundText(round)) && '|' !in RoundText(round)
  {
    if kickoff.Some? {
      FormatRoundTrip(kickoff.value);
      assert forall k :: 0 <= k < 12 ==> IsDigit(Format(kickoff.value)[k]);
    } else {
      assert forall k :: 0 <= k < |NoKickoff| ==> NoKickoff[k] in "nodt";
    }
    if round.Some? {
      var r := NatToString(round.value);
      assert forall k :: 0 <= k < |r| ==> IsDigit(r[k]);
    } else {
      assert forall k :: 0 <= k < |NoRound| ==> NoRound[k] in "nornd";
    }
  }

  /** When home, away and the source URL hold neither whitespace nor '|', the key is the plain
      '|'-joined text and splitting it on '|' gives the five fields back. */
  lemma ExternalKeyFields(sourceUrl: string, home: string, away: string, kickoff: Option<DateTime>, round: Option<nat>)
    requires NoSpace(home) && NoSpace(away) && NoSpace(sourceUrl)
    requires '|' !in home && '|' !in away && '|' !in sourceUrl
    requires kickoff.Some? ==> Valid(kickoff.value)
    ensures MakeExternalKey(sourceUrl, home, away, kickoff, round) == KeyCore(sourceUrl, home, away, kickoff, round)
    ensures Split(MakeExternalKey(sourceUrl, home, away, kickoff, round), '|') ==
            KeyFields(sourceUrl, home, away, kickoff, round)
  {
    SentinelFieldsPlain(kickoff, round);
    var fields := KeyFields(sourceUrl, home, away, kickoff, round);
    JoinNoSpace(fields, '|');
    NormalisedPlain(Join(fields, '|'));
    SplitJoin(fields, '|');
  }

  /** Two keys built from whitespace-free, '|'-free names and URLs and from valid kickoffs are
      equal only when all five fields are. */
  lemma ExternalKeyInjective(u1: string, h1: string, a1: string, k1: Option<DateTime>, r1: Option<nat>,
                             u2: string, h2: string, a2: string, k2: Option<DateTime>, r2: Option<nat>)
    requires NoSpace(h1) && NoSpace(a1) && NoSpace(u1) && '|' !in h1 && '|' !in a1 && '|' !in u1
    requires NoSpace(h2) && NoSpace(a2) && NoSpace(u2) && '|' !in h2 && '|' !in a2 && '|' !in u2
    requires (k1.Some? ==> Valid(k1.value)) && (k2.Some? ==> Valid(k2.value))
    requires MakeExternalKey(u1, h1, a1, k1, r1) == MakeExternalKey(u2, h2, a2, k2, r2)
    ensures u1 == u2 && h1 == h2 && a1 == a2 && k1 == k2 && r1 == r2
  {
    ExternalKeyFields(u1, h1, a1, k1, r1);
    ExternalKeyFields(u2, h2, a2, k2, r2);
    KickoffTextInjective(k1, k2);
    RoundTextInjective(r1, r2);
  }

  lemma KickoffTextInjective(k1: Option<DateTime>, k2: Option<DateTime>)
    requires (k1.Some? ==> Valid(k1.value)) && (k2.Some? ==> Valid(k2.value))
    requires KickoffText(k1) == KickoffText(k2)
    ensures k1 == k2
  {
    if k1.Some? {
      FormatRoundTrip(k1.value);
    }
    if k2.Some? {
      FormatRoundTrip(k2.value);
    }
    if k1.Some? && k2.Some? {
      FormatInjective(k1.value, k2.value);
    }
  }

  lemma RoundTextInjective(r1: Option<nat>, r2: Option<nat>)
    requires RoundText(r1) == RoundText(r2)
    ensures r1 == r2
  {
    if r1.Some? && r2.Some? {
      assert DigitsValue(NatToString(r1.value)) == r1.value;
    }
  }

  // ---------------------------------------------------------------------------
  // One row

  /** _extract_competition_name_fallback */
  const CompetitionFallback := "FFCV Competition (auto)"

  /** The row's link, or the page URL when it has none. */
  function SourceUrl(row: Row, pageUrl: string): string {
    if row.link.Some? then row.link.value else pageUrl
  }

  /** _parse_match_row: None when the row text has no "home - away" pair; otherwise the
      ParsedMatch built from the row text, unless building the kickoff raises. */
  function ParseMatchRow(row: Row, pageUrl: string): Result<Option<ParsedMatch>, Exception> {
    match ExtractTeams(row.text)
    case None => Ok(None)
    case Some((home, away)) =>
      var score := ExtractScore(row.text);
      var status := InferStatus(score, Lower(row.text));
      match ExtractDatetime(row.text)
      case Err(e) => Err(e)
      case Ok(kickoff) =>
        var round := ExtractRound(row.text);
        var venue := ExtractVenue(row.text);
        var url := SourceUrl(row, pageUrl);
        Ok(Some(ParsedMatch(
          MakeExternalKey(url, home, away, kickoff, round), url, CompetitionFallback, None, round, kickoff,
          home, away, if score.Some? then Some(score.value.0) else None,
          if score.Some? then Some(score.value.1) else None, status, None, venue)))
  }

  /** A row without a "home - away" pair yields no record and no error. */
  lemma ParseMatchRowNoTeams(row: Row, pageUrl: string)
    ensures ParseMatchRow(row, pageUrl) == Ok(None) <==>
              forall st: nat, a: nat, b: nat, c: nat, e: nat :: !TeamsPattern(row.text, st, a, b, c, e)
  {
    ExtractTeamsSpec(row.text);
  }

  /** The only error a row can raise is the ValueError of an out-of-range kickoff. */
  lemma ParseMatchRowError(row: Row, pageUrl: string)
    ensures ParseMatchRow(row, pageUrl).Err? <==>
              ExtractTeams(row.text).Some? && ExtractDatetime(row.text).Err?
    ensures ParseMatchRow(row, pageUrl).Err? ==> ParseMatchRow(row, pageUrl).error.kind == ValueError
  {
    ExtractDatetimeSpec(row.text);
  }

  /** What a parsed record holds: both scores or neither, taken from the first
      digits-hyphen-digits in the text; PLAYED exactly when scored and never UNKNOWN; the
      placeholder competition, no season and no result note; a valid kickoff if any; stripped
      team names; and the key built from the record's own fields. */
  lemma ParseMatchRowRecord(row: Row, pageUrl: string)
    requires ParseMatchRow(row, pageUrl).Ok? && ParseMatchRow(row, pageUrl).value.Some?
    ensures var pm := ParseMatchRow(row, pageUrl).value.value;
            (pm.homeScore.Some? <==> pm.awayScore.Some?) &&
            (pm.homeScore.Some? ==> ExtractScore(row.text) == Some((pm.homeScore.value, pm.awayScore.value))) &&
            (pm.status == Played <==> pm.homeScore.Some?) && pm.status != Unknown &&
            pm.competitionName == CompetitionFallback && pm.seasonName.None? && pm.resultNote.None? &&
            (pm.kickoffAt.Some? ==> Valid(pm.kickoffAt.value)) &&
            pm.roundNumber == ExtractRound(row.text) && pm.venueName == ExtractVenue(row.text) &&
            pm.sourceUrl == SourceUrl(row, pageUrl) &&
            Some((pm.homeName, pm.awayName)) == ExtractTeams(row.text) &&
            pm.externalKey == MakeExternalKey(pm.sourceUrl, pm.homeName, pm.awayName, pm.kickoffAt, pm.roundNumber)
  {
    ExtractDatetimeSpec(row.text);
  }

  // ---------------------------------------------------------------------------
  // The table scan of parse_team_matches

  /** The rows of a table after its header row; a table of fewer than two rows has none. */
  function DataRows(table: seq<Row>): (rows: seq<Row>)
    ensures |table| < 2 ==> rows == []
    ensures |table| >= 2 ==> |rows| == |table| - 1 && forall k :: 0 <= k < |rows| ==> rows[k] == table[k + 1]
  {
    if |table| < 2 then [] else table[1..]
  }

  /** At least four cells, and a '-' somewhere in the cells joined by spaces. */
  predicate IsCandidate(row: Row) {
    |row.cells| >= 4 && Contains(Join(row.cells, ' '), "-")
  }

  /** What one data row contributes, by the checks of the row loop in order: a row with fewer
      than four cells or no '-' in its joined cells is skipped, a row that does not parse is
      skipped, a parsed row not naming the target team is skipped; a parse that raises ends
      the scan. */
  function RowOutcome(p: Parser, row: Row, pageUrl: string): Outcome {
    if !IsCandidate(row) then Ok(None)
    else match ParseMatchRow(row, pageUrl)
      case Err(e) => Err(e)
      case Ok(None) => Ok(None)
      case Ok(Some(pm)) => if IsTargetMatch(p, pm.homeName, pm.awayName) then Ok(Some(pm)) else Ok(None)
  }

  /** What each row of `rows` contributes, in order. */
  function Outcomes(f: Row -> Outcome, rows: seq<Row>): (os: seq<Outcome>)
    ensures |os| == |rows| && forall k :: 0 <= k < |rows| ==> os[k] == f(rows[k])
  {
    seq(|rows|, k requires 0 <= k < |rows| => f(rows[k]))
  }

  /** The row handler of a parser on a page. */
  function RowFn(p: Parser, pageUrl: string): Row -> Outcome {
    row => RowOutcome(p, row, pageUrl)
  }

  /** Every data row of the page, table after table, header rows left out. */
  function AllDataRows(tables: seq<seq<Row>>): seq<Row>
    decreases |tables|
  {
    if tables == [] then [] else AllDataRows(tables[..|tables| - 1]) + DataRows(tables[|tables| - 1])
  }

  /** The records kept from `rows`, in row order, or the first exception a row raises. */
  function Kept(f: Row -> Outcome, rows: seq<Row>): Result<seq<ParsedMatch>, Exception> {
    Gather(Outcomes(f, rows))
  }

  /** parse_team_matches on the fetched page: the fetch error, or the records of the data
      rows that are candidates, parse and name the target team, in page order; the first
      exception a row raises ends the scan. */
  method ParseTeamMatches(p: Parser, fetched: Result<seq<seq<Row>>, Exception>, pageUrl: string)
    returns (r: Result<seq<ParsedMatch>, Exception>)
    ensures fetched.Err? ==> r == Err(fetched.error)
    ensures fetched.Ok? ==> r == Kept(RowFn(p, pageUrl), AllDataRows(fetched.value))
  {
    if fetched.Err? {
      return Err(fetched.error);
    }
    r := ScanTables(RowFn(p, pageUrl), fetched.value);
  }

  /** The outer loop of parse_team_matches, given what one data row contributes: tables are
      scanned in order and the first exception is raised at once. */
  method ScanTables(f: Row -> Outcome, tables: seq<seq<Row>>) returns (r: Result<seq<ParsedMatch>, Exception>)
    ensures r == Kept(f, AllDataRows(tables))
  {
    var parsed: seq<ParsedMatch> := [];
    ghost var seen: seq<Row> := [];
    var i := 0;
    while i < |tables|
      invariant 0 <= i <= |tables|
      invariant seen == AllDataRows(tables[..i])
      invariant Kept(f, seen) == Ok(parsed)
    {
      AllDataRowsSnoc(tables, i);
      var t := ScanTable(f, tables[i], seen, parsed);
      if t.Err? {
        AllDataRowsPrefix(tables, i + 1);
        KeptPrefixErr(f, AllDataRows(tables), seen + DataRows(tables[i]));
        return t;
      }
      parsed := t.value;
      seen := seen + DataRows(tables[i]);
      i := i + 1;
    }
    assert tables[..i] == tables;
    r := Ok(parsed);
  }

  /** The inner loop: a table of fewer than two rows is skipped, the header row is skipped,
      records are appended in row order, and the first exception is raised at once. */
  method ScanTable(f: Row -> Outcome, rows: seq<Row>, ghost before: seq<Row>, parsed: seq<ParsedMatch>)
    returns (r: Result<seq<ParsedMatch>, Exception>)
    requires Kept(f, before) == Ok(parsed)
    ensures r == Kept(f, before + DataRows(rows))
  {
    if |rows| < 2 {
      assert before + DataRows(rows) == before;
      return Ok(parsed);
    }
    var acc := parsed;
    ghost var seen := before;
    var j := 1;
    while j < |rows|
      invariant 1 <= j <= |rows|
      invariant seen == before + rows[1..j]
      invariant Kept(f, seen) == Ok(acc)
    {
      var row := rows[j];
      var o := f(row);
      SliceSnoc(rows, 1, j);
      RowsAssoc(before, rows[1..j], [row]);
      if o.Err? {
        KeptSnocErr(f, seen, row);
        assert rows[1..j + 1] <= rows[1..];
        KeptPrefixErr(f, before + rows[1..], seen + [row]);
        return Err(o.error);
      }
      ScanStep(f, seen, row, acc);
      seen := seen + [row];
      if o.value.Some? {
        acc := acc + [o.value.value];
      }
      j := j + 1;
    }
    assert rows[1..j] == rows[1..];
    r := Ok(acc);
  }

  lemma SliceSnoc(rows: seq<Row>, i: nat, j: nat)
    requires i <= j < |rows|
    ensures rows[i..j + 1] == rows[i..j] + [rows[j]]
  {
  }

  /** One more row that does not raise adds its record, if any, to the kept list. */
  lemma ScanStep(f: Row -> Outcome, seen: seq<Row>, row: Row, parsed: seq<ParsedMatch>)
    requires Kept(f, seen) == Ok(parsed) && f(row).Ok?
    ensures Kept(f, seen + [row]) == Ok(if f(row).value.Some? then parsed + [f(row).value.value] else parsed)
  {
    KeptSnoc(f, seen, row);
    assert parsed + [] == parsed;
  }

  /** An exception raised by data row `j` of table `i` is what the whole scan yields. */
  lemma RowsAssoc(a: seq<Row>, b: seq<Row>, c: seq<Row>)
    ensures (a + b) + c == a + (b + c)
  {
  }

  lemma KeptSnocErr(f: Row -> Outcome, rows: seq<Row>, row: Row)
    requires Kept(f, rows).Ok? && f(row).Err?
    ensures Kept(f, rows + [row]) == Err(f(row).error)
  {
    KeptSnoc(f, rows, row);
  }

  lemma AllDataRowsSnoc(tables: seq<seq<Row>>, i: nat)
    requires i < |tables|
    ensures AllDataRows(tables[..i + 1]) == AllDataRows(tables[..i]) + DataRows(tables[i])
    ensures |tables[i]| < 2 ==> AllDataRows(tables[..i + 1]) == AllDataRows(tables[..i])
    ensures |tables[i]| >= 2 ==> AllDataRows(tables[..i + 1]) == AllDataRows(tables[..i]) + tables[i][1..|tables[i]|]
  {
    assert tables[..i + 1][..i] == tables[..i];
    assert AllDataRows(tables[..i]) + [] == AllDataRows(tables[..i]);
  }

  /** The data rows of the first tables come first among all data rows. */
  lemma {:induction false} AllDataRowsPrefix(tables: seq<seq<Row>>, i: nat)
    requires i <= |tables|
    ensures AllDataRows(tables[..i]) <= AllDataRows(tables)
    decreases |tables|
  {
    if i < |tables| {
      var init := tables[..|tables| - 1];
      assert init[..i] == tables[..i];
      AllDataRowsPrefix(init, i);
    } else {
      assert tables[..i] == tables;
    }
  }

  // ---------------------------------------------------------------------------
  // What the scan keeps

  type Outcome = Result<Option<ParsedMatch>, Exception>

  /** A row's outcome as a list of zero or one records. */
  function Single(o: Outcome): Result<seq<ParsedMatch>, Exception> {
    if o.Err? then Err(o.error) else Ok(if o.value.Some? then [o.value.value] else [])
  }

  /** Two lists one after the other, or the first exception. */
  function Both(x: Result<seq<ParsedMatch>, Exception>, y: Result<seq<ParsedMatch>, Exception>): Result<seq<ParsedMatch>, Exception> {
    if x.Err? then x else if y.Err? then y else Ok(x.value + y.value)
  }

  /** The records of a sequence of outcomes, in order, or its first exception. */
  function Gather(os: seq<Outcome>): Result<seq<ParsedMatch>, Exception>
    decreases |os|
  {
    if os == [] then Ok([]) else Both(Gather(os[..|os| - 1]), Single(os[|os| - 1]))
  }

  lemma BothAssoc(x: Result<seq<ParsedMatch>, Exception>, y: Result<seq<ParsedMatch>, Exception>, z: Result<seq<ParsedMatch>, Exception>)
    ensures Both(Both(x, y), z) == Both(x, Both(y, z))
  {
    if x.Ok? && y.Ok? && z.Ok? {
      assert (x.value + y.value) + z.value == x.value + (y.value + z.value);
    }
  }

  /** Gathering keeps order: the records of `a + b` are those of `a` followed by those of `b`,
      and an exception in `a` comes before any in `b`. */
  lemma {:induction false} GatherConcat(a: seq<Outcome>, b: seq<Outcome>)
    ensures Gather(a + b) == Both(Gather(a), Gather(b))
    decreases |b|
  {
    var ga := Gather(a);
    if b == [] {
      assert a + b == a;
      if ga.Ok? {
        assert ga.value + [] == ga.value;
      }
    } else {
      var init := b[..|b| - 1];
      assert (a + b)[..|a + b| - 1] == a + init;
      assert (a + b)[|a + b| - 1] == b[|b| - 1];
      GatherConcat(a, init);
      BothAssoc(ga, Gather(init), Single(b[|b| - 1]));
    }
  }

  /** Once a prefix of the outcomes raises, nothing after it matters. */
  lemma {:induction false} GatherPrefixErr(os: seq<Outcome>, n: nat)
    requires n <= |os| && Gather(os[..n]).Err?
    ensures Gather(os) == Gather(os[..n])
    decreases |os|
  {
    if n == |os| {
      assert os[..n] == os;
    } else {
      var init := os[..|os| - 1];
      assert init[..n] == os[..n];
      GatherPrefixErr(init, n);
    }
  }

  /** A record is gathered exactly when some outcome is that record. */
  lemma {:induction false} GatherMembers(os: seq<Outcome>, pm: ParsedMatch)
    requires Gather(os).Ok?
    ensures pm in Gather(os).value <==> exists k :: 0 <= k < |os| && os[k] == Ok(Some(pm))
    decreases |os|
  {
    if os != [] {
      var init := os[..|os| - 1];
      GatherMembers(init, pm);
      if exists k :: 0 <= k < |init| && init[k] == Ok(Some(pm)) {
        var k :| 0 <= k < |init| && init[k] == Ok(Some(pm));
        assert os[k] == init[k];
      }
      if exists k :: 0 <= k < |os| && os[k] == Ok(Some(pm)) {
        var k :| 0 <= k < |os| && os[k] == Ok(Some(pm));
        if k < |init| {
          assert init[k] == os[k];
        }
      }
    }
  }

  /** At most one record per outcome. */
  lemma {:induction false} GatherLength(os: seq<Outcome>)
    requires Gather(os).Ok?
    ensures |Gather(os).value| <= |os|
    decreases |os|
  {
    if os != [] {
      GatherLength(os[..|os| - 1]);
    }
  }

  lemma OutcomesConcat(f: Row -> Outcome, a: seq<Row>, b: seq<Row>)
    ensures Outcomes(f, a + b) == Outcomes(f, a) + Outcomes(f, b)
  {
    var os := Outcomes(f, a + b);
    forall k | |a| <= k < |a + b| ensures os[k] == Outcomes(f, b)[k - |a|] {
      assert (a + b)[k] == b[k - |a|];
    }
  }

  lemma OutcomesPrefix(f: Row -> Outcome, rows: seq<Row>, n: nat)
    requires n <= |rows|
    ensures Outcomes(f, rows)[..n] == Outcomes(f, rows[..n])
  {
  }

  lemma GatherSnoc(os: seq<Outcome>, o: Outcome)
    ensures Gather(os + [o]) == Both(Gather(os), Single(o))
  {
    assert (os + [o])[..|os|] == os;
  }

  lemma KeptSnoc(f: Row -> Outcome, rows: seq<Row>, row: Row)
    ensures Kept(f, rows + [row]) == Both(Kept(f, rows), Single(f(row)))
  {
    OutcomesConcat(f, rows, [row]);
    assert Outcomes(f, [row]) == [f(row)];
    GatherSnoc(Outcomes(f, rows), f(row));
  }

  lemma KeptPrefixErr(f: Row -> Outcome, rows: seq<Row>, pre: seq<Row>)
    requires pre <= rows && Kept(f, pre).Err?
    ensures Kept(f, rows) == Kept(f, pre)
  {
    assert rows[..|pre|] == pre;
    OutcomesPrefix(f, rows, |pre|);
    GatherPrefixErr(Outcomes(f, rows), |pre|);
  }

  /** The scan keeps page order: the records of `a + b` are those of `a`, then those of `b`. */
  lemma KeptConcat(f: Row -> Outcome, a: seq<Row>, b: seq<Row>)
    ensures Kept(f, a + b) == Both(Kept(f, a), Kept(f, b))
  {
    OutcomesConcat(f, a, b);
    GatherConcat(Outcomes(f, a), Outcomes(f, b));
  }

  /** A row contributes a record exactly when it is a candidate, parses to that record and
      names the target team. */
  lemma RowOutcomeRecord(p: Parser, row: Row, pageUrl: string, pm: ParsedMatch)
    ensures RowOutcome(p, row, pageUrl) == Ok(Some(pm)) <==>
            IsCandidate(row) && ParseMatchRow(row, pageUrl) == Ok(Some(pm)) && IsTargetMatch(p, pm.homeName, pm.awayName)
  {
  }

  /** With no row raising, a record is kept exactly when some data row is a candidate whose
      parse is that record and names the target team. */
  lemma KeptMembers(p: Parser, rows: seq<Row>, pageUrl: string, pm: ParsedMatch)
    requires Kept(RowFn(p, pageUrl), rows).Ok?
    ensures pm in Kept(RowFn(p, pageUrl), rows).value <==>
            exists k :: 0 <= k < |rows| && IsCandidate(rows[k]) && ParseMatchRow(rows[k], pageUrl) == Ok(Some(pm)) &&
                        IsTargetMatch(p, pm.homeName, pm.awayName)
  {
    var f := RowFn(p, pageUrl);
    var os := Outcomes(f, rows);
    GatherMembers(os, pm);
    forall k | 0 <= k < |rows|
      ensures os[k] == Ok(Some(pm)) <==>
              IsCandidate(rows[k]) && ParseMatchRow(rows[k], pageUrl) == Ok(Some(pm)) && IsTargetMatch(p, pm.homeName, pm.awayName)
    {
      RowOutcomeRecord(p, rows[k], pageUrl, pm);
    }
  }

  /** The scan keeps at most one record per data row. */
  lemma KeptAtMostRows(f: Row -> Outcome, rows: seq<Row>)
    requires Kept(f, rows).Ok?
    ensures |Kept(f, rows).value| <= |rows|
  {
    GatherLength(Outcomes(f, rows));
  }
}
