/** The parse_ffcv_results management command
    (apps/results_pars/management/commands/parse_ffcv_results.py): it reads the target
    configuration, runs the parser, upserts every parsed match with the teams, competition,
    round and venue it refers to, and records the run in an IngestionRun row.

    The get-or-create and update-or-create steps are pure functions from tables to tables;
    Handle is the imperative command over a Store. The transaction is a snapshot of the
    tables that is put back when an exception leaves the atomic block. */
module ParseFfcvResults {
  import opened Wrappers
  import opened Text
  import opened Calendar
  import opened ResultsModels
  import opened FfcvParser

  // ---------------------------------------------------------------------------
  // Which Team a side of a match resolves to

  /** pm.<side>_name.lower().find(cfg.target_team_name.lower()) >= 0, with the configured
      name as stored, not stripped. */
  predicate SideIsTarget(cfgName: string, side: string) {
    Find(Lower(side), Lower(cfgName)) >= 0
  }

  /** The ffcv_team_id of an opponent team created by the ingestion. */
  function AutoId(name: string): string {
    "auto:" + name
  }

  /** The key of the Team row a side refers to. */
  function SideId(cfgName: string, targetId: string, side: string): string {
    if SideIsTarget(cfgName, side) then targetId else AutoId(side)
  }

  /** Team.objects.get_or_create(ffcv_team_id=id, defaults={name, is_target=True}), then
      is_target forced to true. */
  function EnsureTarget(teams: map<string, Team>, targetId: string, cfgName: string): (r: map<string, Team>)
    ensures targetId in r && r[targetId].isTarget
    ensures targetId !in teams ==> r[targetId] == Team(cfgName, None, true)
    ensures targetId in teams ==> r[targetId].name == teams[targetId].name &&
                                  r[targetId].shieldUrl == teams[targetId].shieldUrl
    ensures r.Keys == teams.Keys + {targetId}
    ensures forall k :: k in teams && k != targetId ==> r[k] == teams[k]
  {
    if targetId !in teams then teams[targetId := Team(cfgName, None, true)]
    else if !teams[targetId].isTarget then teams[targetId := teams[targetId].(isTarget := true)]
    else teams
  }

  /** One side, given whether it names the target team: the target team renamed to the
      observed spelling, or the opponent get_or_create keyed "auto:<name>", created with
      is_target false and otherwise left as it is. */
  function ResolveSide(teams: map<string, Team>, targetId: string, side: string, isTarget: bool): (r: map<string, Team>)
    requires isTarget ==> targetId in teams
    ensures targetId in teams ==> targetId in r && r[targetId].isTarget == teams[targetId].isTarget
    ensures r.Keys == teams.Keys + {if isTarget then targetId else AutoId(side)}
    ensures isTarget ==> r[targetId] == teams[targetId].(name := side)
    ensures !isTarget && AutoId(side) !in teams ==> r[AutoId(side)] == Team(side, None, false)
    ensures forall k :: k in teams && (k != targetId || !isTarget) ==> r[k] == teams[k]
  {
    if isTarget then teams[targetId := teams[targetId].(name := side)]
    else if AutoId(side) in teams then teams
    else teams[AutoId(side) := Team(side, None, false)]
  }

  /** CompetitionContext.objects.get_or_create(name, season_name, defaults={source_url,
      is_active=True}): the row id, or MultipleObjectsReturned when several rows match. */
  function GetOrCreateCompetition(comps: seq<Competition>, pm: ParsedMatch): (r: Result<(seq<Competition>, nat), Exception>)
    ensures r.Ok? ==> comps <= r.value.0 && r.value.1 < |r.value.0| &&
                      CompetitionKey(r.value.0[r.value.1]) == (pm.competitionName, pm.seasonName)
    ensures r.Ok? && |r.value.0| > |comps| ==>
              r.value.0 == comps + [Competition(pm.competitionName, pm.seasonName, pm.sourceUrl, true)]
    ensures r.Err? <==> FindKey(comps, CompetitionKey, (pm.competitionName, pm.seasonName)).Multiple?
  {
    match FindKey(comps, CompetitionKey, (pm.competitionName, pm.seasonName))
    case Found(c) => Ok((comps, c))
    case Missing => Ok((comps + [Competition(pm.competitionName, pm.seasonName, pm.sourceUrl, true)], |comps|))
    case Multiple(n) => Err(MultipleObjectsReturned("CompetitionContext", n))
  }

  /** Round.objects.get_or_create(competition, round_number, defaults={round_date}) when the
      record has a round number; the round date is the kickoff's date, set only at creation. */
  function GetOrCreateRound(rounds: map<RoundKey, Round>, comp: nat, pm: ParsedMatch): (r: (map<RoundKey, Round>, Option<RoundKey>))
    ensures pm.roundNumber.None? ==> r == (rounds, None)
    ensures pm.roundNumber.Some? ==> r.1 == Some(RoundKey(comp, pm.roundNumber.value)) && r.1.value in r.0
    ensures r.0.Keys == rounds.Keys + (if r.1.Some? then {r.1.value} else {})
    ensures forall k :: k in rounds ==> r.0[k] == rounds[k]
    ensures r.1.Some? && r.1.value !in rounds ==>
              r.0[r.1.value] == Round(if pm.kickoffAt.Some? then Some(DateOf(pm.kickoffAt.value)) else None)
  {
    if pm.roundNumber.None? then (rounds, None)
    else
      var key := RoundKey(comp, pm.roundNumber.value);
      if key in rounds then (rounds, Some(key))
      else (rounds[key := Round(if pm.kickoffAt.Some? then Some(DateOf(pm.kickoffAt.value)) else None)], Some(key))
  }

  /** Venue.objects.get_or_create(name=venue_name) when the record names a venue; an empty
      name counts as none. */
  function GetOrCreateVenue(venues: seq<Venue>, pm: ParsedMatch): (r: Result<(seq<Venue>, Option<nat>), Exception>)
    ensures pm.venueName.None? || pm.venueName.value == [] ==> r == Ok((venues, None))
    ensures r.Ok? ==> venues <= r.value.0
    ensures r.Ok? && r.value.1.Some? ==> r.value.1.value < |r.value.0| && r.value.0[r.value.1.value].name == pm.venueName.value
    ensures r.Ok? && |r.value.0| > |venues| ==> r.value.0 == venues + [Venue(pm.venueName.value, None)]
    ensures r.Err? <==> pm.venueName.Some? && pm.venueName.value != [] && FindKey(venues, VenueKey, pm.venueName.value).Multiple?
  {
    if pm.venueName.None? || pm.venueName.value == [] then Ok((venues, None))
    else match FindKey(venues, VenueKey, pm.venueName.value)
      case Found(v) => Ok((venues, Some(v)))
      case Missing => Ok((venues + [Venue(pm.venueName.value, None)], Some(|venues|)))
      case Multiple(n) => Err(MultipleObjectsReturned("Venue", n))
  }

  /** The Match row update_or_create writes for a record, given the ids it resolved. */
  function MatchRow(pm: ParsedMatch, comp: nat, round: Option<RoundKey>, home: string, away: string, venue: Option<nat>): Match {
    Match(comp, round, pm.kickoffAt, home, away, pm.homeScore, pm.awayScore, pm.status,
          pm.resultNote, venue, pm.sourceUrl, true)
  }

  /** What a stored match takes from the record it was last written from, with the
      competition and venue rows it points at in `comps` and `venues`. */
  predicate MatchFrom(m: Match, pm: ParsedMatch, cfgName: string, targetId: string, comps: seq<Competition>, venues: seq<Venue>) {
    m.kickoffAt == pm.kickoffAt && m.homeScore == pm.homeScore && m.awayScore == pm.awayScore &&
    m.status == pm.status && m.resultNote == pm.resultNote && m.sourceUrl == pm.sourceUrl &&
    m.isTargetMatch &&
    m.homeTeam == SideId(cfgName, targetId, pm.homeName) &&
    m.awayTeam == SideId(cfgName, targetId, pm.awayName) &&
    m.competition < |comps| && CompetitionKey(comps[m.competition]) == (pm.competitionName, pm.seasonName) &&
    m.round == (if pm.roundNumber.Some? then Some(RoundKey(m.competition, pm.roundNumber.value)) else None) &&
    (m.venue.Some? <==> pm.venueName.Some? && pm.venueName.value != []) &&
    (m.venue.Some? ==> m.venue.value < |venues| && venues[m.venue.value].name == pm.venueName.value)
  }

  /** The ingestion only adds: competitions and venues are appended to, stored rounds and
      matches keep their keys, stored rounds their values, and stored teams keep their key,
      target flag and shield; only the target team's name can change. */
  predicate Grows(t: Tables, t': Tables, targetId: string) {
    t.competitions <= t'.competitions && t.venues <= t'.venues &&
    (forall k :: k in t.rounds ==> k in t'.rounds && t'.rounds[k] == t.rounds[k]) &&
    t.matches.Keys <= t'.matches.Keys &&
    (forall k :: k in t.teams ==> k in t'.teams && t'.teams[k].isTarget == t.teams[k].isTarget &&
                                  t'.teams[k].shieldUrl == t.teams[k].shieldUrl &&
                                  (k != targetId ==> t'.teams[k] == t.teams[k]))
  }

  lemma GrowsTrans(t1: Tables, t2: Tables, t3: Tables, targetId: string)
    requires Grows(t1, t2, targetId) && Grows(t2, t3, targetId)
    ensures Grows(t1, t3, targetId)
  {
  }

  /** Every match points at rows that exist. */
  predicate RefsValid(t: Tables) {
    forall k :: k in t.matches ==>
      t.matches[k].competition < |t.competitions| &&
      (t.matches[k].round.Some? ==> t.matches[k].round.value in t.rounds) &&
      (t.matches[k].venue.Some? ==> t.matches[k].venue.value < |t.venues|) &&
      t.matches[k].homeTeam in t.teams && t.matches[k].awayTeam in t.teams
  }

  /** Some side of the record resolves to the target team. */
  predicate NamesTarget(cfgName: string, pm: ParsedMatch) {
    SideIsTarget(cfgName, pm.homeName) || SideIsTarget(cfgName, pm.awayName)
  }

  /** Django's save(update_fields=...) on a row that is no longer stored. */
  const NoRowSaved := Exception("DatabaseError", "Save with update_fields did not affect any rows.")

  /** Both sides resolved, home first; when both name the target, the away spelling is the
      name it keeps. */
  function SideTeams(teams: map<string, Team>, cfgName: string, targetId: string, pm: ParsedMatch): (r: map<string, Team>)
    requires NamesTarget(cfgName, pm) ==> targetId in teams
    ensures targetId in teams ==> targetId in r && r[targetId].isTarget == teams[targetId].isTarget &&
                                  r[targetId].shieldUrl == teams[targetId].shieldUrl
    ensures r.Keys == teams.Keys + {SideId(cfgName, targetId, pm.homeName), SideId(cfgName, targetId, pm.awayName)}
    ensures forall k :: k in teams && k != targetId ==> r[k] == teams[k]
  {
    ResolveSide(ResolveSide(teams, targetId, pm.homeName, SideIsTarget(cfgName, pm.homeName)),
                targetId, pm.awayName, SideIsTarget(cfgName, pm.awayName))
  }

  /** The tables once the competition and venue rows are resolved: the round, both teams and
      the match written under the record's external key. */
  function Written(t: Tables, cfgName: string, targetId: string, pm: ParsedMatch,
                   comps: seq<Competition>, comp: nat, venues: seq<Venue>, venue: Option<nat>): Tables
    requires NamesTarget(cfgName, pm) ==> targetId in t.teams
  {
    var rr := GetOrCreateRound(t.rounds, comp, pm);
    var m := MatchRow(pm, comp, rr.1, SideId(cfgName, targetId, pm.homeName), SideId(cfgName, targetId, pm.awayName), venue);
    Tables(SideTeams(t.teams, cfgName, targetId, pm), comps, rr.0, venues, t.matches[pm.externalKey := m])
  }

  /** The body of the loop over parsed matches: the tables after it, and whether a Match with
      the record's external key existed before (update_or_create's created is false). The
      steps raise in source order: the competition lookup, the save of a target team row
      that is missing (the command ensures it first, so this does not happen there), then
      the venue lookup. */
  function UpsertOne(t: Tables, cfgName: string, targetId: string, pm: ParsedMatch): Result<(Tables, bool), Exception> {
    var rc := GetOrCreateCompetition(t.competitions, pm);
    var rv := GetOrCreateVenue(t.venues, pm);
    if rc.Err? then Err(rc.error)
    else if NamesTarget(cfgName, pm) && targetId !in t.teams then Err(NoRowSaved)
    else if rv.Err? then Err(rv.error)
    else Ok((Written(t, cfgName, targetId, pm, rc.value.0, rc.value.1, rv.value.0, rv.value.1), pm.externalKey in t.matches))
  }

  /** One upsert only adds. */
  lemma UpsertOneKeeps(t: Tables, cfgName: string, targetId: string, pm: ParsedMatch)
    ensures var r := UpsertOne(t, cfgName, targetId, pm);
            r.Ok? ==> Grows(t, r.value.0, targetId)
  {
  }

  /** With the target team stored, one upsert keeps it and raises only
      MultipleObjectsReturned. */
  lemma UpsertOneGrows(t: Tables, cfgName: string, targetId: string, pm: ParsedMatch)
    requires targetId in t.teams
    ensures var r := UpsertOne(t, cfgName, targetId, pm);
            r.Ok? ==> targetId in r.value.0.teams
    ensures var r := UpsertOne(t, cfgName, targetId, pm);
            r.Err? ==> r.error.kind == "MultipleObjectsReturned"
  {
  }

  /** One upsert writes the record's key and no other match, adds the teams its sides
      resolve to, and reports whether the key was already stored. */
  lemma UpsertOneKey(t: Tables, cfgName: string, targetId: string, pm: ParsedMatch)
    ensures var r := UpsertOne(t, cfgName, targetId, pm);
            r.Ok? ==>
              var t' := r.value.0;
              pm.externalKey in t'.matches &&
              t'.matches == t.matches[pm.externalKey := t'.matches[pm.externalKey]] &&
              t'.teams.Keys == t.teams.Keys + {SideId(cfgName, targetId, pm.homeName), SideId(cfgName, targetId, pm.awayName)} &&
              r.value.1 == (pm.externalKey in t.matches)
  {
  }

  /** The match one upsert writes holds what the record says. */
  lemma UpsertOneMatch(t: Tables, cfgName: string, targetId: string, pm: ParsedMatch)
    ensures var r := UpsertOne(t, cfgName, targetId, pm);
            r.Ok? ==>
              var t' := r.value.0;
              pm.externalKey in t'.matches &&
              MatchFrom(t'.matches[pm.externalKey], pm, cfgName, targetId, t'.competitions, t'.venues)
  {
  }

  /** One upsert keeps every match pointing at rows that exist. */
  lemma UpsertOneRefs(t: Tables, cfgName: string, targetId: string, pm: ParsedMatch)
    ensures RefsValid(t) && UpsertOne(t, cfgName, targetId, pm).Ok? ==> RefsValid(UpsertOne(t, cfgName, targetId, pm).value.0)
  {
    UpsertOneKeeps(t, cfgName, targetId, pm);
    UpsertOneKey(t, cfgName, targetId, pm);
    var r := UpsertOne(t, cfgName, targetId, pm);
    if RefsValid(t) && r.Ok? {
      var t' := r.value.0;
      forall k | k in t'.matches
        ensures t'.matches[k].competition < |t'.competitions| &&
                (t'.matches[k].round.Some? ==> t'.matches[k].round.value in t'.rounds) &&
                (t'.matches[k].venue.Some? ==> t'.matches[k].venue.value < |t'.venues|) &&
                t'.matches[k].homeTeam in t'.teams && t'.matches[k].awayTeam in t'.teams
      {
        if k != pm.externalKey {
          assert t'.matches[k] == t.matches[k];
        }
      }
    }
  }

  // ---------------------------------------------------------------------------
  // The loop over the records

  /** One iteration: the tables so far and a record give the new tables and whether the
      record's match existed, or the exception. */
  type Step = (Tables, ParsedMatch) -> Result<(Tables, bool), Exception>

  /** The count and tables after one more iteration that did not raise. */
  function Then(acc: (Tables, nat), s: Result<(Tables, bool), Exception>): Result<(Tables, nat), Exception> {
    if s.Err? then Err(s.error) else Ok((s.value.0, acc.1 + if s.value.1 then 1 else 0))
  }

  /** A for loop over `pms` that counts the iterations reporting an existing match and stops
      at the first exception. */
  function Fold(f: Step, t: Tables, pms: seq<ParsedMatch>): Result<(Tables, nat), Exception>
    decreases |pms|
  {
    if pms == [] then Ok((t, 0))
    else
      var r1 := Fold(f, t, pms[..|pms| - 1]);
      if r1.Err? then Err(r1.error) else Then(r1.value, f(r1.value.0, pms[|pms| - 1]))
  }

  /** The loop over n records is the loop over the first n - 1 followed by one iteration. */
  lemma FoldSnoc(f: Step, t: Tables, init: seq<ParsedMatch>, pm: ParsedMatch)
    ensures var r1 := Fold(f, t, init);
            Fold(f, t, init + [pm]) == if r1.Err? then Err(r1.error) else Then(r1.value, f(r1.value.0, pm))
  {
    var pms := init + [pm];
    assert pms[..|pms| - 1] == init;
  }

  /** A loop finishes exactly when its prefix finishes and the last iteration does not
      raise; the count then grows by one for an existing match. */
  lemma FoldLast(f: Step, t: Tables, pms: seq<ParsedMatch>)
    requires pms != []
    ensures var r1 := Fold(f, t, pms[..|pms| - 1]);
            Fold(f, t, pms).Ok? <==> r1.Ok? && f(r1.value.0, pms[|pms| - 1]).Ok?
    ensures var r1 := Fold(f, t, pms[..|pms| - 1]);
            var r := Fold(f, t, pms);
            r.Ok? ==> r.value.0 == f(r1.value.0, pms[|pms| - 1]).value.0 &&
                      r.value.1 == r1.value.1 + (if f(r1.value.0, pms[|pms| - 1]).value.1 then 1 else 0)
  {
  }

  /** Once a prefix of the records raises, the whole loop raises the same exception. */
  lemma {:induction false} FoldPrefixErr(f: Step, t: Tables, pms: seq<ParsedMatch>, n: nat)
    requires n <= |pms| && Fold(f, t, pms[..n]).Err?
    ensures Fold(f, t, pms) == Err(Fold(f, t, pms[..n]).error)
    decreases |pms| - n
  {
    if n < |pms| {
      FoldSnoc(f, t, pms[..n], pms[n]);
      assert pms[..n] + [pms[n]] == pms[..n + 1];
      FoldPrefixErr(f, t, pms, n + 1);
    } else {
      assert pms[..n] == pms;
    }
  }

  /** The loop never counts more updates than records. */
  lemma {:induction false} FoldCountBound(f: Step, t: Tables, pms: seq<ParsedMatch>)
    ensures Fold(f, t, pms).Ok? ==> Fold(f, t, pms).value.1 <= |pms|
    decreases |pms|
  {
    if pms != [] {
      FoldCountBound(f, t, pms[..|pms| - 1]);
      FoldLast(f, t, pms);
    }
  }

  /** The upsert of the command, for a configured name and target team id. */
  function Upserter(cfgName: string, targetId: string): Step {
    (t, pm) => UpsertOne(t, cfgName, targetId, pm)
  }

  /** The loop over every parsed match: the final tables and the number of updates, or the
      first exception. */
  function UpsertAll(t: Tables, cfgName: string, targetId: string, pms: seq<ParsedMatch>): Result<(Tables, nat), Exception> {
    Fold(Upserter(cfgName, targetId), t, pms)
  }

  /** The loop over n records is the loop over the first n - 1 followed by one upsert. */
  lemma UpsertAllLast(t: Tables, cfgName: string, targetId: string, pms: seq<ParsedMatch>)
    requires pms != []
    ensures var r1 := UpsertAll(t, cfgName, targetId, pms[..|pms| - 1]);
            UpsertAll(t, cfgName, targetId, pms).Ok? <==>
              r1.Ok? && UpsertOne(r1.value.0, cfgName, targetId, pms[|pms| - 1]).Ok?
    ensures var r1 := UpsertAll(t, cfgName, targetId, pms[..|pms| - 1]);
            var r := UpsertAll(t, cfgName, targetId, pms);
            r.Ok? ==> var s := UpsertOne(r1.value.0, cfgName, targetId, pms[|pms| - 1]);
                      r.value.0 == s.value.0 && r.value.1 == r1.value.1 + (if s.value.1 then 1 else 0)
  {
    FoldLast(Upserter(cfgName, targetId), t, pms);
  }

  /** The whole loop only adds and keeps the target team, and keeps every match pointing at
      rows that exist. */
  lemma {:induction false} UpsertAllGrows(t: Tables, cfgName: string, targetId: string, pms: seq<ParsedMatch>)
    requires targetId in t.teams
    ensures var r := UpsertAll(t, cfgName, targetId, pms);
            r.Ok? ==> targetId in r.value.0.teams && Grows(t, r.value.0, targetId) &&
                      (RefsValid(t) ==> RefsValid(r.value.0))
    decreases |pms|
  {
    if pms != [] {
      var init, pm := pms[..|pms| - 1], pms[|pms| - 1];
      UpsertAllGrows(t, cfgName, targetId, init);
      UpsertAllLast(t, cfgName, targetId, pms);
      var r := UpsertAll(t, cfgName, targetId, pms);
      if r.Ok? {
        var t1 := UpsertAll(t, cfgName, targetId, init).value.0;
        UpsertOneKeeps(t1, cfgName, targetId, pm);
        UpsertOneGrows(t1, cfgName, targetId, pm);
        UpsertOneRefs(t1, cfgName, targetId, pm);
        GrowsTrans(t, t1, r.value.0, targetId);
      }
    }
  }

  /** The external keys of a list of records. */
  function KeysOf(pms: seq<ParsedMatch>): (r: set<string>)
    ensures forall i :: 0 <= i < |pms| ==> pms[i].externalKey in r
    ensures forall k :: k in r ==> exists i :: 0 <= i < |pms| && pms[i].externalKey == k
    decreases |pms|
  {
    if pms == [] then {} else KeysOf(pms[..|pms| - 1]) + {pms[|pms| - 1].externalKey}
  }

  /** The last record carrying key `k`: the one whose values the stored match keeps. */
  function LastWith(pms: seq<ParsedMatch>, k: string): (pm: ParsedMatch)
    requires k in KeysOf(pms)
    ensures pm.externalKey == k
    ensures exists i :: 0 <= i < |pms| && pms[i] == pm && forall j :: i < j < |pms| ==> pms[j].externalKey != k
    decreases |pms|
  {
    var init := pms[..|pms| - 1];
    if pms[|pms| - 1].externalKey == k then pms[|pms| - 1]
    else
      var pm := LastWith(init, k);
      assert forall j :: 0 <= j < |init| ==> init[j] == pms[j];
      pm
  }

  /** What MatchFrom says of the competition and venue rows survives appending to them. */
  lemma MatchFromGrows(m: Match, pm: ParsedMatch, cfgName: string, targetId: string,
                       comps: seq<Competition>, venues: seq<Venue>, comps': seq<Competition>, venues': seq<Venue>)
    requires MatchFrom(m, pm, cfgName, targetId, comps, venues)
    requires comps <= comps' && venues <= venues'
    ensures MatchFrom(m, pm, cfgName, targetId, comps', venues')
  {
    assert comps'[m.competition] == comps[m.competition];
    if m.venue.Some? {
      assert venues'[m.venue.value] == venues[m.venue.value];
    }
  }

  /** Each record's key is stored after the loop, with the values of the last record
      carrying it. */
  predicate StoredFrom(t: Tables, pms: seq<ParsedMatch>, cfgName: string, targetId: string) {
    forall k :: k in KeysOf(pms) ==>
      k in t.matches && MatchFrom(t.matches[k], LastWith(pms, k), cfgName, targetId, t.competitions, t.venues)
  }

  /** After the loop the stored match keys are those before plus the records' keys, and
      every match whose key no record carries is untouched. */
  lemma {:induction false} UpsertAllKeys(t: Tables, cfgName: string, targetId: string, pms: seq<ParsedMatch>)
    ensures var r := UpsertAll(t, cfgName, targetId, pms);
            r.Ok? ==>
              r.value.0.matches.Keys == t.matches.Keys + KeysOf(pms) &&
              (forall k :: k in t.matches && k !in KeysOf(pms) ==> r.value.0.matches[k] == t.matches[k])
    decreases |pms|
  {
    if pms != [] {
      var init, pm := pms[..|pms| - 1], pms[|pms| - 1];
      UpsertAllKeys(t, cfgName, targetId, init);
      UpsertAllLast(t, cfgName, targetId, pms);
      var r1 := UpsertAll(t, cfgName, targetId, init);
      if r1.Ok? {
        UpsertOneKey(r1.value.0, cfgName, targetId, pm);
      }
    }
  }

  /** After the loop every record's key holds what the last record with that key says. */
  lemma {:induction false} UpsertAllStored(t: Tables, cfgName: string, targetId: string, pms: seq<ParsedMatch>)
    ensures var r := UpsertAll(t, cfgName, targetId, pms);
            r.Ok? ==> StoredFrom(r.value.0, pms, cfgName, targetId)
    decreases |pms|
  {
    if pms != [] {
      var init, pm := pms[..|pms| - 1], pms[|pms| - 1];
      UpsertAllStored(t, cfgName, targetId, init);
      UpsertAllLast(t, cfgName, targetId, pms);
      var r1 := UpsertAll(t, cfgName, targetId, init);
      var r := UpsertAll(t, cfgName, targetId, pms);
      if r.Ok? {
        var t1 := r1.value.0;
        UpsertOneKey(t1, cfgName, targetId, pm);
        UpsertOneMatch(t1, cfgName, targetId, pm);
        UpsertOneKeeps(t1, cfgName, targetId, pm);
        var t2 := r.value.0;
        forall k | k in KeysOf(pms)
          ensures k in t2.matches && MatchFrom(t2.matches[k], LastWith(pms, k), cfgName, targetId, t2.competitions, t2.venues)
        {
          if k != pm.externalKey {
            assert k in KeysOf(init);
            MatchFromGrows(t1.matches[k], LastWith(init, k), cfgName, targetId,
                           t1.competitions, t1.venues, t2.competitions, t2.venues);
          }
        }
      }
    }
  }

  /** Every record either updates a stored match or creates one: the updated count plus the
      number of new matches is the number of records. */
  lemma {:induction false} UpsertAllCount(t: Tables, cfgName: string, targetId: string, pms: seq<ParsedMatch>)
    ensures var r := UpsertAll(t, cfgName, targetId, pms);
            r.Ok? ==> r.value.1 <= |pms| &&
                      |r.value.0.matches.Keys| == |t.matches.Keys| + (|pms| - r.value.1)
    decreases |pms|
  {
    if pms != [] {
      var init, pm := pms[..|pms| - 1], pms[|pms| - 1];
      UpsertAllCount(t, cfgName, targetId, init);
      UpsertAllLast(t, cfgName, targetId, pms);
      var r1 := UpsertAll(t, cfgName, targetId, init);
      if r1.Ok? {
        UpsertOneKey(r1.value.0, cfgName, targetId, pm);
      }
    }
  }

  // ---------------------------------------------------------------------------
  // Tables without duplicate competitions or venues

  /** No two rows share a key. */
  predicate KeysUnique<R, K(==)>(rows: seq<R>, key: R -> K) {
    forall i, j :: 0 <= i < j < |rows| ==> key(rows[i]) != key(rows[j])
  }

  /** No competition (name, season) and no venue name is stored twice, so get_or_create on
      them never raises. */
  predicate NoDuplicates(t: Tables) {
    KeysUnique(t.competitions, CompetitionKey) && KeysUnique(t.venues, VenueKey)
  }

  /** Appending a row whose key was missing keeps the keys unique. */
  lemma AppendMissingUnique<R, K>(rows: seq<R>, key: R -> K, row: R)
    requires KeysUnique(rows, key) && FindKey(rows, key, key(row)).Missing?
    ensures KeysUnique(rows + [row], key)
  {
    var rows' := rows + [row];
    forall i, j | 0 <= i < j < |rows'|
      ensures key(rows'[i]) != key(rows'[j])
    {
      if j == |rows| {
        assert rows'[i] == rows[i];
      } else {
        assert rows'[i] == rows[i] && rows'[j] == rows[j];
      }
    }
  }

  /** Without duplicates an upsert cannot raise, and it adds no duplicate. */
  lemma UpsertOneNoDuplicates(t: Tables, cfgName: string, targetId: string, pm: ParsedMatch)
    requires targetId in t.teams && NoDuplicates(t)
    ensures UpsertOne(t, cfgName, targetId, pm).Ok?
    ensures NoDuplicates(UpsertOne(t, cfgName, targetId, pm).value.0)
  {
    var ck := (pm.competitionName, pm.seasonName);
    var fc := FindKey(t.competitions, CompetitionKey, ck);
    if fc.Multiple? {
      assert false;
    }
    if fc.Missing? {
      AppendMissingUnique(t.competitions, CompetitionKey, Competition(pm.competitionName, pm.seasonName, pm.sourceUrl, true));
    }
    if pm.venueName.Some? && pm.venueName.value != [] {
      var fv := FindKey(t.venues, VenueKey, pm.venueName.value);
      if fv.Multiple? {
        assert false;
      }
      if fv.Missing? {
        AppendMissingUnique(t.venues, VenueKey, Venue(pm.venueName.value, None));
      }
    }
  }

  /** Without duplicates the whole loop succeeds, and leaves none. */
  lemma {:induction false} UpsertAllNoDuplicates(t: Tables, cfgName: string, targetId: string, pms: seq<ParsedMatch>)
    requires targetId in t.teams && NoDuplicates(t)
    ensures UpsertAll(t, cfgName, targetId, pms).Ok?
    ensures NoDuplicates(UpsertAll(t, cfgName, targetId, pms).value.0)
    decreases |pms|
  {
    if pms != [] {
      var init := pms[..|pms| - 1];
      UpsertAllNoDuplicates(t, cfgName, targetId, init);
      UpsertAllGrows(t, cfgName, targetId, init);
      var t1 := UpsertAll(t, cfgName, targetId, init).value.0;
      UpsertOneNoDuplicates(t1, cfgName, targetId, pms[|pms| - 1]);
      UpsertAllLast(t, cfgName, targetId, pms);
    }
  }

  /** Without duplicate competition and venue rows a record determines its match. */
  lemma MatchFromUnique(m1: Match, m2: Match, pm: ParsedMatch, cfgName: string, targetId: string,
                        comps: seq<Competition>, venues: seq<Venue>)
    requires KeysUnique(comps, CompetitionKey) && KeysUnique(venues, VenueKey)
    requires MatchFrom(m1, pm, cfgName, targetId, comps, venues)
    requires MatchFrom(m2, pm, cfgName, targetId, comps, venues)
    ensures m1 == m2
  {
    if m1.competition != m2.competition {
      assert false;
    }
    if m1.venue.Some? && m1.venue != m2.venue {
      assert false;
    }
  }

  /** From tables that already hold every record's key, the loop only updates. */
  lemma UpsertAllOnlyUpdates(t: Tables, cfgName: string, targetId: string, pms: seq<ParsedMatch>)
    requires targetId in t.teams && NoDuplicates(t) && KeysOf(pms) <= t.matches.Keys
    ensures UpsertAll(t, cfgName, targetId, pms).Ok?
    ensures UpsertAll(t, cfgName, targetId, pms).value.1 == |pms|
  {
    UpsertAllNoDuplicates(t, cfgName, targetId, pms);
    UpsertAllKeys(t, cfgName, targetId, pms);
    UpsertAllCount(t, cfgName, targetId, pms);
    var r := UpsertAll(t, cfgName, targetId, pms);
    assert t.matches.Keys + KeysOf(pms) == t.matches.Keys;
    assert |r.value.0.matches.Keys| == |t.matches.Keys|;
  }

  /** Two tables whose matches both hold what the records say, the second grown from the
      first without duplicates and with the same matches elsewhere, have the same matches. */
  lemma SameMatches(t: Tables, t2: Tables, pms: seq<ParsedMatch>, cfgName: string, targetId: string)
    requires NoDuplicates(t2) && t.competitions <= t2.competitions && t.venues <= t2.venues
    requires StoredFrom(t, pms, cfgName, targetId) && StoredFrom(t2, pms, cfgName, targetId)
    requires t2.matches.Keys == t.matches.Keys + KeysOf(pms)
    requires forall k :: k in t.matches && k !in KeysOf(pms) ==> t2.matches[k] == t.matches[k]
    ensures t2.matches == t.matches
  {
    assert t.matches.Keys + KeysOf(pms) == t.matches.Keys;
    forall k | k in t.matches
      ensures t2.matches[k] == t.matches[k]
    {
      if k in KeysOf(pms) {
        MatchFromGrows(t.matches[k], LastWith(pms, k), cfgName, targetId,
                       t.competitions, t.venues, t2.competitions, t2.venues);
        MatchFromUnique(t.matches[k], t2.matches[k], LastWith(pms, k), cfgName, targetId,
                        t2.competitions, t2.venues);
      }
    }
  }

  /** From tables without duplicates whose matches already hold what the records say, the
      loop leaves every match as it was. */
  lemma UpsertAllKeepsMatches(t: Tables, cfgName: string, targetId: string, pms: seq<ParsedMatch>)
    requires targetId in t.teams && NoDuplicates(t) && StoredFrom(t, pms, cfgName, targetId)
    ensures UpsertAll(t, cfgName, targetId, pms).Ok?
    ensures UpsertAll(t, cfgName, targetId, pms).value.0.matches == t.matches
  {
    UpsertAllNoDuplicates(t, cfgName, targetId, pms);
    UpsertAllGrows(t, cfgName, targetId, pms);
    UpsertAllKeys(t, cfgName, targetId, pms);
    UpsertAllStored(t, cfgName, targetId, pms);
    SameMatches(t, UpsertAll(t, cfgName, targetId, pms).value.0, pms, cfgName, targetId);
  }

  /** Running the ingestion again on the same records, from tables without duplicates,
      succeeds, counts every record as an update and leaves every match as it was. */
  lemma UpsertAllRerun(t: Tables, cfgName: string, targetId: string, pms: seq<ParsedMatch>)
    requires targetId in t.teams && NoDuplicates(t)
    ensures UpsertAll(t, cfgName, targetId, pms).Ok?
    ensures var t1 := UpsertAll(t, cfgName, targetId, pms).value.0;
            targetId in t1.teams &&
            UpsertAll(t1, cfgName, targetId, pms).Ok? &&
            UpsertAll(t1, cfgName, targetId, pms).value.1 == |pms| &&
            UpsertAll(t1, cfgName, targetId, pms).value.0.matches == t1.matches
  {
    UpsertAllNoDuplicates(t, cfgName, targetId, pms);
    UpsertAllGrows(t, cfgName, targetId, pms);
    var t1 := UpsertAll(t, cfgName, targetId, pms).value.0;
    UpsertAllKeys(t, cfgName, targetId, pms);
    UpsertAllStored(t, cfgName, targetId, pms);
    UpsertAllOnlyUpdates(t1, cfgName, targetId, pms);
    UpsertAllKeepsMatches(t1, cfgName, targetId, pms);
  }

  /** A side that contains the configured name only once it is stripped: the parser keeps the
      row, but the command compares the unstripped name, so that side is stored as an
      "auto:" opponent rather than as the target team. */
  lemma PaddedNameMissesTarget(baseUrl: string, template: string, id: string, name: string, away: string)
    requires Strip(name) != name
    ensures IsTargetMatch(NewParser(baseUrl, template, id, name), Strip(name), away)
    ensures !SideIsTarget(name, Strip(name))
    ensures SideId(name, id, Strip(name)) == AutoId(Strip(name))
  {
    var side := Strip(name);
    TargetNameStripped(baseUrl, template, id, name, side, away, 0);
    assert |side| < |name|;
  }

  // ---------------------------------------------------------------------------
  // The command

  const MissingConfigMessage := "TargetConfig missing or inactive."
  const EmptyIdMessage := "TargetConfig.target_ffcv_team_id is empty."

  /** f"{type(e).__name__}: {e}" */
  function ErrorText(e: Exception): string {
    e.kind + ": " + e.message
  }

  /** What one run of the command leaves: the entity tables, the IngestionRun row as finally
      saved, and the exception it re-raises, if any. */
  datatype HandleOutcome = HandleOutcome(tables: Tables, run: IngestionRun, raised: Option<Exception>)

  /** parse_team_matches as the command sees it: the fetch error or the kept records. */
  function Parsed(p: Parser, fetched: Result<seq<seq<Row>>, Exception>, pageUrl: string): Result<seq<ParsedMatch>, Exception> {
    if fetched.Err? then Err(fetched.error) else Kept(RowFn(p, pageUrl), AllDataRows(fetched.value))
  }

  /** The tables the atomic block starts its loop from: the target team ensured. */
  function WithTarget(t: Tables, id: string, cfgName: string): (r: Tables)
    ensures id in r.teams && r.teams[id].isTarget
    ensures r.competitions == t.competitions && r.venues == t.venues && r.rounds == t.rounds && r.matches == t.matches
  {
    t.(teams := EnsureTarget(t.teams, id, cfgName))
  }

  /** handle(): `scrape` is parse_team_matches on the parser the command builds (Parsed
      over the fetched page, for the command itself), `now` and `later` the two clock
      readings. An exception inside the atomic block rolls the tables back. */
  function HandleSpec(configs: seq<ConfigRow>, t: Tables, scrape: Parser -> Result<seq<ParsedMatch>, Exception>,
                      now: int, later: int): HandleOutcome {
    var run := NewIngestionRun(now).(finishedAt := Some(later));
    var cfg := FirstConfig(configs);
    if cfg.None? || !cfg.value.isActive then
      HandleOutcome(t, run.(status := Skipped, errors := Some(MissingConfigMessage)), None)
    else if cfg.value.targetFfcvTeamId.None? || cfg.value.targetFfcvTeamId.value == [] then
      HandleOutcome(t, run.(status := Error, errors := Some(EmptyIdMessage)), None)
    else
      var c := cfg.value;
      var id := c.targetFfcvTeamId.value;
      var parsed := scrape(NewParser(c.baseUrl, c.teamMatchesUrlTemplate, id, c.targetTeamName));
      if parsed.Err? then
        HandleOutcome(t, run.(status := Error, errors := Some(ErrorText(parsed.error))), Some(parsed.error))
      else
        var r := UpsertAll(WithTarget(t, id, c.targetTeamName), c.targetTeamName, id, parsed.value);
        if r.Err? then
          HandleOutcome(t, run.(status := Error, errors := Some(ErrorText(r.error))), Some(r.error))
        else
          HandleOutcome(r.value.0, run.(status := Success, parsedMatches := |parsed.value|, updatedMatches := r.value.1), None)
  }

  /** The run row always carries both clock readings; a run that raises is an ERROR naming
      the exception, counts nothing and leaves the tables as they were. */
  lemma HandleRaises(configs: seq<ConfigRow>, t: Tables, scrape: Parser -> Result<seq<ParsedMatch>, Exception>,
                     now: int, later: int)
    ensures var o := HandleSpec(configs, t, scrape, now, later);
            o.run.startedAt == now && o.run.finishedAt == Some(later)
    ensures var o := HandleSpec(configs, t, scrape, now, later);
            o.raised.Some? ==> o.tables == t && o.run.status == Error &&
                               o.run.errors == Some(ErrorText(o.raised.value)) &&
                               o.run.parsedMatches == 0 && o.run.updatedMatches == 0
  {
  }

  /** A run is SKIPPED exactly when there is no configuration or it is inactive; then it
      changes no table. */
  lemma HandleSkipped(configs: seq<ConfigRow>, t: Tables, scrape: Parser -> Result<seq<ParsedMatch>, Exception>,
                      now: int, later: int)
    ensures var o := HandleSpec(configs, t, scrape, now, later);
            o.run.status == Skipped <==> configs == [] || !FirstConfig(configs).value.isActive
    ensures var o := HandleSpec(configs, t, scrape, now, later);
            o.run.status == Skipped ==> o.tables == t && o.raised.None? && o.run.errors == Some(MissingConfigMessage)
  {
  }

  /** A successful run counts every kept record, at most as many updates, and one new match
      per record that did not update; the tables only grow and the target team is marked. */
  lemma HandleSuccess(configs: seq<ConfigRow>, t: Tables, scrape: Parser -> Result<seq<ParsedMatch>, Exception>,
                      now: int, later: int)
    ensures var o := HandleSpec(configs, t, scrape, now, later);
            o.run.status == Success ==>
              var id := FirstConfig(configs).value.targetFfcvTeamId.value;
              o.raised.None? &&
              o.run.updatedMatches <= o.run.parsedMatches &&
              |o.tables.matches.Keys| == |t.matches.Keys| + (o.run.parsedMatches - o.run.updatedMatches) &&
              id in o.tables.teams && o.tables.teams[id].isTarget &&
              t.competitions <= o.tables.competitions && t.venues <= o.tables.venues &&
              t.matches.Keys <= o.tables.matches.Keys
  {
    var o := HandleSpec(configs, t, scrape, now, later);
    if o.run.status == Success {
      var c := FirstConfig(configs).value;
      var id := c.targetFfcvTeamId.value;
      var parsed := scrape(NewParser(c.baseUrl, c.teamMatchesUrlTemplate, id, c.targetTeamName));
      var t0 := WithTarget(t, id, c.targetTeamName);
      UpsertAllCount(t0, c.targetTeamName, id, parsed.value);
      UpsertAllGrows(t0, c.targetTeamName, id, parsed.value);
    }
  }

  /** The configuration lets the command reach the parser: a first row that is active and
      has a non-empty team id. */
  predicate Runnable(configs: seq<ConfigRow>) {
    var cfg := FirstConfig(configs);
    cfg.Some? && cfg.value.isActive && cfg.value.targetFfcvTeamId.Some? && cfg.value.targetFfcvTeamId.value != []
  }

  /** The parser the command builds from a runnable configuration. */
  function ConfiguredParser(configs: seq<ConfigRow>): Parser
    requires Runnable(configs)
  {
    var c := FirstConfig(configs).value;
    NewParser(c.baseUrl, c.teamMatchesUrlTemplate, c.targetFfcvTeamId.value, c.targetTeamName)
  }

  /** An active first configuration without a team id ends the run as an ERROR with its
      message, before the parser is built: nothing is raised and no table changes. */
  lemma HandleEmptyId(configs: seq<ConfigRow>, t: Tables, scrape: Parser -> Result<seq<ParsedMatch>, Exception>,
                      now: int, later: int)
    requires FirstConfig(configs).Some? && FirstConfig(configs).value.isActive
    requires FirstConfig(configs).value.targetFfcvTeamId.None? || FirstConfig(configs).value.targetFfcvTeamId.value == []
    ensures var o := HandleSpec(configs, t, scrape, now, later);
            o.run.status == Error && o.run.errors == Some(EmptyIdMessage) && o.raised.None? && o.tables == t &&
            o.run.parsedMatches == 0 && o.run.updatedMatches == 0
  {
  }

  /** Unless the configuration is runnable the page is never parsed: the outcome is the same
      whatever the parser would return. */
  lemma HandleNotRunnableIgnoresScrape(configs: seq<ConfigRow>, t: Tables,
                                       scrape1: Parser -> Result<seq<ParsedMatch>, Exception>,
                                       scrape2: Parser -> Result<seq<ParsedMatch>, Exception>,
                                       now: int, later: int)
    requires !Runnable(configs)
    ensures HandleSpec(configs, t, scrape1, now, later) == HandleSpec(configs, t, scrape2, now, later)
    ensures HandleSpec(configs, t, scrape1, now, later).raised.None?
    ensures HandleSpec(configs, t, scrape1, now, later).tables == t
  {
  }

  /** From tables without duplicate competitions or venues, a run succeeds exactly when the
      configuration is runnable and the page parses. */
  lemma HandleSucceedsIff(configs: seq<ConfigRow>, t: Tables, scrape: Parser -> Result<seq<ParsedMatch>, Exception>,
                          now: int, later: int)
    requires NoDuplicates(t)
    ensures HandleSpec(configs, t, scrape, now, later).run.status == Success <==>
            Runnable(configs) && scrape(ConfiguredParser(configs)).Ok?
  {
    if Runnable(configs) && scrape(ConfiguredParser(configs)).Ok? {
      var c := FirstConfig(configs).value;
      var id := c.targetFfcvTeamId.value;
      UpsertAllNoDuplicates(WithTarget(t, id, c.targetTeamName), c.targetTeamName, id, scrape(ConfiguredParser(configs)).value);
    }
  }

  /** Running the command again on the same configuration and page, after a successful run
      from tables without duplicates, succeeds, counts every record as an update and leaves
      every match as the first run stored it. */
  lemma HandleRerun(configs: seq<ConfigRow>, t: Tables, scrape: Parser -> Result<seq<ParsedMatch>, Exception>,
                    now: int, later: int, now2: int, later2: int)
    requires NoDuplicates(t)
    requires HandleSpec(configs, t, scrape, now, later).run.status == Success
    ensures var o1 := HandleSpec(configs, t, scrape, now, later);
            var o2 := HandleSpec(configs, o1.tables, scrape, now2, later2);
            o2.run.status == Success && o2.run.updatedMatches == o2.run.parsedMatches == o1.run.parsedMatches &&
            o2.tables.matches == o1.tables.matches
  {
    var c := FirstConfig(configs).value;
    var id := c.targetFfcvTeamId.value;
    var pms := scrape(ConfiguredParser(configs)).value;
    var t0 := WithTarget(t, id, c.targetTeamName);
    UpsertAllRerun(t0, c.targetTeamName, id, pms);
    var t1 := UpsertAll(t0, c.targetTeamName, id, pms).value.0;
    HandleSuccess(configs, t, scrape, now, later);
    assert WithTarget(t1, id, c.targetTeamName) == t1;
  }

  /** The for loop of the atomic block, given its body `f` (Upserter for the command): the
      records are upserted in order and the updates counted; the first exception stops it,
      leaving the rollback to the caller. */
  method UpsertLoop(db: Store, f: Step, pms: seq<ParsedMatch>) returns (r: Result<nat, Exception>)
    modifies db
    ensures var u := Fold(f, old(db.tables), pms);
            (u.Err? ==> r == Err(u.error)) &&
            (u.Ok? ==> r == Ok(u.value.1) && db.tables == u.value.0)
    ensures db.configs == old(db.configs) && db.runs == old(db.runs)
  {
    ghost var t0 := db.tables;
    var updated := 0;
    var i := 0;
    while i < |pms|
      invariant 0 <= i <= |pms|
      invariant Fold(f, t0, pms[..i]) == Ok((db.tables, updated))
      invariant db.configs == old(db.configs) && db.runs == old(db.runs)
    {
      FoldSnoc(f, t0, pms[..i], pms[i]);
      assert pms[..i] + [pms[i]] == pms[..i + 1];
      var step := f(db.tables, pms[i]);
      if step.Err? {
        FoldPrefixErr(f, t0, pms, i + 1);
        return Err(step.error);
      }
      db.tables := step.value.0;
      if step.value.1 {
        updated := updated + 1;
      }
      i := i + 1;
    }
    assert pms[..i] == pms;
    return Ok(updated);
  }

  /** handle(): the run row is created first and saved again in the `finally` block with
      the second clock reading; the atomic block ensures the target team and upserts every
      record, and an exception inside it restores the tables it started from. */
  method Handle(db: Store, fetched: Result<seq<seq<Row>>, Exception>, pageUrl: string, now: int, later: int)
    returns (raised: Option<Exception>)
    modifies db
    ensures var o := HandleSpec(old(db.configs), old(db.tables), p => Parsed(p, fetched, pageUrl), now, later);
            db.tables == o.tables && db.runs == old(db.runs) + [o.run] && raised == o.raised
    ensures db.configs == old(db.configs)
  {
    var run := NewIngestionRun(now);
    db.runs := db.runs + [run];
    raised := None;
    var cfg := FirstConfig(db.configs);
    if cfg.None? || !cfg.value.isActive {
      run := run.(status := Skipped, errors := Some(MissingConfigMessage));
    } else if cfg.value.targetFfcvTeamId.None? || cfg.value.targetFfcvTeamId.value == [] {
      run := run.(status := Error, errors := Some(EmptyIdMessage));
    } else {
      var c := cfg.value;
      var id := c.targetFfcvTeamId.value;
      var parser := NewParser(c.baseUrl, c.teamMatchesUrlTemplate, id, c.targetTeamName);
      var parsed := ParseTeamMatches(parser, fetched, pageUrl);
      if parsed.Err? {
        run := run.(status := Error, errors := Some(ErrorText(parsed.error)));
        raised := Some(parsed.error);
      } else {
        var snapshot := db.tables;
        db.tables := WithTarget(db.tables, id, c.targetTeamName);
        var r := UpsertLoop(db, Upserter(c.targetTeamName, id), parsed.value);
        if r.Err? {
          db.tables := snapshot;
          run := run.(status := Error, errors := Some(ErrorText(r.error)));
          raised := Some(r.error);
        } else {
          run := run.(status := Success, parsedMatches := |parsed.value|, updatedMatches := r.value);
        }
      }
    }
    run := run.(finishedAt := Some(later));
    db.runs := db.runs[|db.runs| - 1 := run];
  }
}
