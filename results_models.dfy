/** The tables of the results app (apps/results_pars/models.py): one datatype per row kind,
    the status enumerations with their defaults, and the lookups that Django's
    QuerySet.get performs on tables that have no uniqueness constraint. */
module ResultsModels {
  import opened Wrappers
  import opened Calendar
  import Text

  /** Match.Status. The field's default, Unknown, is never used: the command always sets
      the status the parser inferred. */
  datatype MatchStatus = Scheduled | Played | Postponed | Cancelled | Unknown

  /** IngestionRun.RunStatus; a new run defaults to Skipped. */
  datatype RunStatus = Success | Error | Skipped

  const DefaultRunStatus: RunStatus := Skipped

  /** TargetConfig: the singleton settings row of the ingestion job. */
  datatype TargetConfig = TargetConfig(
    isActive: bool,
    targetTeamName: string,
    targetFfcvTeamId: Option<string>,
    baseUrl: string,
    teamMatchesUrlTemplate: string,
    calendarUrlTemplate: Option<string>,
    standingsUrlTemplate: Option<string>,
    pollIntervalMinutes: nat)

  const DefaultTargetConfig: TargetConfig := TargetConfig(
    true, "AT Gilet", None, "https://www.ffcv.es",
    "/equipo_p_partidos.php?id_equipo={team_id}", None, None, 60)

  /** Team, stored under its unique ffcv_team_id. */
  datatype Team = Team(name: string, shieldUrl: Option<string>, isTarget: bool)

  /** CompetitionContext (the federation id columns are never written by the ingestion and are not modelled). */
  datatype Competition = Competition(name: string, seasonName: Option<string>, sourceUrl: string, isActive: bool)

  /** The unique key of a Round: (competition, round_number). */
  datatype RoundKey = RoundKey(competition: nat, roundNumber: nat)

  datatype Round = Round(roundDate: Option<Date>)

  datatype Venue = Venue(name: string, address: Option<string>)

  /** Match, stored under its unique external_key. Teams are referenced by their ffcv_team_id,
      competitions and venues by their row index, rounds by their unique key. */
  datatype Match = Match(
    competition: nat,
    round: Option<RoundKey>,
    kickoffAt: Option<DateTime>,
    homeTeam: string,
    awayTeam: string,
    homeScore: Option<nat>,
    awayScore: Option<nat>,
    status: MatchStatus,
    resultNote: Option<string>,
    venue: Option<nat>,
    sourceUrl: string,
    isTargetMatch: bool)

  /** The unique key of a StandingsRow: (snapshot, team). No flow writes standings. */
  datatype StandingsKey = StandingsKey(snapshot: nat, team: string)

  /** IngestionRun: the audit row of one run; timestamps are opaque integers. */
  datatype IngestionRun = IngestionRun(
    startedAt: int,
    finishedAt: Option<int>,
    status: RunStatus,
    parsedMatches: nat,
    updatedMatches: nat,
    errors: Option<string>)

  /** IngestionRun.objects.create(status=SKIPPED, started_at=now): every other column at its default. */
  function NewIngestionRun(startedAt: int): IngestionRun {
    IngestionRun(startedAt, None, DefaultRunStatus, 0, 0, None)
  }

  /** A run starts SKIPPED, unfinished, with nothing counted and no error text. */
  lemma NewIngestionRunDefaults(startedAt: int)
    ensures var run := NewIngestionRun(startedAt);
            run.status == Skipped && run.startedAt == startedAt && run.finishedAt.None? &&
            run.parsedMatches == 0 && run.updatedMatches == 0 && run.errors.None?
  {
  }

  /** The entity tables the ingestion writes. Team, Round and Match carry a uniqueness
      constraint on their key and are maps; Competition and Venue have none and are sequences
      indexed by row id. */
  datatype Tables = Tables(
    teams: map<string, Team>,
    competitions: seq<Competition>,
    rounds: map<RoundKey, Round>,
    venues: seq<Venue>,
    matches: map<string, Match>)

  // ---------------------------------------------------------------------------
  // QuerySet.get on a table without a uniqueness constraint

  datatype Lookup = Missing | Found(id: nat) | Multiple(count: nat)

  /** How many rows carry key `k`. */
  function CountKey<R, K(==)>(rows: seq<R>, key: R -> K, k: K): nat {
    if rows == [] then 0
    else CountKey(rows[..|rows| - 1], key, k) + (if key(rows[|rows| - 1]) == k then 1 else 0)
  }

  /** get(): no row, the one row, or how many rows carry the key. */
  function FindKey<R, K(==)>(rows: seq<R>, key: R -> K, k: K): (r: Lookup)
    ensures r.Missing? <==> CountKey(rows, key, k) == 0
    ensures r.Missing? <==> forall i :: 0 <= i < |rows| ==> key(rows[i]) != k
    ensures r.Found? ==> r.id < |rows| && key(rows[r.id]) == k &&
                         forall i :: 0 <= i < |rows| && key(rows[i]) == k ==> i == r.id
    ensures r.Found? <==> CountKey(rows, key, k) == 1
    ensures r.Multiple? ==> r.count == CountKey(rows, key, k) >= 2
    ensures r.Multiple? ==> exists i, j :: 0 <= i < j < |rows| && key(rows[i]) == k && key(rows[j]) == k
  {
    if rows == [] then Missing
    else
      var init := rows[..|rows| - 1];
      var last := |rows| - 1;
      assert forall i :: 0 <= i < last ==> rows[i] == init[i];
      match FindKey(init, key, k)
      case Missing => if key(rows[last]) == k then Found(last) else Missing
      case Found(id) => if key(rows[last]) == k then Multiple(2) else Found(id)
      case Multiple(n) => if key(rows[last]) == k then Multiple(n + 1) else Multiple(n)
  }

  /** Appending a row with a key that was absent makes that row the one found, and leaves
      every other key's lookup as it was. */
  lemma FindKeyAppend<R, K>(rows: seq<R>, key: R -> K, row: R, k: K)
    ensures key(row) != k ==> FindKey(rows + [row], key, k) == FindKey(rows, key, k)
    ensures key(row) == k && FindKey(rows, key, k).Missing? ==> FindKey(rows + [row], key, k) == Found(|rows|)
  {
    assert (rows + [row])[..|rows + [row]| - 1] == rows;
  }

  function CompetitionKey(c: Competition): (string, Option<string>) {
    (c.name, c.seasonName)
  }

  function VenueKey(v: Venue): string {
    v.name
  }

  /** Django's cap on the rows get() fetches (MAX_GET_RESULTS) and the message it raises with. */
  const MaxGetResults := 21

  function MultipleObjectsReturned(model: string, count: nat): Exception {
    var shown := if count < MaxGetResults then Text.NatToString(count) else "more than " + Text.NatToString(MaxGetResults - 1);
    Exception("MultipleObjectsReturned", "get() returned more than one " + model + " -- it returned " + shown + "!")
  }

  // ---------------------------------------------------------------------------
  // The TargetConfig table and its singleton rule

  /** A stored TargetConfig row with its primary key. */
  datatype ConfigRow = ConfigRow(pk: nat, cfg: TargetConfig)

  predicate UniquePks(rows: seq<ConfigRow>) {
    forall i, j :: 0 <= i < |rows| && 0 <= j < |rows| && rows[i].pk == rows[j].pk ==> i == j
  }

  /** The row with the smallest primary key: TargetConfig.objects.first() on a model without
      a default ordering orders by pk. */
  function FirstIndex(rows: seq<ConfigRow>): (i: nat)
    requires rows != []
    ensures i < |rows| && forall j :: 0 <= j < |rows| ==> rows[i].pk <= rows[j].pk
    decreases |rows|
  {
    if |rows| == 1 then 0
    else
      var k := FirstIndex(rows[..|rows| - 1]);
      if rows[|rows| - 1].pk < rows[k].pk then |rows| - 1 else k
  }

  function FirstConfig(rows: seq<ConfigRow>): (r: Option<TargetConfig>)
    ensures r.None? <==> rows == []
  {
    if rows == [] then None else Some(rows[FirstIndex(rows)].cfg)
  }

  const SingletonMessage := "Only one TargetConfig record is allowed."

  /** `not self.pk`: no primary key, or the falsy key 0. */
  predicate NoPk(pk: Option<nat>) {
    pk.None? || pk.value == 0
  }

  /** The check shared by clean and save: an instance whose primary key is missing or 0 may
      not be saved while any row exists. */
  function SingletonCheck(rows: seq<ConfigRow>, pk: Option<nat>): (r: Option<Exception>)
    ensures r.Some? <==> (pk.None? || pk.value == 0) && rows != []
    ensures r.Some? ==> r.value == Exception(ValueError, SingletonMessage)
  {
    if NoPk(pk) && rows != [] then Some(Exception(ValueError, SingletonMessage)) else None
  }

  /** The index of the row with primary key `pk`, if any. */
  function IndexOfPk(rows: seq<ConfigRow>, pk: nat): (r: Option<nat>)
    ensures r.Some? ==> r.value < |rows| && rows[r.value].pk == pk
    ensures r.None? ==> forall i :: 0 <= i < |rows| ==> rows[i].pk != pk
    decreases |rows|
  {
    if rows == [] then None
    else if rows[|rows| - 1].pk == pk then Some(|rows| - 1)
    else IndexOfPk(rows[..|rows| - 1], pk)
  }

  /** TargetConfig.save: the singleton check, then Django's save, which updates the row with
      the given primary key or inserts one (under `newPk`, the key the database assigns, when
      none is given). The result is the new table. */
  function SaveConfigResult(rows: seq<ConfigRow>, pk: Option<nat>, cfg: TargetConfig, newPk: nat): Result<seq<ConfigRow>, Exception> {
    if SingletonCheck(rows, pk).Some? then Err(SingletonCheck(rows, pk).value)
    else if pk.None? then Ok([ConfigRow(newPk, cfg)])
    else match IndexOfPk(rows, pk.value)
      case Some(i) => Ok(rows[i := ConfigRow(pk.value, cfg)])
      case None => Ok(rows + [ConfigRow(pk.value, cfg)])
  }

  /** save() raises exactly when clean() would, and then changes nothing. */
  lemma SaveRaisesIffClean(rows: seq<ConfigRow>, pk: Option<nat>, cfg: TargetConfig, newPk: nat)
    ensures SaveConfigResult(rows, pk, cfg, newPk).Err? <==> SingletonCheck(rows, pk).Some?
    ensures SaveConfigResult(rows, pk, cfg, newPk).Err? ==>
              SaveConfigResult(rows, pk, cfg, newPk).error == Exception(ValueError, SingletonMessage)
  {
  }

  /** Saves without a primary key never leave more than one row: the first one inserts into
      an empty table, every later one raises. Updating a stored row keeps the count. */
  lemma SaveKeepsSingleton(rows: seq<ConfigRow>, pk: Option<nat>, cfg: TargetConfig, newPk: nat)
    requires |rows| <= 1
    requires pk.None? || IndexOfPk(rows, pk.value).Some?
    ensures SaveConfigResult(rows, pk, cfg, newPk).Ok? ==> |SaveConfigResult(rows, pk, cfg, newPk).value| <= 1
    ensures SaveConfigResult(rows, pk, cfg, newPk).Ok? && pk.Some? ==>
              |SaveConfigResult(rows, pk, cfg, newPk).value| == |rows|
  {
  }

  /** Saving with an explicit, non-zero primary key that no row has is an insert the check
      lets through: a second row appears. */
  lemma SaveExplicitNewPkAddsRow(rows: seq<ConfigRow>, p: nat, cfg: TargetConfig, newPk: nat)
    requires |rows| == 1 && rows[0].pk != p && p != 0
    ensures SaveConfigResult(rows, Some(p), cfg, newPk) == Ok(rows + [ConfigRow(p, cfg)])
    ensures |SaveConfigResult(rows, Some(p), cfg, newPk).value| == 2
  {
    assert IndexOfPk(rows[..0], p) == None;
  }

  /** A primary key of 0 is falsy, so it is refused like a missing one once a row exists. */
  lemma SaveZeroPkRaises(rows: seq<ConfigRow>, cfg: TargetConfig, newPk: nat)
    requires rows != []
    ensures SaveConfigResult(rows, Some(0), cfg, newPk) == Err(Exception(ValueError, SingletonMessage))
    ensures SaveConfigResult(rows, Some(0), cfg, newPk) == SaveConfigResult(rows, None, cfg, newPk)
  {
  }

  /** Every successful save keeps primary keys unique and stores `cfg` under the key used. */
  lemma SaveKeepsPksUnique(rows: seq<ConfigRow>, pk: Option<nat>, cfg: TargetConfig, newPk: nat)
    requires UniquePks(rows)
    ensures var r := SaveConfigResult(rows, pk, cfg, newPk);
            r.Ok? ==> UniquePks(r.value) &&
                      exists i :: 0 <= i < |r.value| && r.value[i] == ConfigRow(if pk.Some? then pk.value else newPk, cfg)
  {
    var r := SaveConfigResult(rows, pk, cfg, newPk);
    if r.Ok? {
      if pk.None? {
        assert r.value[0] == ConfigRow(newPk, cfg);
      } else if IndexOfPk(rows, pk.value).Some? {
        var i := IndexOfPk(rows, pk.value).value;
        assert r.value[i] == ConfigRow(pk.value, cfg);
      } else {
        assert r.value[|rows|] == ConfigRow(pk.value, cfg);
      }
    }
  }

  // ---------------------------------------------------------------------------
  // The database

  /** The stored rows the ingestion reads and writes. */
  class Store {
    var configs: seq<ConfigRow>
    var tables: Tables
    var runs: seq<IngestionRun>

    constructor(configs: seq<ConfigRow>, tables: Tables, runs: seq<IngestionRun>)
      ensures this.configs == configs && this.tables == tables && this.runs == runs
    {
      this.configs := configs;
      this.tables := tables;
      this.runs := runs;
    }

    /** TargetConfig.clean for an instance with primary key `pk`: reads the table, changes nothing. */
    method Clean(pk: Option<nat>) returns (raised: Option<Exception>)
      ensures raised == SingletonCheck(configs, pk)
    {
      if NoPk(pk) && |configs| > 0 {
        return Some(Exception(ValueError, SingletonMessage));
      }
      return None;
    }

    /** TargetConfig.save: raises and changes nothing, or stores the row. */
    method SaveConfig(pk: Option<nat>, cfg: TargetConfig, newPk: nat) returns (raised: Option<Exception>)
      modifies this
      ensures var r := SaveConfigResult(old(configs), pk, cfg, newPk);
              (raised.Some? <==> r.Err?) && (r.Err? ==> raised.value == r.error && configs == old(configs)) &&
              (r.Ok? ==> configs == r.value)
      ensures tables == old(tables) && runs == old(runs)
    {
      if NoPk(pk) && |configs| > 0 {
        return Some(Exception(ValueError, SingletonMessage));
      }
      if pk.None? {
        configs := [ConfigRow(newPk, cfg)];
        return None;
      }
      var found := IndexOfPk(configs, pk.value);
      if found.Some? {
        configs := configs[found.value := ConfigRow(pk.value, cfg)];
      } else {
        configs := configs + [ConfigRow(pk.value, cfg)];
      }
      return None;
    }
  }
}
