# atgilet results ingestion, modelled in Dafny

This project models the core of the atgilet site, which scrapes fixtures and results of the
AT Gilet football team from the FFCV federation site.

The model covers:

- **The FFCV row parser** (`FfcvParser`, with the regular expressions in `ScoreRegex`,
  `RoundRegex`, `VenueRegex`, `DateTimeRegex` and `TeamsRegex`, and the Python string and
  `datetime` behaviour they rely on in `Text` and `Calendar`). It turns the rows of the
  team's fixtures page into `ParsedMatch` records. It keeps a row only when all of these hold:
  - the row follows the header row of a table;
  - it has at least four cells;
  - it contains a hyphen;
  - it parses;
  - it names the target team.
- **The `parse_ffcv_results` management command** (`ParseFfcvResults`). It does the following:
  - reads the singleton `TargetConfig`;
  - runs the parser;
  - inside one transaction, upserts every record with the teams, competition, round and venue
    it refers to;
  - records the run in an `IngestionRun` row.

  `HandleSpec` is the command as a function of the configuration, the tables and the parse
  result. `Handle` is the imperative command over a `Store` and is proved equal to it. The loop
  body is `UpsertOne`, the loop is `UpsertAll` (an instance of the generic `Fold`), and
  `UpsertLoop` is the `for` loop proved against `Fold`.
- **The results tables** (`ResultsModels`): one datatype per row kind, and the status
  enumerations with their defaults. It also covers `QuerySet.get` on tables without a
  uniqueness constraint, and the singleton rule of `TargetConfig.save` and `clean`.
  - Team, Round and Match have unique keys and are maps, so their uniqueness constraints hold
    by construction.
  - Competition and Venue have no such constraint. They are sequences, and `get_or_create` on
    them can raise `MultipleObjectsReturned`.
- **News posts** (`News`): the slug loop of `NewsPost.save` and the `tag_list` property.
- **The front router** (`FrontRouter`): the site root serves the under-construction page
  while the site is in maintenance, except to signed-in staff.

Inputs the model takes as parameters rather than computing:

- **The page.** It is given as tables of rows: each row has its cell texts, its text, and
  the absolute URL of its first link.
- **The page URL.**
- **Clock readings.** They are given as integers.
- **slugify.** Its output is given as an input.
- **New primary keys.** The key the database assigns is a parameter.

Several behaviours of the source are worth knowing:

- **Padded target name.** The parser strips the configured team name before it filters rows.
  The command compares the stored, unstripped name. `PaddedNameMissesTarget` shows the effect:
  a padded name keeps the row, but the target side is stored as an `auto:` opponent.
- **Dates read as scores.** A hyphenated date such as `14-12-2025` is read as a score
  (`ExtractScoreAtStart`). The row is then PLAYED.
- **Settings model name.** `apps/atgilet/views.py` imports `SettingsConfig`, but
  `apps/siteconfig/models.py` defines `SiteSettings`. The router is modelled on the one
  boolean both would carry, `maintenance_mode`.

## Model

| member | source | states |
|---|---|---|
| FfcvParser.NewParser | apps/results_pars/services/ffcv_parser.py:38-42 | base URL loses its trailing slashes and only those; target name has no edge whitespace; template and id kept |
| FfcvParser.TargetNameStripped | apps/results_pars/services/ffcv_parser.py:90-92 | a side containing the stripped, lower-cased configured name at any position makes the row a target match |
| FfcvParser.BlankTargetKeepsAll | apps/results_pars/services/ffcv_parser.py:90-92 | an empty (or all-blank) configured name keeps every row |
| FfcvParser.InferStatus | apps/results_pars/services/ffcv_parser.py:114-125 | PLAYED iff a score was found; POSTPONED iff no score and "aplaz"/"suspend"; CANCELLED iff no score, neither of those, and "anul"/"cancel"; never UNKNOWN |
| FfcvParser.ExtractDatetimeSpec | apps/results_pars/services/ffcv_parser.py:158-164 | None iff the date-time pattern occurs nowhere; ValueError iff the first match has a field out of range; otherwise the valid datetime of its groups |
| FfcvParser.ExternalKeyNormalised | apps/results_pars/services/ffcv_parser.py:178-182 | the external key has no edge whitespace and no whitespace other than single spaces |
| FfcvParser.SentinelFieldsPlain | apps/results_pars/services/ffcv_parser.py:179-180 | the kickoff and round fields ("nodt", "nornd" or digits) hold no whitespace and no '\|' |
| FfcvParser.ExternalKeyFields | apps/results_pars/services/ffcv_parser.py:178-182 | for whitespace- and '\|'-free names and URL, the key is the '\|'-joined fields and splitting it on '\|' gives them back |
| FfcvParser.ExternalKeyInjective | apps/results_pars/services/ffcv_parser.py:178-182 | under the same conditions, equal keys mean equal URL, names, kickoff and round |
| FfcvParser.KickoffTextInjective | apps/results_pars/services/ffcv_parser.py:179 | distinct valid kickoffs (or none) give distinct key fields |
| FfcvParser.RoundTextInjective | apps/results_pars/services/ffcv_parser.py:180 | distinct round numbers (or none) give distinct key fields |
| FfcvParser.ParseMatchRowNoTeams | apps/results_pars/services/ffcv_parser.py:102-105 | a row yields no record and no error exactly when the "home - away" pattern matches nowhere |
| FfcvParser.ParseMatchRowError | apps/results_pars/services/ffcv_parser.py:102-128 | a row raises exactly when it has a team pair and its date-time is out of range, and then with ValueError |
| FfcvParser.ParseMatchRowRecord | apps/results_pars/services/ffcv_parser.py:94-156 | a record has both scores or neither, taken from the score pattern; PLAYED iff scored; placeholder competition, no season or note; valid kickoff; round, venue, URL, teams and key as extracted |
| FfcvParser.DataRows | apps/results_pars/services/ffcv_parser.py:63-67 | a table of fewer than two rows contributes nothing, otherwise every row after the first, in order |
| FfcvParser.RowOutcomeRecord | apps/results_pars/services/ffcv_parser.py:67-86 | a row contributes a record iff it has four cells and a hyphen, parses to that record, and the record names the target |
| FfcvParser.KeptMembers | apps/results_pars/services/ffcv_parser.py:62-88 | a record is in the result iff some data row is a candidate, parses to it and names the target |
| FfcvParser.KeptAtMostRows | apps/results_pars/services/ffcv_parser.py:62-88 | never more records than data rows |
| FfcvParser.ParseTeamMatches | apps/results_pars/services/ffcv_parser.py:53-88 | the fetch error, or the records of the kept rows in page order, or the first exception a row raises |
| FfcvParser.ScanTables | apps/results_pars/services/ffcv_parser.py:62-88 | the table loop returns the kept records of all data rows, table after table |
| FfcvParser.ScanTable | apps/results_pars/services/ffcv_parser.py:67-86 | the row loop extends the records kept so far with those of one table's data rows |
| ScoreRegex.ExtractScoreNone | apps/results_pars/services/ffcv_parser.py:110-112 | no score iff digits-hyphen-digits occurs nowhere |
| ScoreRegex.ExtractScoreLeftmost | apps/results_pars/services/ffcv_parser.py:110-112 | a score is read at the leftmost match of the pattern |
| ScoreRegex.ScoreAtComplete | apps/results_pars/services/ffcv_parser.py:110 | where the pattern matches, the two numbers read are the full digit runs |
| ScoreRegex.ScoreAtSound | apps/results_pars/services/ffcv_parser.py:110 | a score read comes from a match of the pattern |
| ScoreRegex.ExtractScoreAtStart | apps/results_pars/services/ffcv_parser.py:110-112 | a text opening with a hyphenated date reads day and month as the score |
| RoundRegex.ExtractRoundNone | apps/results_pars/services/ffcv_parser.py:166-168 | no round iff "jornada" (any case), whitespace and digits occur nowhere |
| RoundRegex.ExtractRoundLeftmost | apps/results_pars/services/ffcv_parser.py:166-168 | the round is the full number after the leftmost match |
| VenueRegex.ExtractVenueNone | apps/results_pars/services/ffcv_parser.py:170-173 | no venue iff no Campo/Pabellón/Instalación label heads a colon and a non-empty, '\|'-free rest of the text |
| VenueRegex.ExtractVenueLeftmost | apps/results_pars/services/ffcv_parser.py:170-173 | the venue is the stripped rest after the colon of the leftmost match |
| VenueRegex.VenueAtIsRest | apps/results_pars/services/ffcv_parser.py:172 | after a label and colon, the venue pattern succeeds iff the rest is non-empty and '\|'-free, and yields it stripped |
| DateTimeRegex.FindDateTimeNone | apps/results_pars/services/ffcv_parser.py:160-162 | no date-time iff D[/-]M[/-]YYYY, a newline-free gap and H:MM occur nowhere |
| DateTimeRegex.FindDateTimeLeftmost | apps/results_pars/services/ffcv_parser.py:160 | the date-time is read at the leftmost match |
| TeamsRegex.ExtractTeamsSpec | apps/results_pars/services/ffcv_parser.py:102-107 | a team pair is found iff "home - away" followed by a score or the end matches somewhere, and it is the stripped groups of a match |
| TeamsRegex.TailOkComplete | apps/results_pars/services/ffcv_parser.py:102 | any whitespace-then-score-or-end tail is recognised |
| Calendar.Construct | apps/results_pars/services/ffcv_parser.py:164 | datetime(y, mo, d, hh, mm) succeeds iff every field is in range, else raises ValueError |
| Calendar.FormatRoundTrip | apps/results_pars/services/ffcv_parser.py:179 | strftime("%Y%m%d%H%M") of a valid datetime is 12 digits that read back as its fields |
| Calendar.FormatInjective | apps/results_pars/services/ffcv_parser.py:179 | distinct valid datetimes format differently |
| Text.FindIffContains | apps/results_pars/management/commands/parse_ffcv_results.py:71-72 | `s.find(sub) >= 0` is the same test as `sub in s` |
| Text.StripUnique | apps/results_pars/services/ffcv_parser.py:42 | strip() is the unique cut with whitespace only outside it and none at its edges |
| Text.SplitJoin | apps/results_pars/services/ffcv_parser.py:181 | splitting '\|'-joined separator-free fields gives the fields back |
| Text.CollapseSpacesSpec | apps/results_pars/services/ffcv_parser.py:182 | collapsing whitespace leaves single spaces only, never two in a row, and keeps the other characters in order |
| Text.Normalised | apps/results_pars/services/ffcv_parser.py:182 | collapse then strip gives a text with single spaces and no edge whitespace |
| Text.NatToString | apps/results_pars/services/ffcv_parser.py:180 | str(n) is non-empty decimal digits that read back as n, without a leading zero |
| ResultsModels.NewIngestionRunDefaults | apps/results_pars/models.py:154-161 | a new run is SKIPPED, unfinished, with zero counts and no error text |
| ResultsModels.FirstConfig | apps/results_pars/management/commands/parse_ffcv_results.py:18 | objects.first() finds a row iff the table is non-empty |
| ResultsModels.FirstIndex | apps/results_pars/management/commands/parse_ffcv_results.py:18 | first() is the row with the smallest primary key |
| ResultsModels.FindKey | apps/results_pars/management/commands/parse_ffcv_results.py:55-59 | get() finds nothing iff no row has the key, one row iff exactly one does, and otherwise reports the count and two rows sharing it |
| ResultsModels.FindKeyAppend | apps/results_pars/management/commands/parse_ffcv_results.py:55-59 | appending a row with another key does not change a lookup; appending the first row with the key makes it found |
| ResultsModels.SingletonCheck | apps/results_pars/models.py:21-24 | raises ValueError("Only one TargetConfig record is allowed.") iff the instance's pk is missing or the falsy 0 and a row exists |
| ResultsModels.Store.Clean | apps/results_pars/models.py:21-24 | clean() raises the singleton error exactly when the pk is missing or 0 and a row exists, and changes nothing |
| ResultsModels.SaveRaisesIffClean | apps/results_pars/models.py:26-29 | save() raises exactly when clean() would, with the same error |
| ResultsModels.SaveKeepsSingleton | apps/results_pars/models.py:27-29 | inserting without a pk or updating a stored row never leaves more than one row |
| ResultsModels.SaveExplicitNewPkAddsRow | apps/results_pars/models.py:27-29 | saving with a non-zero pk that is not stored adds a second row: the guard only covers saves whose pk is falsy |
| ResultsModels.SaveZeroPkRaises | apps/results_pars/models.py:27-28 | once a row exists, saving with pk 0 raises the singleton error, exactly as saving without a pk does |
| ResultsModels.SaveKeepsPksUnique | apps/results_pars/models.py:26-29 | a save keeps primary keys unique and stores the row under its pk |
| ResultsModels.Store.SaveConfig | apps/results_pars/models.py:26-29 | the store raises and keeps its rows, or holds the saved table; other tables unchanged |
| ParseFfcvResults.EnsureTarget | apps/results_pars/management/commands/parse_ffcv_results.py:43-49 | the target team exists and is marked target; created with the configured name, else name and shield kept; no other team changes |
| ParseFfcvResults.ResolveSide | apps/results_pars/management/commands/parse_ffcv_results.py:71-90 | a target side renames the target team to the observed spelling; any other side adds "auto:&lt;name&gt;" with is_target false if absent and leaves it as it is otherwise |
| ParseFfcvResults.SideTeams | apps/results_pars/management/commands/parse_ffcv_results.py:71-90 | both sides resolved: the team keys grow by the two side ids; the target keeps its flag and shield; other teams unchanged |
| ParseFfcvResults.GetOrCreateCompetition | apps/results_pars/management/commands/parse_ffcv_results.py:55-59 | the row keyed (name, season), appended with the record's URL and active when missing; MultipleObjectsReturned iff several rows share the key |
| ParseFfcvResults.GetOrCreateRound | apps/results_pars/management/commands/parse_ffcv_results.py:62-68 | no round without a number; else the (competition, number) round, created with the kickoff date, stored rounds unchanged |
| ParseFfcvResults.GetOrCreateVenue | apps/results_pars/management/commands/parse_ffcv_results.py:92-94 | no venue for an empty name; else the row with that name, appended when missing; MultipleObjectsReturned iff several share it |
| ParseFfcvResults.UpsertOneKeeps | apps/results_pars/management/commands/parse_ffcv_results.py:51-114 | one iteration keeps every stored competition, venue, round and match key, and changes no team but the target's name |
| ParseFfcvResults.UpsertOneGrows | apps/results_pars/management/commands/parse_ffcv_results.py:51-114 | with the target team stored, an iteration keeps it and can only raise MultipleObjectsReturned |
| ParseFfcvResults.UpsertOneKey | apps/results_pars/management/commands/parse_ffcv_results.py:96-114 | an iteration writes the record's key and no other match, and reports an update iff the key was stored |
| ParseFfcvResults.UpsertOneMatch | apps/results_pars/management/commands/parse_ffcv_results.py:96-112 | the match written holds the record's fields, its resolved teams, competition, round and venue, and is_target_match |
| ParseFfcvResults.UpsertOneRefs | apps/results_pars/management/commands/parse_ffcv_results.py:96-112 | every match keeps pointing at stored rows |
| ParseFfcvResults.UpsertOneNoDuplicates | apps/results_pars/management/commands/parse_ffcv_results.py:55-94 | without duplicate competitions or venues an iteration cannot raise and adds no duplicate |
| ParseFfcvResults.FoldLast | apps/results_pars/management/commands/parse_ffcv_results.py:51-114 | the loop succeeds iff its prefix does and the last iteration does not raise; the count grows by one per update |
| ParseFfcvResults.FoldPrefixErr | apps/results_pars/management/commands/parse_ffcv_results.py:51-114 | the first exception ends the loop |
| ParseFfcvResults.FoldCountBound | apps/results_pars/management/commands/parse_ffcv_results.py:113-114 | the update count never exceeds the number of records |
| ParseFfcvResults.UpsertAllGrows | apps/results_pars/management/commands/parse_ffcv_results.py:51-114 | the loop only adds, keeps the target team and keeps references valid |
| ParseFfcvResults.UpsertAllKeys | apps/results_pars/management/commands/parse_ffcv_results.py:96-112 | the stored keys become the old ones plus the records' keys; other matches untouched |
| ParseFfcvResults.UpsertAllStored | apps/results_pars/management/commands/parse_ffcv_results.py:96-112 | each record key holds what the last record with that key says |
| ParseFfcvResults.UpsertAllCount | apps/results_pars/management/commands/parse_ffcv_results.py:113-118 | updates ≤ records, and the matches grow by exactly the records that did not update |
| ParseFfcvResults.UpsertAllNoDuplicates | apps/results_pars/management/commands/parse_ffcv_results.py:51-114 | without duplicates the whole loop succeeds and leaves none |
| ParseFfcvResults.MatchFromUnique | apps/results_pars/management/commands/parse_ffcv_results.py:96-112 | without duplicates a record determines the match written from it |
| ParseFfcvResults.UpsertAllOnlyUpdates | apps/results_pars/management/commands/parse_ffcv_results.py:113-114 | when every key is already stored, every record counts as an update |
| ParseFfcvResults.UpsertAllKeepsMatches | apps/results_pars/management/commands/parse_ffcv_results.py:96-112 | when the matches already hold what the records say, the loop changes no match |
| ParseFfcvResults.UpsertAllRerun | apps/results_pars/management/commands/parse_ffcv_results.py:96-114 | a second run on the same records succeeds, counts every record as an update and changes no match |
| ParseFfcvResults.PaddedNameMissesTarget | apps/results_pars/management/commands/parse_ffcv_results.py:71-78 | with a padded configured name the parser keeps a side equal to the stripped name, but the command stores it as an "auto:" team |
| ParseFfcvResults.WithTarget | apps/results_pars/management/commands/parse_ffcv_results.py:43-49 | the loop starts with the target team stored and marked; other tables unchanged |
| ParseFfcvResults.HandleRaises | apps/results_pars/management/commands/parse_ffcv_results.py:120-126 | every run row carries both clock readings; a raising run is ERROR with "Type: message", counts nothing and leaves the tables as they were |
| ParseFfcvResults.HandleSkipped | apps/results_pars/management/commands/parse_ffcv_results.py:18-22 | SKIPPED iff no configuration or an inactive one, with its message, nothing raised and no table changed |
| ParseFfcvResults.HandleEmptyId | apps/results_pars/management/commands/parse_ffcv_results.py:24-27 | an active first configuration without a team id gives ERROR with "TargetConfig.target_ffcv_team_id is empty.", raises nothing, counts nothing and changes no table |
| ParseFfcvResults.HandleNotRunnableIgnoresScrape | apps/results_pars/management/commands/parse_ffcv_results.py:18-36 | unless the first configuration is active with a team id the page is never parsed: the outcome does not depend on the parser, raises nothing and changes no table |
| ParseFfcvResults.HandleSuccess | apps/results_pars/management/commands/parse_ffcv_results.py:116-118 | on success updated ≤ parsed, new matches = parsed − updated, the target team is marked, and the tables only grow |
| ParseFfcvResults.HandleSucceedsIff | apps/results_pars/management/commands/parse_ffcv_results.py:18-118 | from tables without duplicates, a run succeeds iff the configuration is active with a team id and the page parses |
| ParseFfcvResults.HandleRerun | apps/results_pars/management/commands/parse_ffcv_results.py:38-118 | running again after a success succeeds with updated = parsed and changes no match |
| ParseFfcvResults.UpsertLoop | apps/results_pars/management/commands/parse_ffcv_results.py:51-114 | the loop leaves the tables and count of the fold, or the first exception; configs and runs unchanged |
| ParseFfcvResults.Handle | apps/results_pars/management/commands/parse_ffcv_results.py:15-126 | the store ends as HandleSpec says: its tables, exactly one new run row as finally saved, the re-raised exception |
| News.SlugBase | apps/news/models.py:69 | a non-empty base of at most 240 characters: "post" for an empty slugified title, otherwise its prefix |
| News.CandidateInjective | apps/news/models.py:72-74 | distinct attempts try distinct slugs |
| News.UniqueSlug | apps/news/models.py:70-75 | the slug is free, is the base when the base is free, and otherwise is base-i for the smallest free i ≥ 2 |
| News.FirstFreeSlugUnique | apps/news/models.py:70-75 | the slug so described is unique |
| News.NewsPost.Save | apps/news/models.py:67-76 | an existing slug is kept; otherwise the first free slug from the title; the row is stored under the post's pk |
| News.PersistedUnique | apps/news/models.py:21 | storing a slug no other post holds keeps slugs and primary keys unique |
| News.GeneratedSlugUnique | apps/news/models.py:67-76 | saving a post with a generated slug never breaks the unique slug constraint |
| News.TagList | apps/news/models.py:78-80 | every tag is non-empty, has no edge whitespace and no comma; None and "" give no tags |
| News.TagListJoin | apps/news/models.py:78-80 | clean tags joined by commas read back as the same tags in the same order |
| News.TagListConcat | apps/news/models.py:78-80 | the tags before a comma come first, in order, then those after it |
| News.TagListBlank | apps/news/models.py:78-80 | a whitespace-only piece adds no tag |
| FrontRouter.FirstSettings | apps/atgilet/views.py:14 | first() finds a row iff there is one, and it has the smallest pk |
| FrontRouter.Maintenance | apps/atgilet/views.py:14-16 | with no settings row maintenance is on; otherwise it is the flag of the row with the smallest pk |
| FrontRouter.Route | apps/atgilet/views.py:19-26 | under construction iff maintenance and not (signed in and staff); main site otherwise |
| FrontRouter.NoSettingsRoute | apps/atgilet/views.py:14-23 | without settings everyone but signed-in staff gets the under-construction page |
| FrontRouter.MainSiteRoute | apps/atgilet/views.py:19-26 | signed-in staff always get the main site, and everyone does while maintenance is off |
| FrontRouter.AdminNeedsBoth | apps/atgilet/views.py:19 | staff who are not signed in and signed-in non-staff are treated alike |
| FrontRouter.FirstRowDecides | apps/atgilet/views.py:14-16 | rows with larger pks than the first do not change the route |

## Left out

- HTTP fetching is network I/O and is not modelled. This covers `build_team_matches_url`, `fetch`, the User-Agent header, the timeout and `raise_for_status`. A fetch that fails is an exception given as input.
- BeautifulSoup and `urljoin` are foreign libraries and are not modelled. Rows arrive as cell texts, row text and the first link's absolute URL. The page URL is a parameter.
- `timezone.now` is a clock. Its two readings are integer parameters.
- Database faults are not modelled except `MultipleObjectsReturned` from `get_or_create` on Competition and Venue, and the failed update of a target team row that is missing. The latter cannot happen in the command, because the command stores that row first.
- Two concurrent runs are not modelled.
- `StandingsSnapshot` and `StandingsRow` are never written by any flow. Only the StandingsRow key is declared.
- Delete rules (PROTECT, CASCADE, SET_NULL) are not modelled, because no flow deletes rows.
- The federation id columns of CompetitionContext are not modelled. The ingestion never writes them.
- Text.Lower: lower-cases ASCII and Latin-1 capitals only. Python's `str.lower` covers all of Unicode.
- Calendar.Format: pads every year to four digits. glibc's `%Y` prints years 1 to 999 without padding, so a page year written 0001 to 0999 gives a kickoff field of 9 to 11 digits in the source and 12 here.
- Calendar.FormatRoundTrip: states the 12-digit form, which the source produces only for years from 1000 on, for the reason in the line above.
- Text.IsDigit: accepts ASCII digits only. Python's `\d` in str patterns and `int()` accept every Unicode decimal digit (category Nd), so a score, date or round written in other scripts is found by the source and not here.
- TeamsRegex.ExtractTeamsSpec: states that the pair comes from some match of the pattern, not which one. The scanner (`TeamsFrom`, `HomeGroup`, `AwayGroup`, `AwayEnd`) follows the engine's order: leftmost start, lazy groups shortest first, greedy whitespace longest first. Which match that order picks is not restated declaratively.
- `slugify` is Django's function and is not modelled. Its output is an input.
- NewsPost: an explicitly given slug that another post already holds makes the database raise IntegrityError. The model does not raise it.
- NewsPost: `get_absolute_url`, `reverse` and the category relation are framework plumbing and are not modelled.
- FrontRouter: the two views it delegates to are named, not rendered.
- ParseFfcvResults.UpsertLoop: the row scan and the upsert loop are generic over their loop body. The command instantiates them with `RowFn` and `Upserter`. The in-memory `target_team` object is the stored target row itself. The rename on line 80 then line 89 is modelled as the away spelling overwriting the home spelling.
- The admin registrations, URL confs and the language middleware are framework declarations or have no logic of their own. The same goes for the menu context processor, the news list view and the web and photo_gallery apps.
