# Weather data versioning and table maintenance, in Dafny

This project models two parts of a weather-data pipeline and proves properties
of them.

**The data versioner** (`DataVersioner`) keeps a JSON registry document:
- an ordered list of version records and a `latest_version` pointer;
- for each version, a directory holding a copy of its record
  (`version_info.json`) and the parquet data files attached to it.

Its operations are:
- create a version, with a parent that defaults to the latest one;
- attach a data frame to a version, recording its row count, columns and hash;
- list the history and return the latest version;
- read back a version's data of one type;
- verify a version's files against their recorded hashes.

The registry is a `RegistryDoc` value held by a `DataVersioner` object. The
directories are a map from version id to `VersionDir`. The state-changing
operations are methods that rewrite both. The hash of a frame is an uninterpreted
function given to the versioner when it is constructed.

**The database table logic** (`DatabaseOperations` and `DatabaseManager`) works on
four tables: `cities`, `weather_data`, `data_versions` and
`daily_weather_stats`. Each is a sequence of rows in a `Session` object, with one
counter per auto-increment key. The session invariant states:
- city keys increase and stay below the counter;
- the API city id is unique;
- version ids are unique;
- the unique index on the daily statistics' (city, date) holds.

The operations are:
- get-or-create of a city;
- creation of a version, and lookup of the latest active version;
- insert-if-absent of weather readings;
- upsert of daily statistics;
- the per-city range queries;
- deactivation of old versions and deletion of old readings;
- the counts of the data-quality report.

Each loop of the source that walks its inputs or its rows is a Dafny loop:
- the load and integrity loops of the versioner;
- the version search of `add_data_to_version`;
- the two storing loops;
- the deactivation loop;
- the per-city duplicate loop.

Each such loop except the version search is proved against a function of
the state it starts from: `LoadFrames`, `Details`, `StoreWeather`, `StoreStats`,
`DeactivateAll` and `TotalDupes`. Lemmas then state what the source promises about
those functions. The version search, `FindVersionIndex`, is a method whose own
`ensures` states the first matching position.

Two pieces of the source are written out without a loop:
- The loop over the three fixed critical columns (src/database/manager.py:200-210)
  becomes one NULL count and one guarded recommendation per column.
- List comprehensions are functions.

Modules, in dependency order:

- `Wrappers`: Option and Result.
- `Frames`: a data frame and `pd.concat`.
- `Registry`: the registry document and its pure updates.
- `ArtifactStore`: version directories and file names.
- `Integrity`: the integrity classification and report.
- `VersionReader`: what `get_version_data` reads.
- `Versioner`: the `DataVersioner` class.
- `Models`: the table rows and the `Session` class.
- `Queries`: lookups and `ORDER BY`.
- `Operations`: `DatabaseOperations`.
- `Manager`: `DatabaseManager`.

Time in the database is an integer number of seconds. A cutoff of `days` days
before `now` is `now - days * 86400`. A date is the timestamp of its midnight.

Where the code and its documentation disagree, the model follows the code:

- **Weather existence check.** `store_weather_data` checks whether a reading
  exists against the table as it was when the call began. The session is created
  with `autoflush=False`, so rows added earlier in the same call are not visible
  to the query until the next commit (src/database/connection.py:21).
- **Daily statistics existence check.** `store_daily_stats` checks against the
  table as it was when the call began, for the same reason. A batch that inserts
  one (city, date) twice therefore violates the unique index at the final commit.
  The commit then raises, the table keeps its contents, and the model returns a
  `Failure`.
- **Latest version.** `.first()` without a tie-breaker is taken in table order,
  so `GetLatestVersion` returns the earliest active row with the greatest
  `created_at`.

## Model

| member | source | states |
|---|---|---|
| `Frames.MergeColumns` | src/versioning/data_versioner.py:196 | the columns of a concatenation start with the first frame's columns and are exactly the columns of either frame |
| `Frames.ConcatAllContents` | src/versioning/data_versioner.py:196 | concatenating frames keeps every row of every frame, frame after frame in list order, and keeps exactly the columns some frame has |
| `ArtifactStore.DataFileName` | src/versioning/data_versioner.py:122-123 | the data file name starts with the data type and ends with `.parquet` |
| `Integrity.Classify` | src/versioning/data_versioner.py:231-271 | a descriptor is missing iff its file is absent; an error iff the file cannot be read; valid iff the recomputed hash equals the recorded one, carrying the frame's row count |
| `Integrity.Details` | src/versioning/data_versioner.py:231-271 | one detail per descriptor, in descriptor order, each the classification of that descriptor |
| `Integrity.CountsAddUp` | src/versioning/data_versioner.py:233-271 | every detail is counted exactly once as valid, invalid or missing |
| `Integrity.Summarize` | src/versioning/data_versioner.py:220-228 | `files_checked` equals the number of descriptors and equals `files_valid + files_invalid + missing_files`; each of those three is the number of details of its class (valid; hash mismatch or read error; missing); `valid` iff there are no invalid and no missing files |
| `Integrity.NoFaultsMeansAllValid` | src/versioning/data_versioner.py:273 | no invalid and no missing detail iff every detail is valid |
| `Integrity.ReportValidIff` | src/versioning/data_versioner.py:245-273 | the report is valid iff every descriptor's file exists, is readable, and hashes to the recorded value |
| `Integrity.MissingFileFailsReport` | src/versioning/data_versioner.py:235-242 | a descriptor whose file is gone makes `missing_files` positive and the report not valid |
| `Integrity.CorruptFileFailsReport` | src/versioning/data_versioner.py:256-264 | a file whose hash differs from the recorded one is a hash mismatch with both hashes, makes `files_invalid` positive and the report not valid |
| `Registry.InitialRegistry` | src/versioning/data_versioner.py:29-39 | a fresh registry has no versions and no latest version, and is well formed |
| `Registry.ResolveParent` | src/versioning/data_versioner.py:65-67 | an explicit parent is kept unchecked; with none given, the parent is the latest version when versions exist and None otherwise |
| `Registry.ImplicitParentIsLastCreated` | src/versioning/data_versioner.py:65-67 | on a well-formed registry the implicit parent is the id of the version created last |
| `Registry.AppendVersion` | src/versioning/data_versioner.py:84-85 | the record is appended at the end and becomes the latest version; the creation stamp is kept |
| `Registry.AttachFile` | src/versioning/data_versioner.py:142 | the descriptor is appended to that version's data files; every other version, the rest of that record and the latest pointer are unchanged |
| `Registry.AttachFileById` | src/versioning/data_versioner.py:112-115 | with unique ids, the attachment changes exactly the version carrying the given id |
| `Registry.AppendPreservesWellFormed` | src/versioning/data_versioner.py:59-85 | appending a record with a fresh id keeps ids unique and the latest pointer on the last record, and adds exactly that id |
| `Registry.AttachPreservesWellFormed` | src/versioning/data_versioner.py:142 | attaching a file keeps the registry well formed and its set of ids |
| `Registry.AppendExtends` | src/versioning/data_versioner.py:84 | creating a version is append-only |
| `Registry.AttachExtends` | src/versioning/data_versioner.py:142 | attaching a file is append-only: every record keeps its fields, and its earlier files are a prefix of its new ones |
| `Registry.ExtendsTransitive` | src/versioning/data_versioner.py:84-145 | any sequence of creations and attachments is append-only |
| `Registry.FindVersionIndex` | src/versioning/data_versioner.py:111-119 | returns the first position carrying the id, or None exactly when no record has the id |
| `VersionReader.SelectByType` | src/versioning/data_versioner.py:174-176 | keeps exactly the descriptors of the requested type (every one when no type is given); the result is empty iff none matches |
| `VersionReader.SelectDistributes` | src/versioning/data_versioner.py:176 | the selection keeps relative order: selecting from a concatenation concatenates the selections |
| `VersionReader.LoadableFrames` | src/versioning/data_versioner.py:183-191 | at most one frame per descriptor; a frame is among them iff some descriptor is loadable and its file holds that frame |
| `VersionReader.LoadFrames` | src/versioning/data_versioner.py:183-191 | a successful load returns exactly the frames of the loadable descriptors whose file reads, in descriptor order |
| `VersionReader.SkipUnloadable` | src/versioning/data_versioner.py:184-190 | a descriptor whose file is absent or not a parquet file is skipped: the load is the same without it |
| `VersionReader.LoadFailsIff` | src/versioning/data_versioner.py:184-188 | loading fails iff some existing parquet file of a selected descriptor cannot be read |
| `VersionReader.LoadFailurePersists` | src/versioning/data_versioner.py:184-188 | once one file fails to read, the whole read fails with that error |
| `VersionReader.LoadIgnoresUnnamedFiles` | src/versioning/data_versioner.py:184-186 | files that no descriptor names do not affect what is loaded |
| `VersionReader.NoMatchReadsEmpty` | src/versioning/data_versioner.py:178-180 | with no descriptor of the requested type, the version reads as the empty frame |
| `VersionReader.AttachAppendsRows` | src/versioning/data_versioner.py:142-196 | attaching a frame under a new parquet name appends its rows after all earlier rows of its type, and leaves every other type's data unchanged |
| `VersionReader.SingleArtifactRoundTrip` | src/versioning/data_versioner.py:127-196 | a frame attached as the only file of its type reads back unchanged |
| `Versioner.DirsMirrorAfterAttach` | src/versioning/data_versioner.py:148-150 | after rewriting the attached version's `version_info.json`, every directory still mirrors its registry record |
| `Versioner.DataVersioner.constructor` | src/versioning/data_versioner.py:18-39 | an existing registry is kept; when there is none, the initial empty registry is written |
| `Versioner.DataVersioner.CreateVersion` | src/versioning/data_versioner.py:53-102 | returns the fresh id; appends exactly one record with that id, the resolved parent and no data files; makes it the latest version; earlier records are unchanged; its directory mirrors the record |
| `Versioner.DataVersioner.AddDataToVersion` | src/versioning/data_versioner.py:104-153 | for an unknown id: None, and nothing changes. Otherwise: the file path; one descriptor (row count, columns, hash) appended to that version only; the file written; the latest pointer unchanged; the new file verifies |
| `Versioner.DataVersioner.GetVersionHistory` | src/versioning/data_versioner.py:198-201 | all version records, in creation order, with unique ids |
| `Versioner.DataVersioner.GetLatestVersion` | src/versioning/data_versioner.py:203-206 | None iff there is no version; otherwise the id of the version created last |
| `Versioner.DataVersioner.GetVersionData` | src/versioning/data_versioner.py:161-196 | the concatenation of the loadable selected files, in attachment order; the empty frame for a missing directory or no match; a failure when a file cannot be read |
| `Versioner.DataVersioner.VerifyVersionIntegrity` | src/versioning/data_versioner.py:208-275 | not-found, and so not valid, for a missing directory; otherwise the summary of the classification of every descriptor |
| `Models.Session.constructor` | src/database/connection.py:36-39 | the four tables exist, are empty, and satisfy the key and unique-index invariants |
| `Queries.CityByApiId` | src/database/operations.py:19 | finds a city carrying the API id, or None iff no city carries it |
| `Queries.CityByApiIdAppend` | src/database/operations.py:19 | on a table extended at the end, the lookup finds the original table's match if there was one |
| `Queries.CityByApiIdStable` | src/database/operations.py:19 | rows added after the match do not change what the lookup finds |
| `Queries.CityByApiIdUnique` | src/database/models.py:16 | with the API id unique, the lookup returns the one city carrying it |
| `Queries.CityByName` | src/database/operations.py:129 | finds a city with that name, or None iff no city has it |
| `Queries.StatIndex` | src/database/operations.py:142-145 | the position of a statistic with that city and date, or None iff there is none |
| `Queries.StatIndexUnique` | src/database/models.py:119 | under the unique (city, date) index, the lookup finds the one row carrying the key |
| `Queries.InsertBy` | src/database/operations.py:214 | inserting into a sorted sequence keeps it sorted and adds exactly the element |
| `Queries.SortBy` | src/database/operations.py:214 | `ORDER BY` yields a sorted permutation of the rows |
| `Queries.SortByContents` | src/database/operations.py:214-216 | sorting keeps the length and the members |
| `Operations.EnsureCity` | src/database/operations.py:17-33 | an existing API id returns its city with the table unchanged; otherwise exactly one city keyed by the next id is appended and returned |
| `Operations.EnsureCityIdempotent` | src/database/operations.py:17-33 | asking again for the same city changes nothing and returns the same row |
| `Operations.EnsureCityWellFormed` | src/database/models.py:15-16 | get-or-create keeps city keys increasing and below the counter, and the API id unique |
| `Operations.GetOrCreateCity` | src/database/operations.py:17-33 | the session's cities table becomes the result of `EnsureCity` and the returned city is its city; the other tables are unchanged |
| `Operations.CreateDataVersion` | src/database/operations.py:36-51 | appends one active version created by "system" now, with the given parent unvalidated; the other tables are unchanged |
| `Operations.GetLatestVersion` | src/database/operations.py:54-59 | None iff no version is active; otherwise an active version whose `created_at` is at least that of every active version |
| `Operations.CreatedVersionIsLatest` | src/database/operations.py:36-59 | a version created later than every active one becomes the latest version |
| `Operations.StoreWeather` | src/database/operations.py:62-119 | the cities table only grows, and every input's city is in it; the counter advances by one per added reading, and at most one reading is added per input |
| `Operations.StoreWeatherSnoc` | src/database/operations.py:67-106 | proof step for the loop, not separate source behaviour: one more input is one more pass of the loop |
| `Operations.StoreWeatherNewCities` | src/database/operations.py:19-33 | the only cities the batch adds are those `get_or_create_city` creates on its call for each input (line 70): each added row is `NewCity` of some input whose API id the table lacked, and the added rows are keyed consecutively from the counter, which ends past the last of them |
| `Operations.NovelInputs` | src/database/operations.py:73-80 | the novel inputs are inputs whose (city, timestamp) the table did not hold |
| `Operations.NovelInputsIff` | src/database/operations.py:73-80 | an input is novel iff the table had no reading for its city and timestamp |
| `Operations.NovelInputsStable` | src/database/operations.py:70-76 | cities created meanwhile do not change which inputs are novel |
| `Operations.WeatherStepKeepsMatch` | src/database/operations.py:70-106 | one pass keeps each added reading matched to one novel input, extending the match when the input is novel |
| `Operations.StoreWeatherAddsNovel` | src/database/operations.py:73-106 | exactly one reading per novel input is added, in input order, with consecutive keys, the input's city and measurements, and the version id |
| `Operations.StoreWeatherAddsNoExistingKey` | src/database/operations.py:73-80 | no added reading repeats a (city, timestamp) of the table; each carries the version id |
| `Operations.StoreReading` | src/database/operations.py:70-106 | one pass of the loop on the session, reporting whether a reading was added |
| `Operations.StoreWeatherCountsNovel` | src/database/operations.py:106-119 | the number of added readings equals the number of novel inputs |
| `Operations.StoreWeatherData` | src/database/operations.py:62-119 | the session becomes the result of `StoreWeather`; the count returned is the number of novel inputs; versions and statistics are unchanged |
| `Operations.StoreStats` | src/database/operations.py:122-193 | earlier rows keep their key, city and date, and are unchanged or carry the new version. New rows get consecutive keys and the new version, for keys absent from the table. The count equals the number of new rows |
| `Operations.StoreStatsSnoc` | src/database/operations.py:126-184 | proof step for the loop, not separate source behaviour: one more row is one more pass of the loop |
| `Operations.StoreStatsSkipsUnknownCity` | src/database/operations.py:129-133 | a row whose city name is not in the table changes nothing |
| `Operations.StoreStatsUpserts` | src/database/operations.py:142-184 | an existing (city, date) has its values and version overwritten in place and is not counted; otherwise one row is appended and counted; no other row changes |
| `Operations.StoreStatsKeepsUntouched` | src/database/operations.py:142-162 | a statistic whose key no row addresses is unchanged |
| `Operations.StoreStatsCoversRows` | src/database/operations.py:142-184 | every row of a known city has a (city, date) statistic afterwards |
| `Operations.StoreStatsUniqueIff` | src/database/models.py:119 | the batch keeps (city, date) unique iff it does not insert one new (city, date) twice |
| `Operations.StoreStatsKeysBelow` | src/database/operations.py:165-183 | every statistic's key stays below the next key |
| `Operations.StoreStatRow` | src/database/operations.py:126-184 | the body of the `store_daily_stats` loop for one row equals one pass of `StoreStats` |
| `Operations.StoreStatsCommitWellFormed` | src/database/operations.py:191 | a batch that passes the unique index leaves the statistics table well formed |
| `Operations.StoreDailyStats` | src/database/operations.py:122-193 | if the batch keeps (city, date) unique, the table becomes the result of `StoreStats` and the count of inserted rows is returned; otherwise a failure with the table unchanged; the other tables are unchanged |
| `Operations.DayStart` | src/database/operations.py:237 | the midnight of the day holding the time |
| `Operations.ReadingsInRange` | src/database/operations.py:210-214 | exactly the city's readings with start ≤ timestamp ≤ end |
| `Operations.ReadingsInRangeIsFilter` | src/database/operations.py:210-214 | the range filter keeps table order and multiplicity: filtering a concatenation concatenates the filtered parts |
| `Operations.ReadingsInRangeSingle` | src/database/operations.py:210-213 | a single reading is kept exactly when it belongs to the city and lies in [start, end] |
| `Operations.WeatherViews` | src/database/operations.py:217-230 | one view per reading, in order |
| `Operations.SortedWeatherViews` | src/database/operations.py:214-230 | sorted readings viewed: one view per reading, ordered by timestamp |
| `Operations.GetWeatherByCity` | src/database/operations.py:196-230 | [] for an unknown city; otherwise exactly the views of that city's readings in [start, end], as many as there are, ordered by timestamp |
| `Operations.WeatherViewsPermute` | src/database/operations.py:217-230 | viewing two permutations of the same readings gives permutations of the same views |
| `Operations.GetWeatherByCityPermutes` | src/database/operations.py:210-230 | for a known city the result is a permutation of the views of its readings in [start, end] |
| `Operations.StatsInRange` | src/database/operations.py:247-251 | exactly the city's statistics dated in [start, end] |
| `Operations.StatsInRangeIsFilter` | src/database/operations.py:247-251 | the range filter keeps table order and multiplicity: filtering a concatenation concatenates the filtered parts |
| `Operations.StatsInRangeSingle` | src/database/operations.py:247-250 | a single statistic is kept exactly when it belongs to the city and is dated in [start, end] |
| `Operations.StatViews` | src/database/operations.py:254-267 | one view per statistic, in order |
| `Operations.SortedStatViews` | src/database/operations.py:251-267 | sorted statistics viewed: one view per statistic, ordered by date |
| `Operations.GetStatsByCity` | src/database/operations.py:233-267 | [] for an unknown city; otherwise exactly the views of that city's statistics in [start, end], with end defaulting to today, ordered by date |
| `Operations.StatViewsPermute` | src/database/operations.py:254-267 | viewing two permutations of the same statistics gives permutations of the same views |
| `Operations.GetStatsByCityPermutes` | src/database/operations.py:247-267 | for a known city the result is a permutation of the views of its statistics in [start, end], with end defaulting to today |
| `Manager.DeactivateAll` | src/database/manager.py:146-153 | exactly the active versions created before the cutoff have `is_active` cleared; every other row and column is unchanged |
| `Manager.CountStale` | src/database/manager.py:157 | the number of deactivated versions is at most the number of versions |
| `Manager.CountStaleIsChanged` | src/database/manager.py:152-157 | the returned count is exactly the number of rows the deactivation changes |
| `Manager.CleanLowersActiveByCount` | src/database/manager.py:152-157 | cleaning lowers the number of active versions by exactly the returned count |
| `Manager.CountStaleZeroIff` | tests/test_database_manager.py:143 | the count is zero iff no version is stale, including when there are no versions |
| `Manager.CleanIdempotent` | src/database/manager.py:146-153 | after cleaning no version is stale, so a second clean changes nothing |
| `Manager.LatestAfterClean` | src/database/manager.py:146-153 | after cleaning, the latest active version was created at or after the cutoff |
| `Manager.DeactivateAllKeepsIds` | src/database/manager.py:152-153 | cleaning keeps version ids unique |
| `Manager.CleanOldVersions` | src/database/manager.py:139-161 | the versions become `DeactivateAll` at the cutoff and the count of stale versions is returned; data tables are unchanged; asserted at tests/test_database_manager.py:172-173 |
| `Manager.KeepRecent` | src/database/manager.py:170-172 | a reading is kept iff its timestamp is at or after the cutoff |
| `Manager.CountOlder` | src/database/manager.py:170-176 | at most every reading is deleted |
| `Manager.PruneCounts` | tests/test_database_manager.py:176-178 | kept and deleted readings together make up the table |
| `Manager.KeepRecentDistributes` | src/database/manager.py:170-172 | pruning keeps relative order |
| `Manager.PruneIdempotent` | src/database/manager.py:170-172 | a second prune with the same cutoff deletes nothing |
| `Manager.KeepAllRecent` | src/database/manager.py:170-172 | a table with nothing older than the cutoff is left unchanged |
| `Manager.PruneOldData` | src/database/manager.py:163-180 | exactly the readings older than the cutoff are deleted and their number returned; the remaining count is the original count minus the number deleted; statistics and other tables are kept |
| `Manager.Distinct` | src/database/manager.py:238-239 | the groups are exactly the timestamps, each once |
| `Manager.OccurrencesRepeated` | src/database/manager.py:240-241 | a timestamp appearing at two positions forms a group of size at least two |
| `Manager.CityDupesZeroIff` | src/database/manager.py:233-244 | a city's duplicate count is zero iff no timestamp repeats |
| `Manager.GroupSizesAddUp` | src/database/manager.py:233-241 | the group sizes add up to the number of readings |
| `Manager.ExcessOverGroups` | src/database/manager.py:244 | the sum of (size − 1) over groups is the sum of sizes less the number of groups |
| `Manager.CityDupesCount` | src/database/manager.py:233-244 | a city's duplicate count is its number of readings less its number of distinct timestamps |
| `Manager.TimestampsOf` | src/database/manager.py:233-237 | exactly the timestamps of the city's readings |
| `Manager.TimestampsNoRepeatsIff` | src/database/manager.py:233-237 | the city's timestamps repeat iff two of its readings share a timestamp |
| `Manager.TotalDupesZeroIff` | src/database/manager.py:229-247 | the total duplicate count is zero iff no city has two readings at one timestamp |
| `Manager.CitiesWithoutReadings` | src/database/manager.py:255-259 | exactly the cities that have no weather reading |
| `Manager.Names` | src/database/manager.py:261 | the names of those cities, in order |
| `Manager.AppendIf` | src/database/manager.py:207-210 | a recommendation is added exactly when its guard holds |
| `Manager.RecommendationsIff` | src/database/manager.py:207-266 | each recommendation is present iff its count is positive and carries that count; there are as many recommendations as positive counts |
| `Manager.QualityReportShape` | src/database/manager.py:185-220 | the empty report when there are no readings; otherwise the three critical columns and the one outlier class, with zero NULL temperatures and no temperature recommendation |
| `Manager.QualityReportDupesIff` | src/database/manager.py:229-247 | for a non-empty table the duplicate count is zero iff no city has two readings at one timestamp |
| `Manager.QualityReportListsCities` | src/database/manager.py:255-261 | every city without readings is listed by name, and every listed name belongs to such a city |
| `Manager.QualityReportRecommends` | src/database/manager.py:207-266 | each recommendation is made exactly when its count in the report is positive |
| `Manager.SumCityDupes` | src/database/manager.py:229-247 | the loop over cities sums the per-city duplicate counts into the total |
| `Manager.GetDataQualityReport` | src/database/manager.py:182-272 | the report on the session's tables is exactly `QualityReportOf` of them |

## Left out

- Real serialisation and hashing. JSON, parquet and `DataFrame.to_json` with SHA-256 (src/versioning/data_versioner.py:155-159) are shown only as an uninterpreted hash over frames and a map of stored files. A file either holds a frame or fails to read, and other I/O failures are not modelled.
- The clock, `uuid4` and `os.listdir` are parameters: the creation stamps, the file timestamp, the fresh id (required to be unused) and the directory counts.
- Filename uniqueness. Two attachments of one type in the same second share a file name. The model writes the second file over the first and does not promise otherwise.
- The database mirror call at the end of `create_version` (src/versioning/data_versioner.py:97-100). It mints its own id, so `CreateDataVersion` models it separately.
- Exception and rollback paths. The `try`/`except` blocks of every database operation and of `verify_version_integrity` are not modelled beyond the unreadable-file cases. That includes the 0 or `{"error": ...}` answers of the manager and the per-row rollback in the storing loops.
- `Operations.StoreWeatherData`: checks existence against the table as the call found it. The commits inside `get_or_create_city` (src/database/operations.py:30) and every 100 rows (src/database/operations.py:109-110) can make earlier readings of the same batch visible to later checks. A batch that repeats a (city, timestamp) after creating a new city may therefore store fewer readings in the source than in the model.
- `Operations.StoreDailyStats`: a failed final commit is modelled as a `Failure` with the table unchanged. In the source this is an exception raised to the caller.
- String date parsing in `store_daily_stats` (operations.py:136-139): dates arrive as timestamps.
- `get_db_stats`, `backup_database`, `optimize_database`, `rebuild_indexes` and `schedule_maintenance_tasks`: these are I/O and external commands.
- Floating point. Temperatures and other measurements are exact reals, so the outlier thresholds of `get_data_quality_report` are compared exactly.
- Recommendation text. Each recommendation is a datatype value carrying its count, not a formatted sentence.
- Column names are an enumeration, and the NULL query is shown per column. `temperature` is NOT NULL (src/database/models.py:41), so its count is 0.
- Row order of grouped queries. The cities without data are listed in table order, and duplicates are counted only for readings of cities in the table.
- `Versioner.DataVersioner.constructor`: requires a registry found on disk to be well formed (unique ids, the latest pointer on the last record) and mirrored by the version directories. `__init__` (src/versioning/data_versioner.py:18-39) loads whatever document is there and checks none of this.
- `Versioner.DataVersioner`: holds the registry in a field between calls. The source re-reads `version_registry.json` on every call (src/versioning/data_versioner.py:56, 108, 200, 205). Writes to the file by other processes, and last-writer-wins between concurrent writers, are not modelled. Such writes could break the mirror invariant.
- There is no deactivate operation in the versioner, no ancestor walk, no parent-existence check and no schema check. The parent relationship of src/database/models.py:85-89 is only declared.
