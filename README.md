# comepos_fetcher — a Dafny model of the fetch-and-cache engine

comepos_fetcher downloads the measurement history of a building's sensors from
the Vesta web service and keeps it in a local HDF store. Each sensor's table
sits under a key `/<building slug>/sensors/<sensor slug>`. This project models
the engine in `comepos_fetcher/database.py` and the string helpers in
`comepos_fetcher/utils.py`, and proves properties of the model.

- `utils.dfy` (module `Utils`) holds the column-name helpers, written as functions and lemmas.
  - `camel_to_snake` is modelled as the two regex substitutions, each a left-to-right scan that resumes after a match, followed by ASCII lower-casing.
  - `ensure_camel_columns` maps it over a list of names.
  - `_infer_datetime` returns no bound for every argument.
- `slicing.dfy` (module `Slicing`) holds the slice planner of `Sensor._fetch_data`.
  - `MAX_LINE_PER_REQUEST` and the slice count.
  - `pd.date_range(start, end, periods=n)`: evenly spaced integer timestamps. The i-th is the start plus the offset `i * (end - start) / (n - 1)` rounded down, as pandas computes it: numpy's linspace over `0 .. end - start` in int64, added to the start.
  - A `window` supplied by the model (adjacent pairs; see "## Left out"), the request plan, the answers in plan order, and `pd.concat`.
- `database.dfy` (module `Database`) holds the store and the operations on it.
  - The store is a class `Store` whose map of tables the methods `Put` and `Append` update in place.
    - Following pandas' HDFStore, `put` in table format and `append` write nothing for an empty table.
    - `append` creates a missing key.
  - `Sensor.key`, `last_retrieved_value`, `_fetch_data` and `_fetch_new_data` compute values and are functions: `Key`, `LastRetrievedValue`, `FetchData` and `FetchNewData`.
  - `_from_cache_or_fetch`, `_get_data`, `refresh` and `BuildingDB.refresh_all_sensors` change the store and are methods: `FromCacheOrFetch`, `GetData`, `Refresh` and `BuildingDB.RefreshAllSensors`. Each is proved against a pure function (`CacheOrFetch`, `RefreshedTables`, `RefreshRun`), and the lemmas are stated about those functions.
  - The remote service is a `Client`: two functions of a fixed remote state, the history size after an optional start and the (possibly empty) rows of an optionally bounded period.
  - `WebClient` is the client of `comepos_fetcher/io.py`, which passes every bound through `_infer_datetime`.

Behaviour of the source that the model keeps:

- Below 100000 rows the whole history is requested, whatever `since` is.
- A refresh starts at the latest cached timestamp itself, so a sliced refresh asks for that row again.
- A refresh appends even when nothing new came back. The append is then a no-op.
- Through the web client no bound reaches the remote. Every request returns the whole history, so a refresh appends the whole history again (`WebFetchRepeatsHistory`).
- Interrupting `refresh_all_sensors` is modelled by the index of the sensor whose refresh the interrupt stops. The sensors before it are refreshed, and the interrupt becomes the warning.

## Model

| member | source | states |
|---|---|---|
| Utils.Lower | comepos_fetcher/utils.py:39 | `.lower()` keeps the length and maps each character to its lower-case form |
| Utils.CamelToSnake | comepos_fetcher/utils.py:37-39 | the result contains no upper-case ASCII letter |
| Utils.CapitalWordPassMatch | comepos_fetcher/utils.py:38 | a character followed by a capitalised word that is not followed by a lower-case letter becomes the character, '_' and the word, and the scan resumes after the word |
| Utils.CaseBoundaryPassMatch | comepos_fetcher/utils.py:39 | a lower-case letter or digit followed by a capital becomes the two with '_' between them, and the scan resumes after the capital |
| Utils.CapitalWordPassInserts | comepos_fetcher/utils.py:38 | the first substitution only inserts '_' characters into its input |
| Utils.CaseBoundaryPassInserts | comepos_fetcher/utils.py:39 | the second substitution only inserts '_' characters into its input |
| Utils.CapitalWordPassNoUpper | comepos_fetcher/utils.py:38 | on a string without capitals the first substitution changes nothing |
| Utils.CaseBoundaryPassNoUpper | comepos_fetcher/utils.py:39 | on a string without capitals the second substitution changes nothing |
| Utils.CamelToSnakeInsertsUnderscores | comepos_fetcher/utils.py:37-39 | deleting some '_' from the result gives the lower-cased input, so the result is at least as long as the input |
| Utils.CamelToSnakeSeparatesBoundary | comepos_fetcher/utils.py:37-39 | wherever a lower-case letter or digit is followed by a capital, the result holds the two lower-cased with '_' between them, and up to that point it is the lower-cased input with only '_' inserted |
| Utils.CamelToSnakeNoUpper | comepos_fetcher/utils.py:37-39 | a name without capitals is returned unchanged |
| Utils.CamelToSnakeIdempotent | comepos_fetcher/utils.py:37-39 | converting twice gives the same as converting once |
| Utils.CamelWordsToSnake | comepos_fetcher/utils.py:37-39 | a lower-case first word followed by capitalised words becomes the words lower-cased and joined by '_' |
| Utils.AcronymThenWord | comepos_fetcher/utils.py:37-39 | a run of capitals followed by a capitalised word splits before the word's capital |
| Utils.StatusKeys | comepos_fetcher/utils.py:37-39 | "firstMeasurementDate" and "lastVariableValueChangedDate" become "first_measurement_date" and "last_variable_value_changed_date" |
| Utils.AcronymSplit | comepos_fetcher/utils.py:37-39 | "HTTPResponse" becomes "http_response" |
| Utils.EnsureCamelColumns | comepos_fetcher/utils.py:42-45 | a new list of the same length and order, each name converted |
| Utils.EnsureCamelColumnsIdempotent | comepos_fetcher/utils.py:42-45 | converting the columns twice gives the same as once |
| Utils.InferDatetime | comepos_fetcher/utils.py:27-34 | every argument gives no bound; the conversion lines are never reached |
| Slicing.SliceCount | comepos_fetcher/database.py:117 | at least one boundary, and at least two from the threshold on |
| Slicing.DateRange | comepos_fetcher/database.py:119 | exactly `periods` boundaries, the first at the start and the last at the end |
| Slicing.DateRangeOrdered | comepos_fetcher/database.py:119 | for a period that is not reversed, the boundaries never decrease and lie within it |
| Slicing.Windows | comepos_fetcher/database.py:129-130 | the pairs of adjacent boundaries, one fewer than the boundaries (the source imports but does not define `window`; see "## Left out") |
| Slicing.SliceRequests | comepos_fetcher/database.py:121-131 | one bounded request per adjacent pair; each request ends where the next starts |
| Slicing.Plan | comepos_fetcher/database.py:107-131 | one unbounded request below 100000 rows; else `n // 100000` bounded requests from `since` (or the first measurement) to the last change, chained end to start |
| Slicing.PlanOrdered | comepos_fetcher/database.py:112-131 | for a period that is not reversed, every request lies inside it and starts no later than it ends |
| Slicing.PlanExample | comepos_fetcher/database.py:117-131 | 250000 rows over [0, 300] give the requests [0, 150] and [150, 300] |
| Slicing.FetchAll | comepos_fetcher/database.py:121-132 | one answer per request: answer i is the history of request i |
| Slicing.FetchAllAppend | comepos_fetcher/database.py:121-132 | fetching two plans one after the other gives the answers of the first, then those of the second |
| Slicing.FetchedRowsKeepPlanOrder | comepos_fetcher/database.py:121-133 | the rows fetched for a plan split in two are the rows of the first part followed by those of the second |
| Slicing.ConcatTables | comepos_fetcher/database.py:133 | the result has as many rows as all the slices together |
| Slicing.ConcatTablesSegment | comepos_fetcher/database.py:133 | slice i is the contiguous segment right after the rows of the earlier slices |
| Slicing.ConcatTablesSkipsEmpty | comepos_fetcher/database.py:133 | empty slices contribute nothing |
| Slicing.ConcatTablesAscending | comepos_fetcher/database.py:121-133 | ascending slices in time order concatenate to an ascending table |
| Database.WebClient | comepos_fetcher/io.py:135-136 | every history call reaches the remote with both bounds dropped, whatever the request; so does every size call (io.py:178-179), whatever the start |
| Database.SensorKeyLayout | comepos_fetcher/database.py:95-96 | a sensor key is `/`, the building slug, `/sensors/`, then the sensor slug |
| Database.KeyLayout | comepos_fetcher/database.py:95-96 | the key of a sensor starts with the slug of its building id and ends with the sensor's slug |
| Database.BuildingInfoKey | comepos_fetcher/database.py:207 | the key is `/`, the building slug, then `/building_info` |
| Database.SensorsInfoKey | comepos_fetcher/database.py:221 | the key is `/`, the building slug, then `/sensors_info` |
| Database.SensorKeyInjective | comepos_fetcher/database.py:95-96 | within a building, two sensor keys are equal exactly when the slugs are |
| Database.SensorKeyNotInfoKey | comepos_fetcher/database.py:205-222 | no sensor key is the building_info or sensors_info key, and those two differ |
| Database.PutTables | comepos_fetcher/database.py:48 | the key is added with the table, except that an empty table in table format leaves the store as it was |
| Database.AppendExtendsOrCreates | comepos_fetcher/database.py:81 | the rows go after the stored ones, a missing key counting as an empty table; an empty append adds no key |
| Database.WritesAreLocal | comepos_fetcher/database.py:48 | put and append leave every other key as it was |
| Database.Store.Put | comepos_fetcher/database.py:48 | the store after `put` |
| Database.Store.Append | comepos_fetcher/database.py:81 | the store after `append` |
| Database.CacheOrFetch | comepos_fetcher/database.py:41-49 | the stored table on a hit, else the fetched one; whatever the key holds afterwards is the returned table; a hit writes nothing |
| Database.CacheHit | comepos_fetcher/database.py:41-43 | on a hit: the stored table, the store unchanged, and the fetch plays no part |
| Database.CacheMiss | comepos_fetcher/database.py:44-49 | on a miss: the fetched table is returned and stored under the key |
| Database.CacheOrFetchTwice | comepos_fetcher/database.py:41-49 | a second call returns the same table and writes nothing, whatever its fetch would return |
| Database.CacheOrFetchEmptyRefetches | comepos_fetcher/database.py:136-138 | an empty table fetched for a table-format key is not stored, so the next call fetches again |
| Database.FromCacheOrFetch | comepos_fetcher/database.py:41-49 | the returned table and the new store are those of `CacheOrFetch` |
| Database.FetchDataFollowsPlan | comepos_fetcher/database.py:101-133 | the fetched table is the concatenation of the answers to the plan |
| Database.FetchDataSmallIgnoresSince | comepos_fetcher/database.py:107-111 | below the threshold the whole history is returned, whatever `since` is |
| Database.WebFetchRepeatsHistory | comepos_fetcher/io.py:135-136 | through the web client, the fetch is the whole history once per planned request |
| Database.WebFetchIgnoresSince | comepos_fetcher/io.py:178-179 | through the web client, the watermark does not change what is fetched |
| Database.GetData | comepos_fetcher/database.py:135-140 | cache-or-fetch of the whole history under the sensor key, in table format |
| Database.MaxTime | comepos_fetcher/database.py:76 | the latest timestamp of the table, attained by one of its rows |
| Database.LastRetrievedValue | comepos_fetcher/database.py:73-78 | None exactly when the key is absent; raises exactly on an empty table; else the latest cached timestamp |
| Database.FetchNewDataSince | comepos_fetcher/database.py:142-145 | raises exactly on an empty cached table; otherwise fetches from the latest cached timestamp, or from the start when nothing is cached |
| Database.RefreshAsWritten | comepos_fetcher/database.py:80-81 | as written, a refresh raises AttributeError and writes nothing |
| Database.Refresh | comepos_fetcher/database.py:80-81 | the store after a refresh is that of `RefreshedTables`; on an exception it is unchanged |
| Database.RefreshExtends | comepos_fetcher/database.py:142-145 | raises only on an empty cached table; otherwise the cached rows stay in front, the new rows follow, and other keys are unchanged |
| Database.RefreshBootstraps | comepos_fetcher/database.py:142-145 | with nothing cached, a refresh stores what `_get_data` would |
| Database.RefreshFromWatermark | comepos_fetcher/database.py:142-143 | with rows cached, a refresh fetches from the latest cached timestamp, and the first slice starts at it |
| Database.RefreshSmallRefetchesAll | comepos_fetcher/database.py:107-111 | below the threshold a refresh appends the whole history again |
| Database.RefreshIsLocal | comepos_fetcher/database.py:73-81 | a refresh reads and writes only its sensor's key |
| Database.RefreshLeavesOthers | comepos_fetcher/database.py:80-81 | a successful refresh leaves every other key as it was |
| Database.SensorWritesKeepTablesNonEmpty | comepos_fetcher/database.py:73-81 | writes by `_get_data` and `refresh` never store an empty table, so the watermark never raises (in the model, where column names are left out) |
| Database.RefreshRunStops | comepos_fetcher/database.py:244-249 | after a refresh raises, later sensors are not reached |
| Database.RefreshRunUntouched | comepos_fetcher/database.py:244-249 | with distinct keys, the key of a sensor not yet reached is left as it was |
| Database.BuildingKeysDistinct | comepos_fetcher/database.py:227-242 | the sensors of one building, keyed by slug, have pairwise different keys |
| Database.RefreshRunRefreshesLast | comepos_fetcher/database.py:246-249 | the sensor of the latest loop iteration holds what refreshing it alone on the initial contents would give |
| Database.RefreshRunRefreshesEach | comepos_fetcher/database.py:246-249 | with distinct keys, each reached sensor holds what refreshing it alone would give |
| Database.InterruptedRefresh | comepos_fetcher/database.py:244-251 | an interrupt at sensor i gives the warning; sensors before i are refreshed, the rest untouched |
| Database.BulkRefreshNeverRaises | comepos_fetcher/database.py:244-249 | from a store without empty tables, no refresh in the loop raises (in the model, where column names are left out) |
| Database.BuildingDB.RefreshAllSensors | comepos_fetcher/database.py:244-251 | the store and outcome are those of refreshing the reached sensors in order |

## Findings

| source | as written | input that shows it | evidently intended | confidence | as-written member | corrected member |
|---|---|---|---|---|---|---|
| comepos_fetcher/database.py:81 | `refresh` calls `self.fetch_new_data()`, which `Sensor` does not define; only `_fetch_new_data` (database.py:142) exists | any sensor and any store: the lookup raises AttributeError before anything is fetched or appended, and `refresh_all_sensors` lets it escape at the first sensor | append what `_fetch_new_data` returns | not executed; high | Database.RefreshAsWritten | Database.Refresh |

## Left out

- Slicing.Windows: `comepos_fetcher/database.py:18` imports `window` from `comepos_fetcher/utils.py`, which does not define it (utils.py:18-45 defines only `_shared_cachemethod_meta`, `_infer_datetime`, `camel_to_snake` and `ensure_camel_columns`), so importing `database.py` as written raises ImportError. The model supplies `window` as the adjacent pairs of its input, the reading that matches the `total=n_slices - 1` progress bar at database.py:130.
- `comepos_fetcher/io.py` is not modelled beyond `WebClient`. Left out: HTTP, login, retries, the token-refresh thread, logout, and JSON parsing. An empty or unreadable answer becoming an empty table is covered by the client returning any table.
- The remote is a fixed snapshot. It does not change between the size call and the history calls, nor between refreshes.
- Timestamps are integers. The millisecond-to-datetime conversion and the float rounding of `date_range` are left out: each offset from the start is computed exactly and rounded down. Older pandas computed `linspace(start, end)` and cast it, truncating toward zero; the two agree for timestamps after the epoch, which every millisecond timestamp here is.
- Utils.Lower: lower-cases ASCII letters only; the Unicode case mapping of `str.lower` is left out.
- `slugify` is a parameter of the model, with no property assumed.
- Column names are not modelled. This covers the renaming of `value` to the sensor slug (database.py:139, 144) and the column checks the store makes when appending.
- The two writers disagree on the column name. `_get_data` stores the table with its `value` column, because the put happens inside `_from_cache_or_fetch` before the rename (database.py:136-139). `_fetch_new_data` renames `value` to the sensor slug before `refresh` appends (database.py:144, 81). pandas' `HDFStore.append` checks the appended columns against the stored table, so a refresh after `_get_data` would raise ValueError ("cannot match existing table structure"); this reading of pandas is not executed. Database.SensorWritesKeepTablesNonEmpty and Database.BulkRefreshNeverRaises hold for the model, where column names are left out.
- Row values are carried as `real` and never computed with.
- The progress bar, `enable_notebook`/`disable_notebook`, and warning filtering are display only and left out.
- Utils.InferDatetime: the `warnings.warn` at utils.py:28 is left out. It fires on every call, so twice for every size or history call of the web client.
- `ComeposDB`, the store opening and directory creation, `clean`, and the lazy `BuildingDB` defaults (database.py:149-242) are left out. The building status and the sensor list are inputs.
- `data`, `__len__`, `get_online_length`, `online_length` and `sensors_data` are left out. They are thin wrappers over `_get_data` and the client's size call.
- `_shared_cachemethod_meta` and `dotdict` are left out.
- Database.BuildingDB.RefreshAllSensors: an interrupt is modelled as arriving during a sensor's refresh before that sensor's append. An interrupt inside a write of the HDF file is not modelled.
- Database.Store.Append: creates a missing key, as pandas' `HDFStore.append` does when `refresh` calls it (database.py:81).
