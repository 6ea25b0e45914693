/** The fetch-and-cache engine of `database.py`: a local store of sensor
    tables keyed by path-like strings, filled from a remote history service
    either all at once (cache-or-fetch) or incrementally (refresh from the
    watermark), one sensor or a whole building at a time. */
module Database {
  import opened Wrappers
  import opened Slicing
  import Utils

  // ---------------------------------------------------------------------------
  // The remote service
  // ---------------------------------------------------------------------------

  /** One remote variable: the building, service and variable names the history
      calls take. */
  datatype Variable = Variable(buildingId: string, serviceName: string, variableName: string)

  /** The remote history service, as two functions of a fixed remote state: the
      number of rows after an optional start, and the rows of an optionally
      bounded period (possibly none, which is what an empty or unreadable
      answer becomes). */
  datatype Client = Client(historySize: (Variable, Option<Time>) -> nat, history: (Variable, Request) -> Table)

  /** The web client: both calls pass their bounds through `_infer_datetime`
      before they reach the remote. */
  function WebClient(remoteSize: (Variable, Option<int>, Option<int>) -> nat,
                     remoteHistory: (Variable, Option<int>, Option<int>) -> Table): (c: Client)
    ensures forall v, start :: c.historySize(v, start) == remoteSize(v, None, None)
    ensures forall v, req :: c.history(v, req) == remoteHistory(v, None, None)
  {
    assert forall start: Option<Time> :: Utils.InferDatetime(start) == None;
    assert forall req: Request :: Utils.InferDatetime(req.start) == None && Utils.InferDatetime(req.end) == None;
    Client((v, start: Option<Time>) => remoteSize(v, Utils.InferDatetime(start), Utils.InferDatetime<Option<Time>>(None)),
           (v, req: Request) => remoteHistory(v, Utils.InferDatetime(req.start), Utils.InferDatetime(req.end)))
  }

  // ---------------------------------------------------------------------------
  // Sensors and their keys
  // ---------------------------------------------------------------------------

  /** A sensor of a building: its slug, the remote variable it reads, the
      building status it plans with and the client it fetches through. */
  datatype Sensor = Sensor(slug: string, variable: Variable, status: BuildingStatus, client: Client)

  /** `/<building slug>/sensors/<sensor slug>`. */
  function SensorKey(buildingSlug: string, slug: string): string {
    "/" + buildingSlug + "/sensors/" + slug
  }

  /** `/<building slug>/building_info`. */
  function BuildingInfoKey(buildingSlug: string): (k: string)
    ensures |k| == |buildingSlug| + 15
    ensures k[..|buildingSlug| + 1] == "/" + buildingSlug
    ensures k[|buildingSlug| + 1..] == "/building_info"
  {
    "/" + buildingSlug + "/building_info"
  }

  /** `/<building slug>/sensors_info`. */
  function SensorsInfoKey(buildingSlug: string): (k: string)
    ensures |k| == |buildingSlug| + 14
    ensures k[..|buildingSlug| + 1] == "/" + buildingSlug
    ensures k[|buildingSlug| + 1..] == "/sensors_info"
  {
    "/" + buildingSlug + "/sensors_info"
  }

  /** `Sensor.key`; `slugify` is the slug function of the building id, taken as given. */
  function Key(sensor: Sensor, slugify: string -> string): string {
    SensorKey(slugify(sensor.variable.buildingId), sensor.slug)
  }

  /** A sensor key is the path `/<building slug>/sensors/<sensor slug>`: the
      building's group, then the sensors group, then the sensor's slug. */
  lemma SensorKeyLayout(buildingSlug: string, slug: string)
    ensures var k := SensorKey(buildingSlug, slug);
      && |k| == |buildingSlug| + 10 + |slug|
      && k[..|buildingSlug| + 1] == "/" + buildingSlug
      && k[|buildingSlug| + 1..|buildingSlug| + 10] == "/sensors/"
      && k[|buildingSlug| + 10..] == slug
  {
  }

  /** The key of a sensor is laid out under the slug of its building id and ends with its own slug. */
  lemma KeyLayout(sensor: Sensor, slugify: string -> string)
    ensures var b, k := slugify(sensor.variable.buildingId), Key(sensor, slugify);
      && |k| == |b| + 10 + |sensor.slug|
      && k[..|b| + 10] == "/" + b + "/sensors/"
      && k[|b| + 10..] == sensor.slug
  {
    SensorKeyLayout(slugify(sensor.variable.buildingId), sensor.slug);
  }

  /** Within one building, the sensor slug is read back from the key. */
  lemma SensorKeyInjective(buildingSlug: string, slug1: string, slug2: string)
    ensures SensorKey(buildingSlug, slug1) == SensorKey(buildingSlug, slug2) <==> slug1 == slug2
  {
    var prefix := "/" + buildingSlug + "/sensors/";
    assert SensorKey(buildingSlug, slug1) == prefix + slug1;
    assert SensorKey(buildingSlug, slug2) == prefix + slug2;
    assert (prefix + slug1)[|prefix|..] == slug1;
    assert (prefix + slug2)[|prefix|..] == slug2;
  }

  /** No sensor key is one of the two building-level keys. */
  lemma SensorKeyNotInfoKey(buildingSlug: string, slug: string)
    ensures SensorKey(buildingSlug, slug) != BuildingInfoKey(buildingSlug)
    ensures SensorKey(buildingSlug, slug) != SensorsInfoKey(buildingSlug)
    ensures BuildingInfoKey(buildingSlug) != SensorsInfoKey(buildingSlug)
  {
    var n := |buildingSlug| + 1;
    var sensor, building, sensors := SensorKey(buildingSlug, slug), BuildingInfoKey(buildingSlug), SensorsInfoKey(buildingSlug);
    assert sensor == ("/" + buildingSlug) + ("/sensors/" + slug);
    assert building == ("/" + buildingSlug) + "/building_info";
    assert sensors == ("/" + buildingSlug) + "/sensors_info";
    assert sensor[n + 1] == 's' && building[n + 1] == 'b';
    assert sensor[n + 8] == '/' && sensors[n + 8] == '_';
    assert sensors[n + 1] == 's';
  }

  // ---------------------------------------------------------------------------
  // The local store
  // ---------------------------------------------------------------------------

  /** The two on-disk layouts a write may ask for. */
  datatype Format = Fixed | TableFormat

  /** The contents after `put(key, t, format)`: the table replaces whatever
      was there, except that an empty table written in table format is not
      written at all. */
  function PutTables(tables: map<string, Table>, key: string, t: Table, format: Format): (r: map<string, Table>)
    ensures r.Keys == tables.Keys + (if t == [] && format == TableFormat then {} else {key})
    ensures t != [] || format == Fixed ==> r[key] == t
    ensures t == [] && format == TableFormat ==> r == tables
  {
    if t == [] && format == TableFormat then tables else tables[key := t]
  }

  /** The contents after `append(key, rows)`: the rows go after the stored
      ones, a missing key is created, and an empty append writes nothing. */
  function AppendTables(tables: map<string, Table>, key: string, rows: Table): map<string, Table> {
    if rows == [] then tables
    else if key in tables then tables[key := tables[key] + rows]
    else tables[key := rows]
  }

  /** An append extends the stored table, or creates it from the rows when the
      key is missing, as if a missing key held the empty table; an empty
      append adds no key. */
  lemma AppendExtendsOrCreates(tables: map<string, Table>, key: string, rows: Table)
    ensures AppendTables(tables, key, rows).Keys == tables.Keys + (if rows == [] then {} else {key})
    ensures key in AppendTables(tables, key, rows) ==>
      AppendTables(tables, key, rows)[key] == (if key in tables then tables[key] else []) + rows
  {
  }

  /** Both writes leave every other key as it was. */
  lemma WritesAreLocal(tables: map<string, Table>, key: string, t: Table, format: Format, other: string)
    requires other != key
    ensures other in PutTables(tables, key, t, format) <==> other in tables
    ensures other in AppendTables(tables, key, t) <==> other in tables
    ensures other in tables ==> PutTables(tables, key, t, format)[other] == tables[other]
    ensures other in tables ==> AppendTables(tables, key, t)[other] == tables[other]
  {
  }

  /** The HDF store the fetcher reads and writes: a map from keys to tables. */
  class Store {
    var tables: map<string, Table>

    /** A store opened on existing contents. */
    constructor (contents: map<string, Table>)
      ensures tables == contents
    {
      tables := contents;
    }

    method Put(key: string, t: Table, format: Format)
      modifies this
      ensures tables == PutTables(old(tables), key, t, format)
    {
      if !(t == [] && format == TableFormat) {
        tables := tables[key := t];
      }
    }

    method Append(key: string, rows: Table)
      modifies this
      ensures tables == AppendTables(old(tables), key, rows)
    {
      if rows != [] {
        if key in tables {
          tables := tables[key := tables[key] + rows];
        } else {
          tables := tables[key := rows];
        }
      }
    }
  }

  // ---------------------------------------------------------------------------
  // Cache or fetch
  // ---------------------------------------------------------------------------

  /** The table `_from_cache_or_fetch` returns and the contents it leaves,
      when `fetched` is what the fetch would return. */
  function CacheOrFetch(tables: map<string, Table>, key: string, fetched: Table, format: Format): (res: (Table, map<string, Table>))
    ensures res.0 == (if key in tables then tables[key] else fetched)
    ensures key in res.1 ==> res.1[key] == res.0
    ensures key in tables ==> res.1 == tables
  {
    if key in tables then (tables[key], tables)
    else (fetched, PutTables(tables, key, fetched, format))
  }

  /** On a hit the stored table is returned, the store is left alone, and what
      the fetch would have returned plays no part. */
  lemma CacheHit(tables: map<string, Table>, key: string, fetched: Table, other: Table, format: Format)
    requires key in tables
    ensures CacheOrFetch(tables, key, fetched, format) == (tables[key], tables)
    ensures CacheOrFetch(tables, key, fetched, format) == CacheOrFetch(tables, key, other, format)
  {
  }

  /** On a miss the fetched table is returned and, unless it is an empty
      table-format write, stored under the key. */
  lemma CacheMiss(tables: map<string, Table>, key: string, fetched: Table, format: Format)
    requires key !in tables
    ensures CacheOrFetch(tables, key, fetched, format).0 == fetched
    ensures fetched != [] || format == Fixed ==>
      CacheOrFetch(tables, key, fetched, format).1 == tables[key := fetched]
  {
  }

  /** A second call with the same key returns the same table and writes
      nothing, whatever its fetch would return, once the first call has
      stored something. */
  lemma CacheOrFetchTwice(tables: map<string, Table>, key: string, first: Table, second: Table, format: Format)
    requires key in tables || first != [] || format == Fixed
    ensures CacheOrFetch(CacheOrFetch(tables, key, first, format).1, key, second, format)
      == (CacheOrFetch(tables, key, first, format).0, CacheOrFetch(tables, key, first, format).1)
  {
  }

  /** An empty table fetched for a table-format key is not stored, so the
      next call fetches again. */
  lemma CacheOrFetchEmptyRefetches(tables: map<string, Table>, key: string, second: Table)
    requires key !in tables
    ensures CacheOrFetch(tables, key, [], TableFormat).1 == tables
    ensures CacheOrFetch(CacheOrFetch(tables, key, [], TableFormat).1, key, second, TableFormat).0 == second
  {
  }

  /** `_from_cache_or_fetch`: the fetch runs only on a miss. */
  method FromCacheOrFetch(store: Store, key: string, fetch: () -> Table, format: Format) returns (t: Table)
    modifies store
    ensures (t, store.tables) == CacheOrFetch(old(store.tables), key, fetch(), format)
  {
    if key in store.tables {
      t := store.tables[key];
    } else {
      t := fetch();
      store.Put(key, t, format);
    }
  }

  // ---------------------------------------------------------------------------
  // Fetching a sensor's history
  // ---------------------------------------------------------------------------

  /** `_fetch_data(since)`: one unbounded request below the threshold,
      otherwise the planned slices concatenated in order. */
  function FetchData(sensor: Sensor, since: Option<Time>): Table {
    var nValues := sensor.client.historySize(sensor.variable, since);
    if nValues < MaxLinePerRequest then
      sensor.client.history(sensor.variable, Request(None, None))
    else
      var plan := Plan(nValues, since, sensor.status);
      ConcatTables(FetchAll(req => sensor.client.history(sensor.variable, req), plan))
  }

  /** Both branches are the concatenation of the answers to the plan: the
      single unbounded request is the one-request plan. */
  lemma FetchDataFollowsPlan(sensor: Sensor, since: Option<Time>)
    ensures FetchData(sensor, since) == ConcatTables(FetchAll(req => sensor.client.history(sensor.variable, req),
                                                                Plan(sensor.client.historySize(sensor.variable, since), since, sensor.status)))
  {
    var nValues := sensor.client.historySize(sensor.variable, since);
    if nValues < MaxLinePerRequest {
      var h := req => sensor.client.history(sensor.variable, req);
      var parts := FetchAll(h, [Request(None, None)]);
      assert parts == [h(Request(None, None))];
      assert ConcatTables(parts) == parts[0] + ConcatTables([]);
    }
  }

  /** Below the threshold the whole history is requested, whatever `since` is. */
  lemma FetchDataSmallIgnoresSince(sensor: Sensor, since1: Option<Time>, since2: Option<Time>)
    requires sensor.client.historySize(sensor.variable, since1) < MaxLinePerRequest
    requires sensor.client.historySize(sensor.variable, since2) < MaxLinePerRequest
    ensures FetchData(sensor, since1) == FetchData(sensor, since2) == sensor.client.history(sensor.variable, Request(None, None))
  {
  }

  /** Through the web client every request reaches the remote unbounded, so
      the fetch is the whole history once per planned request, whatever
      `since` is. */
  lemma {:induction false} WebFetchRepeatsHistory(sensor: Sensor, since: Option<Time>,
                                                  remoteSize: (Variable, Option<int>, Option<int>) -> nat,
                                                  remoteHistory: (Variable, Option<int>, Option<int>) -> Table)
    requires sensor.client == WebClient(remoteSize, remoteHistory)
    ensures var all := remoteHistory(sensor.variable, None, None);
            var n := remoteSize(sensor.variable, None, None);
            FetchData(sensor, since) == ConcatTables(seq(if n < MaxLinePerRequest then 1 else n / MaxLinePerRequest, _ => all))
  {
    var all := remoteHistory(sensor.variable, None, None);
    var n := remoteSize(sensor.variable, None, None);
    assert Utils.InferDatetime(since) == None;
    assert Utils.InferDatetime<Option<Time>>(None) == None;
    assert sensor.client.historySize(sensor.variable, since) == n;
    FetchDataFollowsPlan(sensor, since);
    var plan := Plan(n, since, sensor.status);
    var parts := FetchAll(req => sensor.client.history(sensor.variable, req), plan);
    forall i | 0 <= i < |plan|
      ensures parts[i] == all
    {
      assert Utils.InferDatetime(plan[i].start) == None && Utils.InferDatetime(plan[i].end) == None;
      assert parts[i] == sensor.client.history(sensor.variable, plan[i]);
    }
    assert parts == seq(|plan|, _ => all);
  }

  /** Through the web client, the watermark has no effect on what is fetched. */
  lemma WebFetchIgnoresSince(sensor: Sensor, since1: Option<Time>, since2: Option<Time>,
                             remoteSize: (Variable, Option<int>, Option<int>) -> nat,
                             remoteHistory: (Variable, Option<int>, Option<int>) -> Table)
    requires sensor.client == WebClient(remoteSize, remoteHistory)
    ensures FetchData(sensor, since1) == FetchData(sensor, since2)
  {
    WebFetchRepeatsHistory(sensor, since1, remoteSize, remoteHistory);
    WebFetchRepeatsHistory(sensor, since2, remoteSize, remoteHistory);
  }

  /** `_get_data`: the cached table, or the whole history fetched and stored
      in table format. */
  method GetData(sensor: Sensor, slugify: string -> string, store: Store) returns (data: Table)
    modifies store
    ensures (data, store.tables) == CacheOrFetch(old(store.tables), Key(sensor, slugify), FetchData(sensor, None), TableFormat)
  {
    data := FromCacheOrFetch(store, Key(sensor, slugify), () => FetchData(sensor, None), TableFormat);
  }

  // ---------------------------------------------------------------------------
  // The watermark and refresh
  // ---------------------------------------------------------------------------

  /** The exceptions that escape a refresh: `index[-1]` of an empty stored
      table, and the attribute lookup that the source gets wrong. */
  datatype RefreshError = IndexError | AttributeError

  /** The latest timestamp of a non-empty table. */
  function MaxTime(t: Table): (m: Time)
    requires t != []
    ensures exists i :: 0 <= i < |t| && t[i].time == m
    ensures forall i :: 0 <= i < |t| ==> t[i].time <= m
  {
    if |t| == 1 then t[0].time
    else
      var rest := MaxTime(t[1..]);
      assert forall i :: 1 <= i < |t| ==> t[i] == t[1..][i - 1];
      if t[0].time >= rest then t[0].time else rest
  }

  /** `last_retrieved_value`: the latest cached timestamp, None when the key is
      absent; an empty stored table raises. */
  function LastRetrievedValue(tables: map<string, Table>, key: string): (r: Result<Option<Time>, RefreshError>)
    ensures r.Failure? <==> key in tables && tables[key] == []
    ensures r == Success(None) <==> key !in tables
    ensures r.Success? && r.value.Some? ==>
      key in tables && (forall i :: 0 <= i < |tables[key]| ==> tables[key][i].time <= r.value.value)
      && (exists i :: 0 <= i < |tables[key]| && tables[key][i].time == r.value.value)
  {
    if key !in tables then Success(None)
    else if tables[key] == [] then Failure(IndexError)
    else Success(Some(MaxTime(tables[key])))
  }

  /** `_fetch_new_data`: everything from the watermark on (the watermark row
      itself included, since the start is the watermark), or everything when
      nothing is cached. */
  function FetchNewData(sensor: Sensor, slugify: string -> string, tables: map<string, Table>): Result<Table, RefreshError> {
    match LastRetrievedValue(tables, Key(sensor, slugify))
    case Failure(e) => Failure(e)
    case Success(since) => Success(FetchData(sensor, since))
  }

  /** `_fetch_new_data` raises exactly when the cached table is empty, and
      otherwise fetches from the latest cached timestamp, or from the start
      when nothing is cached. */
  lemma FetchNewDataSince(sensor: Sensor, slugify: string -> string, tables: map<string, Table>)
    ensures var key := Key(sensor, slugify);
      FetchNewData(sensor, slugify, tables).Failure? <==> key in tables && tables[key] == []
    ensures var key := Key(sensor, slugify);
      FetchNewData(sensor, slugify, tables).Success? ==>
        FetchNewData(sensor, slugify, tables).value == FetchData(sensor, if key in tables then Some(MaxTime(tables[key])) else None)
  {
  }

  /** The contents after a refresh of the sensor, or the exception it raises. */
  function RefreshedTables(sensor: Sensor, slugify: string -> string, tables: map<string, Table>): Result<map<string, Table>, RefreshError> {
    match FetchNewData(sensor, slugify, tables)
    case Failure(e) => Failure(e)
    case Success(rows) => Success(AppendTables(tables, Key(sensor, slugify), rows))
  }

  /** `refresh` as written: the attribute lookup of `fetch_new_data` fails
      before anything is fetched or written. */
  method RefreshAsWritten(sensor: Sensor, slugify: string -> string, store: Store) returns (r: Result<(), RefreshError>)
    ensures r == Failure(AttributeError)
  {
    var _ := Key(sensor, slugify);
    r := Failure(AttributeError);
  }

  /** `refresh` as intended: append what `_fetch_new_data` returns. */
  method Refresh(sensor: Sensor, slugify: string -> string, store: Store) returns (r: Result<(), RefreshError>)
    modifies store
    ensures r.Failure? ==> store.tables == old(store.tables)
    ensures match RefreshedTables(sensor, slugify, old(store.tables))
            case Failure(e) => r == Failure(e)
            case Success(t) => r == Success(()) && store.tables == t
  {
    var key := Key(sensor, slugify);
    var newData := FetchNewData(sensor, slugify, store.tables);
    if newData.Failure? {
      return Failure(newData.error);
    }
    store.Append(key, newData.value);
    r := Success(());
  }

  /** A refresh raises exactly when the cached table is empty; otherwise the
      cached rows stay where they were, in front, the fetched rows follow, and
      every other key is left as it was. */
  lemma RefreshExtends(sensor: Sensor, slugify: string -> string, tables: map<string, Table>)
    ensures RefreshedTables(sensor, slugify, tables).Failure? <==>
      Key(sensor, slugify) in tables && tables[Key(sensor, slugify)] == []
    ensures RefreshedTables(sensor, slugify, tables).Success? ==>
      var after := RefreshedTables(sensor, slugify, tables).value;
      var key := Key(sensor, slugify);
      var old_ := if key in tables then tables[key] else [];
      var rows := FetchNewData(sensor, slugify, tables).value;
      (key in after <==> key in tables || rows != [])
      && (key in after ==> after[key] == old_ + rows)
      && (forall k :: k != key ==> (k in after <==> k in tables))
      && (forall k :: k != key && k in tables ==> after[k] == tables[k])
  {
  }

  /** With nothing cached, a refresh stores the whole history just as
      `_get_data` would. */
  lemma RefreshBootstraps(sensor: Sensor, slugify: string -> string, tables: map<string, Table>)
    requires Key(sensor, slugify) !in tables
    ensures RefreshedTables(sensor, slugify, tables)
      == Success(CacheOrFetch(tables, Key(sensor, slugify), FetchData(sensor, None), TableFormat).1)
  {
  }

  /** With rows cached, a refresh asks the remote from the latest cached
      timestamp itself, so a sliced refresh requests that row again. */
  lemma RefreshFromWatermark(sensor: Sensor, slugify: string -> string, tables: map<string, Table>)
    requires Key(sensor, slugify) in tables && tables[Key(sensor, slugify)] != []
    ensures var w := MaxTime(tables[Key(sensor, slugify)]);
            FetchNewData(sensor, slugify, tables) == Success(FetchData(sensor, Some(w)))
            && (sensor.client.historySize(sensor.variable, Some(w)) >= MaxLinePerRequest ==>
                  Plan(sensor.client.historySize(sensor.variable, Some(w)), Some(w), sensor.status)[0].start == Some(w))
  {
  }

  /** Below the threshold a refresh appends the whole remote history again. */
  lemma RefreshSmallRefetchesAll(sensor: Sensor, slugify: string -> string, tables: map<string, Table>)
    requires Key(sensor, slugify) in tables && tables[Key(sensor, slugify)] != []
    requires sensor.client.historySize(sensor.variable, Some(MaxTime(tables[Key(sensor, slugify)]))) < MaxLinePerRequest
    ensures RefreshedTables(sensor, slugify, tables) == Success(tables[Key(sensor, slugify) :=
      tables[Key(sensor, slugify)] + sensor.client.history(sensor.variable, Request(None, None))])
  {
    var key := Key(sensor, slugify);
    var rows := sensor.client.history(sensor.variable, Request(None, None));
    if rows == [] {
      assert tables[key] + rows == tables[key];
      assert tables[key := tables[key]] == tables;
    }
  }

  /** The refresh of one sensor reads and writes only that sensor's key: two
      contents that agree there give the same outcome there. */
  lemma RefreshIsLocal(sensor: Sensor, slugify: string -> string, t1: map<string, Table>, t2: map<string, Table>)
    requires var key := Key(sensor, slugify); (key in t1 <==> key in t2) && (key in t1 ==> t1[key] == t2[key])
    ensures RefreshedTables(sensor, slugify, t1).Failure? <==> RefreshedTables(sensor, slugify, t2).Failure?
    ensures RefreshedTables(sensor, slugify, t1).Failure? ==>
      RefreshedTables(sensor, slugify, t1).error == RefreshedTables(sensor, slugify, t2).error
    ensures RefreshedTables(sensor, slugify, t1).Success? ==>
      var key := Key(sensor, slugify);
      var a1, a2 := RefreshedTables(sensor, slugify, t1).value, RefreshedTables(sensor, slugify, t2).value;
      (key in a1 <==> key in a2) && (key in a1 ==> a1[key] == a2[key])
  {
    var key := Key(sensor, slugify);
    assert LastRetrievedValue(t1, key) == LastRetrievedValue(t2, key);
  }

  /** No key holds an empty table. */
  predicate NoEmptyTable(tables: map<string, Table>) {
    forall k :: k in tables ==> tables[k] != []
  }

  /** Table-format puts and appends never store an empty table, so a store
      written only by `_get_data` and `refresh` never makes the watermark
      raise: from such contents a refresh succeeds and keeps them so. */
  lemma SensorWritesKeepTablesNonEmpty(sensor: Sensor, slugify: string -> string, tables: map<string, Table>)
    requires NoEmptyTable(tables)
    ensures NoEmptyTable(CacheOrFetch(tables, Key(sensor, slugify), FetchData(sensor, None), TableFormat).1)
    ensures RefreshedTables(sensor, slugify, tables).Success?
    ensures NoEmptyTable(RefreshedTables(sensor, slugify, tables).value)
  {
    var key := Key(sensor, slugify);
    var after := RefreshedTables(sensor, slugify, tables).value;
    forall k | k in after
      ensures after[k] != []
    {
      if k != key {
        RefreshLeavesOthers(sensor, slugify, tables, k);
      }
    }
  }

  // ---------------------------------------------------------------------------
  // Refreshing a whole building
  // ---------------------------------------------------------------------------

  /** The state of a bulk refresh: the contents so far, and the exception that
      stopped it, if any. */
  datatype Run = Run(tables: map<string, Table>, error: Option<RefreshError>)

  /** The sensors refreshed one after the other, the first n of them, stopping
      at the first exception. */
  function RefreshRun(sensors: seq<Sensor>, slugify: string -> string, tables: map<string, Table>, n: nat): (run: Run)
    requires n <= |sensors|
  {
    if n == 0 then Run(tables, None)
    else
      var prev := RefreshRun(sensors, slugify, tables, n - 1);
      if prev.error.Some? then prev
      else match RefreshedTables(sensors[n - 1], slugify, prev.tables)
        case Failure(e) => Run(prev.tables, Some(e))
        case Success(t) => Run(t, None)
  }

  /** Once a refresh has raised, the later sensors are not reached. */
  lemma {:induction false} RefreshRunStops(sensors: seq<Sensor>, slugify: string -> string, tables: map<string, Table>, m: nat, n: nat)
    requires m <= n <= |sensors|
    requires RefreshRun(sensors, slugify, tables, m).error.Some?
    ensures RefreshRun(sensors, slugify, tables, n) == RefreshRun(sensors, slugify, tables, m)
    decreases n
  {
    if n > m {
      RefreshRunStops(sensors, slugify, tables, m, n - 1);
    }
  }

  /** Two contents agree at a key: both lack it, or both hold the same table. */
  predicate SameAt(a: map<string, Table>, b: map<string, Table>, k: string) {
    (k in a <==> k in b) && (k in a ==> a[k] == b[k])
  }

  /** `after` holds, at the sensor's key, what refreshing that sensor alone on
      `tables` would store there. */
  predicate HoldsRefreshOf(sensor: Sensor, slugify: string -> string, tables: map<string, Table>, after: map<string, Table>) {
    RefreshedTables(sensor, slugify, tables).Success?
    && SameAt(after, RefreshedTables(sensor, slugify, tables).value, Key(sensor, slugify))
  }

  /** The key of a sensor not among the first n is left as it was. */
  lemma {:induction false} RefreshRunUntouched(sensors: seq<Sensor>, slugify: string -> string, tables: map<string, Table>, n: nat, m: nat)
    requires n <= m < |sensors|
    requires DistinctKeys(sensors, slugify)
    ensures SameAt(RefreshRun(sensors, slugify, tables, n).tables, tables, Key(sensors[m], slugify))
    decreases n
  {
    if n > 0 {
      RefreshRunUntouched(sensors, slugify, tables, n - 1, m);
      var prev := RefreshRun(sensors, slugify, tables, n - 1);
      if prev.error.None? && RefreshedTables(sensors[n - 1], slugify, prev.tables).Success? {
        assert Key(sensors[n - 1], slugify) != Key(sensors[m], slugify);
        RefreshLeavesOthers(sensors[n - 1], slugify, prev.tables, Key(sensors[m], slugify));
      }
    }
  }

  /** The sensors' keys are pairwise different. */
  predicate DistinctKeys(sensors: seq<Sensor>, slugify: string -> string) {
    forall i, j :: 0 <= i < j < |sensors| ==> Key(sensors[i], slugify) != Key(sensors[j], slugify)
  }

  /** The sensors of one building, listed once each: same building, distinct slugs. */
  predicate SensorsOfBuilding(buildingId: string, sensors: seq<Sensor>) {
    (forall i :: 0 <= i < |sensors| ==> sensors[i].variable.buildingId == buildingId)
    && (forall i, j :: 0 <= i < j < |sensors| ==> sensors[i].slug != sensors[j].slug)
  }

  lemma BuildingKeysDistinct(buildingId: string, sensors: seq<Sensor>, slugify: string -> string)
    requires SensorsOfBuilding(buildingId, sensors)
    ensures DistinctKeys(sensors, slugify)
  {
    forall i, j | 0 <= i < j < |sensors|
      ensures Key(sensors[i], slugify) != Key(sensors[j], slugify)
    {
      SensorKeyInjective(slugify(buildingId), sensors[i].slug, sensors[j].slug);
    }
  }

  /** A successful refresh agrees with its input at every other key. */
  lemma RefreshLeavesOthers(sensor: Sensor, slugify: string -> string, tables: map<string, Table>, k: string)
    requires RefreshedTables(sensor, slugify, tables).Success?
    requires k != Key(sensor, slugify)
    ensures SameAt(RefreshedTables(sensor, slugify, tables).value, tables, k)
  {
  }

  /** The last step of a bulk refresh that raised nothing: the run before it
      raised nothing either, and the step refreshed the n-th sensor. */
  lemma RefreshRunLast(sensors: seq<Sensor>, slugify: string -> string, tables: map<string, Table>, n: nat)
    requires 0 < n <= |sensors|
    requires RefreshRun(sensors, slugify, tables, n).error.None?
    ensures RefreshRun(sensors, slugify, tables, n - 1).error.None?
    ensures RefreshedTables(sensors[n - 1], slugify, RefreshRun(sensors, slugify, tables, n - 1).tables)
      == Success(RefreshRun(sensors, slugify, tables, n).tables)
  {
  }

  /** One more step of a run that has not raised refreshes the next sensor. */
  lemma RefreshRunNext(sensors: seq<Sensor>, slugify: string -> string, tables: map<string, Table>, i: nat)
    requires i < |sensors| && RefreshRun(sensors, slugify, tables, i).error.None?
    ensures var prev := RefreshRun(sensors, slugify, tables, i).tables;
      RefreshRun(sensors, slugify, tables, i + 1) ==
        match RefreshedTables(sensors[i], slugify, prev)
        case Failure(e) => Run(prev, Some(e))
        case Success(t) => Run(t, None)
  {
  }

  /** The sensor refreshed last holds what refreshing it alone would give. */
  lemma RefreshRunRefreshesLast(sensors: seq<Sensor>, slugify: string -> string, tables: map<string, Table>, n: nat)
    requires 0 < n <= |sensors|
    requires DistinctKeys(sensors, slugify)
    requires RefreshRun(sensors, slugify, tables, n).error.None?
    ensures HoldsRefreshOf(sensors[n - 1], slugify, tables, RefreshRun(sensors, slugify, tables, n).tables)
  {
    RefreshRunLast(sensors, slugify, tables, n);
    RefreshRunUntouched(sensors, slugify, tables, n - 1, n - 1);
    RefreshIsLocal(sensors[n - 1], slugify, RefreshRun(sensors, slugify, tables, n - 1).tables, tables);
  }

  /** With distinct keys and no exception, each of the first n sensors holds
      what refreshing it alone on the initial contents would give. */
  lemma {:induction false} RefreshRunRefreshesEach(sensors: seq<Sensor>, slugify: string -> string, tables: map<string, Table>, n: nat, j: nat)
    requires j < n <= |sensors|
    requires DistinctKeys(sensors, slugify)
    requires RefreshRun(sensors, slugify, tables, n).error.None?
    ensures HoldsRefreshOf(sensors[j], slugify, tables, RefreshRun(sensors, slugify, tables, n).tables)
    decreases n
  {
    if j == n - 1 {
      RefreshRunRefreshesLast(sensors, slugify, tables, n);
    } else {
      RefreshRunLast(sensors, slugify, tables, n);
      RefreshRunRefreshesEach(sensors, slugify, tables, n - 1, j);
      HoldsRefreshAfterOther(sensors[j], sensors[n - 1], slugify, tables,
                             RefreshRun(sensors, slugify, tables, n - 1).tables, RefreshRun(sensors, slugify, tables, n).tables);
    }
  }

  /** A sensor keeps what its refresh gave when another sensor, with another
      key, is refreshed after it. */
  lemma HoldsRefreshAfterOther(sensor: Sensor, other: Sensor, slugify: string -> string, tables: map<string, Table>,
                               before: map<string, Table>, after: map<string, Table>)
    requires HoldsRefreshOf(sensor, slugify, tables, before)
    requires RefreshedTables(other, slugify, before) == Success(after)
    requires Key(sensor, slugify) != Key(other, slugify)
    ensures HoldsRefreshOf(sensor, slugify, tables, after)
  {
    RefreshLeavesOthers(other, slugify, before, Key(sensor, slugify));
  }

  /** What ends a bulk refresh that raises nothing. */
  datatype BulkOutcome = Completed | Warned(message: string)

  const InterruptWarning: string := "User interruption. Some data have not been updated."

  /** How many sensors a bulk refresh reaches: all of them, or those before
      the one during which the user interrupts. */
  function Reached(count: nat, interruptAt: Option<nat>): (n: nat)
    ensures n <= count
  {
    if interruptAt.Some? && interruptAt.value < count then interruptAt.value else count
  }

  /** What `refresh_all_sensors` returns or raises, given the run it makes. */
  function BulkResult(run: Run, interrupted: bool): Result<BulkOutcome, RefreshError> {
    if run.error.Some? then Failure(run.error.value)
    else if interrupted then Success(Warned(InterruptWarning))
    else Success(Completed)
  }

  /** An interrupt is turned into the warning, and leaves every sensor from the
      interrupted one on as it was; the sensors before it are refreshed. */
  lemma InterruptedRefresh(sensors: seq<Sensor>, slugify: string -> string, tables: map<string, Table>, i: nat)
    requires i < |sensors|
    requires DistinctKeys(sensors, slugify)
    requires RefreshRun(sensors, slugify, tables, Reached(|sensors|, Some(i))).error.None?
    ensures BulkResult(RefreshRun(sensors, slugify, tables, Reached(|sensors|, Some(i))), true) == Success(Warned(InterruptWarning))
    ensures forall j :: 0 <= j < i ==>
      HoldsRefreshOf(sensors[j], slugify, tables, RefreshRun(sensors, slugify, tables, Reached(|sensors|, Some(i))).tables)
    ensures forall j :: i <= j < |sensors| ==>
      SameAt(RefreshRun(sensors, slugify, tables, Reached(|sensors|, Some(i))).tables, tables, Key(sensors[j], slugify))
  {
    assert Reached(|sensors|, Some(i)) == i;
    forall j | 0 <= j < i
      ensures HoldsRefreshOf(sensors[j], slugify, tables, RefreshRun(sensors, slugify, tables, i).tables)
    {
      RefreshRunRefreshesEach(sensors, slugify, tables, i, j);
    }
    forall j | i <= j < |sensors|
      ensures SameAt(RefreshRun(sensors, slugify, tables, i).tables, tables, Key(sensors[j], slugify))
    {
      RefreshRunUntouched(sensors, slugify, tables, i, j);
    }
  }

  /** From contents without empty tables, a bulk refresh raises nothing: it
      completes, or ends with the warning when interrupted. */
  lemma {:induction false} BulkRefreshNeverRaises(sensors: seq<Sensor>, slugify: string -> string, tables: map<string, Table>, n: nat)
    requires n <= |sensors|
    requires NoEmptyTable(tables)
    ensures RefreshRun(sensors, slugify, tables, n).error.None?
    ensures NoEmptyTable(RefreshRun(sensors, slugify, tables, n).tables)
    decreases n
  {
    if n > 0 {
      BulkRefreshNeverRaises(sensors, slugify, tables, n - 1);
      SensorWritesKeepTablesNonEmpty(sensors[n - 1], slugify, RefreshRun(sensors, slugify, tables, n - 1).tables);
    }
  }

  /** A building: its id, its sensors and the store they share. */
  class BuildingDB {
    const buildingId: string
    const sensors: seq<Sensor>
    const store: Store

    constructor (buildingId: string, sensors: seq<Sensor>, store: Store)
      ensures this.buildingId == buildingId && this.sensors == sensors && this.store == store
    {
      this.buildingId := buildingId;
      this.sensors := sensors;
      this.store := store;
    }

    /** `refresh_all_sensors`: refresh every sensor in order; an exception from
        a refresh escapes, an interrupt during the refresh of sensor
        `interruptAt` ends the loop with the warning. */
    method RefreshAllSensors(slugify: string -> string, interruptAt: Option<nat>) returns (r: Result<BulkOutcome, RefreshError>)
      modifies store
      ensures var n := Reached(|sensors|, interruptAt);
              var run := RefreshRun(sensors, slugify, old(store.tables), n);
              store.tables == run.tables && r == BulkResult(run, n < |sensors|)
    {
      var n := Reached(|sensors|, interruptAt);
      var i := 0;
      while i < n
        invariant 0 <= i <= n
        invariant RefreshRun(sensors, slugify, old(store.tables), i) == Run(store.tables, None)
      {
        RefreshRunNext(sensors, slugify, old(store.tables), i);
        var res := Refresh(sensors[i], slugify, store);
        if res.Failure? {
          RefreshRunStops(sensors, slugify, old(store.tables), i + 1, n);
          return Failure(res.error);
        }
        i := i + 1;
      }
      if n < |sensors| {
        r := Success(Warned(InterruptWarning));
      } else {
        r := Success(Completed);
      }
    }
  }
}
