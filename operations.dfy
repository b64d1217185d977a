/**
 * `DatabaseOperations`: creating cities and versions, storing weather readings
 * and daily statistics, and the latest-version and per-city range queries.
 * The state-changing operations are methods on a `Session`; each is tied to a
 * function of the tables it starts from, and the properties the operations
 * promise are proved about those functions.
 */
module Operations {
  import opened Wrappers
  import opened Models
  import opened Queries

  /** The city fields of one processed weather reading. */
  datatype CityData = CityData(cityId: int, cityName: string, country: string, latitude: real, longitude: real)

  /** One element of the `weather_data` list handed to `store_weather_data`. */
  datatype WeatherInput = WeatherInput(city: CityData, timestamp: Timestamp, collectionTime: Timestamp, obs: Observation)

  /** One row of the statistics frame handed to `store_daily_stats`; absent optional columns are None. */
  datatype StatsInput = StatsInput(cityName: string, date: Timestamp, values: StatValues)

  function NewCity(id: int, data: CityData): City {
    City(id, data.cityId, data.cityName, data.country, data.latitude, data.longitude)
  }

  // ---------------------------------------------------------------- cities

  /** The cities table after `get_or_create_city`, and the city it returns. */
  datatype CityLookup = CityLookup(cities: seq<City>, nextCityId: int, city: City)

  /**
   * `get_or_create_city`: a city with the API id already present is returned and
   * the table is unchanged; otherwise exactly one city, keyed by the next id, is added.
   */
  function EnsureCity(cities: seq<City>, nextCityId: int, data: CityData): (r: CityLookup)
    ensures r.city.cityId == data.cityId && cities <= r.cities
    ensures CityByApiId(r.cities, data.cityId) == Some(r.city)
    ensures CityByApiId(cities, data.cityId).Some? ==>
      r.cities == cities && r.nextCityId == nextCityId && CityByApiId(cities, data.cityId) == Some(r.city)
    ensures CityByApiId(cities, data.cityId).None? ==>
      r.cities == cities + [r.city] && r.city == NewCity(nextCityId, data) && r.nextCityId == nextCityId + 1
  {
    match CityByApiId(cities, data.cityId)
    case Some(c) => CityLookup(cities, nextCityId, c)
    case None =>
      var c := NewCity(nextCityId, data);
      CityByApiIdAppend(cities, [c], data.cityId);
      CityLookup(cities + [c], nextCityId + 1, c)
  }

  /** Asking again for the same city changes nothing and returns the same row. */
  lemma EnsureCityIdempotent(cities: seq<City>, nextCityId: int, data: CityData)
    ensures var r := EnsureCity(cities, nextCityId, data);
      EnsureCity(r.cities, r.nextCityId, data) == r
  {
  }

  /** Adding a city keeps keys increasing and below the counter, and the API id unique. */
  lemma EnsureCityWellFormed(cities: seq<City>, nextCityId: int, data: CityData)
    requires CitiesWellFormed(cities, nextCityId)
    ensures CitiesWellFormed(EnsureCity(cities, nextCityId, data).cities, EnsureCity(cities, nextCityId, data).nextCityId)
  {
    if CityByApiId(cities, data.cityId).None? {
      var cs := cities + [NewCity(nextCityId, data)];
      forall i, j | 0 <= i < j < |cs|
        ensures cs[i].id < cs[j].id && cs[i].cityId != cs[j].cityId
      {
        assert cs[i] == cities[i];
        if j < |cities| {
          assert cs[j] == cities[j];
        } else {
          assert cities[i] in cities;
        }
      }
    }
  }

  /** `get_or_create_city` on the session's `cities` table. */
  method GetOrCreateCity(session: Session, data: CityData) returns (city: City)
    requires session.Valid()
    modifies session
    ensures session.Valid()
    ensures var e := EnsureCity(old(session.cities), old(session.nextCityId), data);
      city == e.city && session.cities == e.cities && session.nextCityId == e.nextCityId
    ensures session.weather == old(session.weather) && session.nextWeatherId == old(session.nextWeatherId)
    ensures session.versions == old(session.versions)
    ensures session.stats == old(session.stats) && session.nextStatId == old(session.nextStatId)
  {
    EnsureCityWellFormed(session.cities, session.nextCityId, data);
    var found := CityByApiId(session.cities, data.cityId);
    if found.Some? {
      return found.value;
    }
    city := NewCity(session.nextCityId, data);
    session.cities := session.cities + [city];
    session.nextCityId := session.nextCityId + 1;
  }

  // -------------------------------------------------------------- versions

  /**
   * `create_data_version`: an active version made by "system" at `now`, with the
   * given parent unvalidated.  `freshId` is the uuid the source draws.
   */
  method CreateDataVersion(session: Session, name: string, description: Option<string>,
                           parentVersionId: Option<string>, freshId: string, now: Timestamp)
    returns (version: DataVersionRow)
    requires session.Valid()
    requires forall v :: v in session.versions ==> v.id != freshId
    modifies session
    ensures session.Valid()
    ensures version == DataVersionRow(freshId, name, description, parentVersionId, now, Some("system"), 1, None)
    ensures session.versions == old(session.versions) + [version]
    ensures session.cities == old(session.cities) && session.nextCityId == old(session.nextCityId)
    ensures session.weather == old(session.weather) && session.nextWeatherId == old(session.nextWeatherId)
    ensures session.stats == old(session.stats) && session.nextStatId == old(session.nextStatId)
  {
    version := DataVersionRow(freshId, name, description, parentVersionId, now, Some("system"), 1, None);
    assert forall i :: 0 <= i < |session.versions| ==> session.versions[i] in session.versions;
    session.versions := session.versions + [version];
  }

  /**
   * `get_latest_version`: an active version with the greatest `created_at`, or
   * None when no version is active.  Among equal times the earliest row is taken.
   */
  function GetLatestVersion(versions: seq<DataVersionRow>): (r: Option<DataVersionRow>)
    ensures r.None? <==> forall v :: v in versions ==> v.isActive != 1
    ensures r.Some? ==> r.value in versions && r.value.isActive == 1
    ensures r.Some? ==> forall v :: v in versions && v.isActive == 1 ==> v.createdAt <= r.value.createdAt
  {
    if versions == [] then None
    else
      var rest := GetLatestVersion(versions[1..]);
      var v := versions[0];
      assert versions == [v] + versions[1..];
      if v.isActive != 1 then rest
      else if rest.Some? && v.createdAt < rest.value.createdAt then rest
      else Some(v)
  }

  /** A version created later than every active one becomes the latest active version. */
  lemma {:induction false} CreatedVersionIsLatest(versions: seq<DataVersionRow>, created: DataVersionRow)
    requires created.isActive == 1
    requires forall v :: v in versions && v.isActive == 1 ==> v.createdAt < created.createdAt
    ensures GetLatestVersion(versions + [created]) == Some(created)
  {
    if versions == [] {
      assert [created][1..] == [];
    } else {
      var tail := versions[1..];
      assert (versions + [created])[1..] == tail + [created];
      assert forall v :: v in tail ==> v in versions;
      CreatedVersionIsLatest(tail, created);
    }
  }

  // --------------------------------------------------------- weather data

  function ToRecord(id: int, cityRowId: int, input: WeatherInput, versionId: string): WeatherRecord {
    WeatherRecord(id, cityRowId, input.timestamp, input.collectionTime, input.obs, versionId)
  }

  /** Every input's city is in the table. */
  predicate AllCitiesKnown(cities: seq<City>, inputs: seq<WeatherInput>) {
    forall x :: x in inputs ==> CityByApiId(cities, x.city.cityId).Some?
  }

  /** The `cities.id` an input is stored under. */
  function RowIdOf(cities: seq<City>, data: CityData): int
    requires CityByApiId(cities, data.cityId).Some?
  {
    CityByApiId(cities, data.cityId).value.id
  }

  lemma AllCitiesKnownStable(a: seq<City>, b: seq<City>, inputs: seq<WeatherInput>)
    requires a <= b && AllCitiesKnown(a, inputs)
    ensures AllCitiesKnown(b, inputs)
    ensures forall x :: x in inputs ==> RowIdOf(b, x.city) == RowIdOf(a, x.city)
  {
    forall x | x in inputs
      ensures CityByApiId(b, x.city.cityId) == CityByApiId(a, x.city.cityId)
    {
      CityByApiIdStable(a, b, x.city.cityId);
    }
  }

  lemma KnownSnoc(cities: seq<City>, inputs: seq<WeatherInput>)
    requires inputs != [] && AllCitiesKnown(cities, inputs[..|inputs| - 1])
    requires CityByApiId(cities, inputs[|inputs| - 1].city.cityId).Some?
    ensures AllCitiesKnown(cities, inputs)
  {
    assert inputs == inputs[..|inputs| - 1] + [inputs[|inputs| - 1]];
  }

  /** Appending a reading keyed by the counter, and advancing the counter, keeps every key below it. */
  lemma AppendReadingKeysBelow(weather: seq<WeatherRecord>, nextWeatherId: int, r: WeatherRecord)
    requires WeatherKeysBelow(weather, nextWeatherId) && r.id == nextWeatherId
    ensures WeatherKeysBelow(weather + [r], nextWeatherId + 1)
  {
  }

  /** The tables `store_weather_data` leaves: the cities it created and the readings it added. */
  datatype WeatherBatch = WeatherBatch(cities: seq<City>, nextCityId: int, added: seq<WeatherRecord>, nextWeatherId: int)

  /**
   * The loop of `store_weather_data`: each input's city is looked up or created,
   * and a reading is added unless `snapshot`, the table as it was when the call
   * began, already holds one for that city and timestamp.
   */
  function StoreWeather(cities: seq<City>, nextCityId: int, snapshot: seq<WeatherRecord>, nextWeatherId: int,
                        inputs: seq<WeatherInput>, versionId: string): (b: WeatherBatch)
    ensures cities <= b.cities && AllCitiesKnown(b.cities, inputs)
    ensures b.nextWeatherId == nextWeatherId + |b.added| && |b.added| <= |inputs|
  {
    if inputs == [] then WeatherBatch(cities, nextCityId, [], nextWeatherId)
    else
      var n := |inputs| - 1;
      var b := StoreWeather(cities, nextCityId, snapshot, nextWeatherId, inputs[..n], versionId);
      var e := EnsureCity(b.cities, b.nextCityId, inputs[n].city);
      AllCitiesKnownStable(b.cities, e.cities, inputs[..n]);
      KnownSnoc(e.cities, inputs);
      WeatherStep(snapshot, b, inputs[n], versionId)
  }

  /**
   * One pass of the `store_weather_data` loop, on the batch so far: the input's
   * city is looked up or created, and its reading is added unless `snapshot`
   * holds one for that city and timestamp.
   */
  function WeatherStep(snapshot: seq<WeatherRecord>, b: WeatherBatch, input: WeatherInput, versionId: string): WeatherBatch {
    var e := EnsureCity(b.cities, b.nextCityId, input.city);
    if HasReading(snapshot, e.city.id, input.timestamp) then
      WeatherBatch(e.cities, e.nextCityId, b.added, b.nextWeatherId)
    else
      WeatherBatch(e.cities, e.nextCityId, b.added + [ToRecord(b.nextWeatherId, e.city.id, input, versionId)], b.nextWeatherId + 1)
  }

  /** One more input: the batch of the longer prefix in terms of the batch of the shorter one. */
  lemma StoreWeatherSnoc(cities: seq<City>, nextCityId: int, snapshot: seq<WeatherRecord>, nextWeatherId: int,
                         inputs: seq<WeatherInput>, i: nat, versionId: string)
    requires i < |inputs|
    ensures StoreWeather(cities, nextCityId, snapshot, nextWeatherId, inputs[..i + 1], versionId) ==
      WeatherStep(snapshot, StoreWeather(cities, nextCityId, snapshot, nextWeatherId, inputs[..i], versionId), inputs[i], versionId)
  {
    assert inputs[..i + 1][..i] == inputs[..i];
  }

  /** The inputs, in order, whose (city, timestamp) the pre-existing table does not hold. */
  function NovelInputs(cities: seq<City>, snapshot: seq<WeatherRecord>, inputs: seq<WeatherInput>): (r: seq<WeatherInput>)
    requires AllCitiesKnown(cities, inputs)
    ensures |r| <= |inputs|
    ensures forall x :: x in r ==> x in inputs && !HasReading(snapshot, RowIdOf(cities, x.city), x.timestamp)
    ensures AllCitiesKnown(cities, r)
  {
    if inputs == [] then []
    else
      var n := |inputs| - 1;
      assert inputs == inputs[..n] + [inputs[n]];
      var init := NovelInputs(cities, snapshot, inputs[..n]);
      if HasReading(snapshot, RowIdOf(cities, inputs[n].city), inputs[n].timestamp) then init
      else init + [inputs[n]]
  }

  /** An input is novel exactly when the pre-existing table has no reading for its city and timestamp. */
  lemma {:induction false} NovelInputsIff(cities: seq<City>, snapshot: seq<WeatherRecord>, inputs: seq<WeatherInput>)
    requires AllCitiesKnown(cities, inputs)
    ensures forall x :: x in inputs ==>
      (x in NovelInputs(cities, snapshot, inputs) <==> !HasReading(snapshot, RowIdOf(cities, x.city), x.timestamp))
  {
    if inputs != [] {
      var n := |inputs| - 1;
      var init := inputs[..n];
      assert inputs == init + [inputs[n]];
      NovelInputsIff(cities, snapshot, init);
    }
  }

  lemma {:induction false} NovelInputsStable(a: seq<City>, b: seq<City>, snapshot: seq<WeatherRecord>, inputs: seq<WeatherInput>)
    requires a <= b && AllCitiesKnown(a, inputs)
    ensures AllCitiesKnown(b, inputs)
    ensures NovelInputs(b, snapshot, inputs) == NovelInputs(a, snapshot, inputs)
  {
    AllCitiesKnownStable(a, b, inputs);
    if inputs != [] {
      var n := |inputs| - 1;
      assert inputs == inputs[..n] + [inputs[n]];
      NovelInputsStable(a, b, snapshot, inputs[..n]);
    }
  }

  /** `added` holds, in order, one reading per input of `novel`, with consecutive keys from `firstId`. */
  predicate AddedMatch(added: seq<WeatherRecord>, novel: seq<WeatherInput>, cities: seq<City>, firstId: int, versionId: string)
    requires AllCitiesKnown(cities, novel)
  {
    && |added| == |novel|
    && forall k :: 0 <= k < |novel| ==>
         added[k] == ToRecord(firstId + k, RowIdOf(cities, novel[k].city), novel[k], versionId)
  }

  lemma AddedMatchStable(added: seq<WeatherRecord>, novel: seq<WeatherInput>, a: seq<City>, b: seq<City>,
                         firstId: int, versionId: string)
    requires a <= b && AllCitiesKnown(a, novel) && AddedMatch(added, novel, a, firstId, versionId)
    ensures AllCitiesKnown(b, novel) && AddedMatch(added, novel, b, firstId, versionId)
  {
    AllCitiesKnownStable(a, b, novel);
    assert forall k :: 0 <= k < |novel| ==> novel[k] in novel;
  }

  lemma AddedMatchSnoc(added: seq<WeatherRecord>, novel: seq<WeatherInput>, cities: seq<City>,
                       firstId: int, versionId: string, x: WeatherInput)
    requires AllCitiesKnown(cities, novel + [x]) && AddedMatch(added, novel, cities, firstId, versionId)
    ensures AllCitiesKnown(cities, novel)
    ensures AddedMatch(added + [ToRecord(firstId + |novel|, RowIdOf(cities, x.city), x, versionId)], novel + [x], cities, firstId, versionId)
  {
    assert forall y :: y in novel ==> y in novel + [x];
    var added' := added + [ToRecord(firstId + |novel|, RowIdOf(cities, x.city), x, versionId)];
    var novel' := novel + [x];
    forall k | 0 <= k < |novel'|
      ensures added'[k] == ToRecord(firstId + k, RowIdOf(cities, novel'[k].city), novel'[k], versionId)
    {
      if k < |novel| {
        assert novel'[k] == novel[k] && added'[k] == added[k];
      }
    }
  }

  /** One more input: the novel inputs of the longer prefix in terms of those of the shorter one. */
  lemma NovelInputsSnoc(cities: seq<City>, snapshot: seq<WeatherRecord>, inputs: seq<WeatherInput>, i: nat)
    requires i < |inputs| && AllCitiesKnown(cities, inputs)
    ensures AllCitiesKnown(cities, inputs[..i]) && AllCitiesKnown(cities, inputs[..i + 1])
    ensures NovelInputs(cities, snapshot, inputs[..i + 1]) ==
      NovelInputs(cities, snapshot, inputs[..i]) +
        if HasReading(snapshot, RowIdOf(cities, inputs[i].city), inputs[i].timestamp) then [] else [inputs[i]]
  {
    assert forall x :: x in inputs[..i + 1] ==> x in inputs;
    assert inputs[..i + 1][..i] == inputs[..i];
  }

  /** One step of the batch keeps `added` matched with the novel inputs, extended by the new input when it is novel. */
  lemma WeatherStepKeepsMatch(snapshot: seq<WeatherRecord>, b0: WeatherBatch, x: WeatherInput, versionId: string,
                              novel0: seq<WeatherInput>, firstId: int)
    requires AllCitiesKnown(b0.cities, novel0) && AddedMatch(b0.added, novel0, b0.cities, firstId, versionId)
    requires b0.nextWeatherId == firstId + |b0.added|
    ensures var b := WeatherStep(snapshot, b0, x, versionId);
      && b0.cities <= b.cities
      && CityByApiId(b.cities, x.city.cityId).Some?
      && AllCitiesKnown(b.cities, novel0 + [x])
      && var novel := novel0 + if HasReading(snapshot, RowIdOf(b.cities, x.city), x.timestamp) then [] else [x];
         AddedMatch(b.added, novel, b.cities, firstId, versionId)
  {
    var e := EnsureCity(b0.cities, b0.nextCityId, x.city);
    var b := WeatherStep(snapshot, b0, x, versionId);
    assert b.cities == e.cities;
    AddedMatchStable(b0.added, novel0, b0.cities, b.cities, firstId, versionId);
    assert RowIdOf(b.cities, x.city) == e.city.id;
    assert AllCitiesKnown(b.cities, novel0 + [x]);
    if !HasReading(snapshot, e.city.id, x.timestamp) {
      AddedMatchSnoc(b0.added, novel0, b.cities, firstId, versionId, x);
    } else {
      assert novel0 + [] == novel0;
    }
  }

  /** The inductive step of `StoreWeatherAddsNovel`. */
  lemma StoreWeatherAddsNovelStep(cities: seq<City>, nextCityId: int, snapshot: seq<WeatherRecord>,
                                  nextWeatherId: int, inputs: seq<WeatherInput>, i: nat, versionId: string)
    requires i < |inputs|
    requires var b := StoreWeather(cities, nextCityId, snapshot, nextWeatherId, inputs[..i], versionId);
      && AllCitiesKnown(b.cities, NovelInputs(b.cities, snapshot, inputs[..i]))
      && AddedMatch(b.added, NovelInputs(b.cities, snapshot, inputs[..i]), b.cities, nextWeatherId, versionId)
    ensures var b := StoreWeather(cities, nextCityId, snapshot, nextWeatherId, inputs[..i + 1], versionId);
      && AllCitiesKnown(b.cities, NovelInputs(b.cities, snapshot, inputs[..i + 1]))
      && AddedMatch(b.added, NovelInputs(b.cities, snapshot, inputs[..i + 1]), b.cities, nextWeatherId, versionId)
  {
    var b0 := StoreWeather(cities, nextCityId, snapshot, nextWeatherId, inputs[..i], versionId);
    StoreWeatherSnoc(cities, nextCityId, snapshot, nextWeatherId, inputs, i, versionId);
    var b := StoreWeather(cities, nextCityId, snapshot, nextWeatherId, inputs[..i + 1], versionId);
    WeatherStepKeepsMatch(snapshot, b0, inputs[i], versionId, NovelInputs(b0.cities, snapshot, inputs[..i]), nextWeatherId);
    NovelInputsStep(b0.cities, b.cities, snapshot, inputs, i);
  }

  /** The novel inputs of one more input, against a city table that may have grown meanwhile. */
  lemma NovelInputsStep(a: seq<City>, b: seq<City>, snapshot: seq<WeatherRecord>, inputs: seq<WeatherInput>, i: nat)
    requires i < |inputs| && a <= b
    requires AllCitiesKnown(a, inputs[..i]) && AllCitiesKnown(b, inputs[..i + 1])
    ensures AllCitiesKnown(b, inputs[..i])
    ensures NovelInputs(b, snapshot, inputs[..i + 1]) ==
      NovelInputs(a, snapshot, inputs[..i]) +
        if HasReading(snapshot, RowIdOf(b, inputs[i].city), inputs[i].timestamp) then [] else [inputs[i]]
  {
    NovelInputsStable(a, b, snapshot, inputs[..i]);
    var pre := inputs[..i + 1];
    assert pre[..i] == inputs[..i] && pre[i] == inputs[i];
    NovelInputsSnoc(b, snapshot, pre, i);
  }

  /**
   * `store_weather_data` adds exactly one reading per novel input, in input
   * order, with consecutive keys, the input's city and measurements, and the
   * given version id.
   */
  lemma {:induction false} StoreWeatherAddsNovel(cities: seq<City>, nextCityId: int, snapshot: seq<WeatherRecord>,
                                                 nextWeatherId: int, inputs: seq<WeatherInput>, versionId: string)
    ensures var b := StoreWeather(cities, nextCityId, snapshot, nextWeatherId, inputs, versionId);
      && AllCitiesKnown(b.cities, NovelInputs(b.cities, snapshot, inputs))
      && AddedMatch(b.added, NovelInputs(b.cities, snapshot, inputs), b.cities, nextWeatherId, versionId)
  {
    var i := 0;
    assert inputs[..0] == [];
    while i < |inputs|
      invariant 0 <= i <= |inputs|
      invariant var b := StoreWeather(cities, nextCityId, snapshot, nextWeatherId, inputs[..i], versionId);
        && AllCitiesKnown(b.cities, NovelInputs(b.cities, snapshot, inputs[..i]))
        && AddedMatch(b.added, NovelInputs(b.cities, snapshot, inputs[..i]), b.cities, nextWeatherId, versionId)
    {
      StoreWeatherAddsNovelStep(cities, nextCityId, snapshot, nextWeatherId, inputs, i, versionId);
      i := i + 1;
    }
    assert inputs[..i] == inputs;
  }

  /** No reading `store_weather_data` adds repeats a (city, timestamp) of the table it started from. */
  lemma StoreWeatherAddsNoExistingKey(cities: seq<City>, nextCityId: int, snapshot: seq<WeatherRecord>,
                                      nextWeatherId: int, inputs: seq<WeatherInput>, versionId: string)
    ensures var b := StoreWeather(cities, nextCityId, snapshot, nextWeatherId, inputs, versionId);
      forall k :: 0 <= k < |b.added| ==>
        !HasReading(snapshot, b.added[k].cityId, b.added[k].timestamp) && b.added[k].versionId == versionId
  {
    var b := StoreWeather(cities, nextCityId, snapshot, nextWeatherId, inputs, versionId);
    StoreWeatherAddsNovel(cities, nextCityId, snapshot, nextWeatherId, inputs, versionId);
    var novel := NovelInputs(b.cities, snapshot, inputs);
    assert forall k :: 0 <= k < |novel| ==> novel[k] in novel;
  }

  /** `c` is `NewCity` of one of the first `i` inputs, whose API id `cities` lacks, keyed `offset` past the counter. */
  predicate CityCreated(cities: seq<City>, nextCityId: int, c: City, offset: int, inputs: seq<WeatherInput>, i: nat) {
    exists j :: 0 <= j < i && j < |inputs| && CityByApiId(cities, inputs[j].city.cityId).None? &&
      c == NewCity(nextCityId + offset, inputs[j].city)
  }

  /**
   * Every row of the batch past `cities` was created from one of the first `i`
   * inputs, and the rows are keyed consecutively from `nextCityId`.
   */
  predicate CitiesCreatedBy(cities: seq<City>, nextCityId: int, b: WeatherBatch, inputs: seq<WeatherInput>, i: nat) {
    && b.nextCityId == nextCityId + (|b.cities| - |cities|)
    && forall k :: |cities| <= k < |b.cities| ==> CityCreated(cities, nextCityId, b.cities[k], k - |cities|, inputs, i)
  }

  /** One pass of the loop keeps the batch's cities created from the inputs seen so far. */
  lemma WeatherStepCreates(cities: seq<City>, nextCityId: int, snapshot: seq<WeatherRecord>, b0: WeatherBatch,
                           inputs: seq<WeatherInput>, i: nat, versionId: string)
    requires i < |inputs| && cities <= b0.cities && CitiesCreatedBy(cities, nextCityId, b0, inputs, i)
    ensures CitiesCreatedBy(cities, nextCityId, WeatherStep(snapshot, b0, inputs[i], versionId), inputs, i + 1)
  {
    var b := WeatherStep(snapshot, b0, inputs[i], versionId);
    var e := EnsureCity(b0.cities, b0.nextCityId, inputs[i].city);
    assert b.cities == e.cities && b.nextCityId == e.nextCityId;
    if CityByApiId(cities, inputs[i].city.cityId).Some? {
      // A city the table already had is found again, so no row is added.
      CityByApiIdStable(cities, b0.cities, inputs[i].city.cityId);
    }
    forall k | |cities| <= k < |b.cities|
      ensures CityCreated(cities, nextCityId, b.cities[k], k - |cities|, inputs, i + 1)
    {
      if k < |b0.cities| {
        assert CityCreated(cities, nextCityId, b0.cities[k], k - |cities|, inputs, i);
        assert b.cities[k] == b0.cities[k];
      }
    }
  }

  /** The inductive step of `StoreWeatherNewCities`. */
  lemma StoreWeatherNewCitiesStep(cities: seq<City>, nextCityId: int, snapshot: seq<WeatherRecord>,
                                  nextWeatherId: int, inputs: seq<WeatherInput>, i: nat, versionId: string)
    requires i < |inputs|
    requires CitiesCreatedBy(cities, nextCityId,
      StoreWeather(cities, nextCityId, snapshot, nextWeatherId, inputs[..i], versionId), inputs, i)
    ensures CitiesCreatedBy(cities, nextCityId,
      StoreWeather(cities, nextCityId, snapshot, nextWeatherId, inputs[..i + 1], versionId), inputs, i + 1)
  {
    var b0 := StoreWeather(cities, nextCityId, snapshot, nextWeatherId, inputs[..i], versionId);
    StoreWeatherSnoc(cities, nextCityId, snapshot, nextWeatherId, inputs, i, versionId);
    WeatherStepCreates(cities, nextCityId, snapshot, b0, inputs, i, versionId);
  }

  /**
   * The only cities `store_weather_data` creates are those `get_or_create_city`
   * creates: each new row is `NewCity` of some input whose API id the table
   * lacked, keyed consecutively from the counter.
   */
  lemma StoreWeatherNewCities(cities: seq<City>, nextCityId: int, snapshot: seq<WeatherRecord>,
                              nextWeatherId: int, inputs: seq<WeatherInput>, versionId: string)
    ensures CitiesCreatedBy(cities, nextCityId,
      StoreWeather(cities, nextCityId, snapshot, nextWeatherId, inputs, versionId), inputs, |inputs|)
  {
    var i := 0;
    assert inputs[..0] == [];
    while i < |inputs|
      invariant 0 <= i <= |inputs|
      invariant CitiesCreatedBy(cities, nextCityId,
        StoreWeather(cities, nextCityId, snapshot, nextWeatherId, inputs[..i], versionId), inputs, i)
    {
      StoreWeatherNewCitiesStep(cities, nextCityId, snapshot, nextWeatherId, inputs, i, versionId);
      i := i + 1;
    }
    assert inputs[..i] == inputs;
  }

  /**
   * The body of the `store_weather_data` loop on the session, given the batch
   * `b` the session holds so far: the session then holds the batch one step on.
   */
  method StoreReading(session: Session, snapshot: seq<WeatherRecord>, data: WeatherInput, versionId: string,
                      ghost b: WeatherBatch)
    returns (added: bool)
    requires session.Valid()
    requires session.cities == b.cities && session.nextCityId == b.nextCityId
    requires session.weather == snapshot + b.added && session.nextWeatherId == b.nextWeatherId
    modifies session
    ensures session.Valid()
    ensures var b' := WeatherStep(snapshot, b, data, versionId);
      && session.cities == b'.cities && session.nextCityId == b'.nextCityId
      && session.weather == snapshot + b'.added && session.nextWeatherId == b'.nextWeatherId
      && |b'.added| == |b.added| + if added then 1 else 0
    ensures session.versions == old(session.versions)
    ensures session.stats == old(session.stats) && session.nextStatId == old(session.nextStatId)
  {
    var city := GetOrCreateCity(session, data.city);
    var existing := HasReading(snapshot, city.id, data.timestamp);
    added := !existing;
    if added {
      AppendReading(session, ToRecord(session.nextWeatherId, city.id, data, versionId));
    }
  }

  /** `session.add(weather_data)` for a reading keyed by the next weather id. */
  method AppendReading(session: Session, record: WeatherRecord)
    requires session.Valid() && record.id == session.nextWeatherId
    modifies session
    ensures session.Valid()
    ensures session.weather == old(session.weather) + [record] && session.nextWeatherId == old(session.nextWeatherId) + 1
    ensures session.cities == old(session.cities) && session.nextCityId == old(session.nextCityId)
    ensures session.versions == old(session.versions)
    ensures session.stats == old(session.stats) && session.nextStatId == old(session.nextStatId)
  {
    AppendReadingKeysBelow(session.weather, session.nextWeatherId, record);
    session.weather := session.weather + [record];
    session.nextWeatherId := session.nextWeatherId + 1;
  }

  /** The facts the end of `store_weather_data` needs about the whole batch. */
  lemma StoreWeatherCountsNovel(cities: seq<City>, nextCityId: int, snapshot: seq<WeatherRecord>,
                                nextWeatherId: int, inputs: seq<WeatherInput>, versionId: string)
    ensures var b := StoreWeather(cities, nextCityId, snapshot, nextWeatherId, inputs, versionId);
      && AllCitiesKnown(b.cities, inputs)
      && |b.added| == |NovelInputs(b.cities, snapshot, inputs)|
  {
    StoreWeatherAddsNovel(cities, nextCityId, snapshot, nextWeatherId, inputs, versionId);
  }

  /**
   * `store_weather_data`: the readings of the novel inputs are appended to the
   * table and their number is returned.  Existence is checked against the table
   * as it was when the call began.
   */
  method StoreWeatherData(session: Session, inputs: seq<WeatherInput>, versionId: string) returns (insertedCount: nat)
    requires session.Valid()
    modifies session
    ensures session.Valid()
    ensures var b := StoreWeather(old(session.cities), old(session.nextCityId), old(session.weather),
                                  old(session.nextWeatherId), inputs, versionId);
      && session.cities == b.cities && session.nextCityId == b.nextCityId
      && session.weather == old(session.weather) + b.added && session.nextWeatherId == b.nextWeatherId
      && insertedCount == |b.added|
    ensures AllCitiesKnown(session.cities, inputs)
    ensures insertedCount == |NovelInputs(session.cities, old(session.weather), inputs)|
    ensures session.versions == old(session.versions)
    ensures session.stats == old(session.stats) && session.nextStatId == old(session.nextStatId)
  {
    var snapshot := session.weather;
    ghost var cities0, nextCity0, nextWeather0 := session.cities, session.nextCityId, session.nextWeatherId;
    ghost var b := StoreWeather(cities0, nextCity0, snapshot, nextWeather0, [], versionId);
    assert snapshot + b.added == snapshot;
    insertedCount := 0;
    var i := 0;
    while i < |inputs|
      invariant 0 <= i <= |inputs|
      invariant session.Valid()
      invariant b == StoreWeather(cities0, nextCity0, snapshot, nextWeather0, inputs[..i], versionId)
      invariant session.cities == b.cities && session.nextCityId == b.nextCityId
      invariant session.weather == snapshot + b.added && session.nextWeatherId == b.nextWeatherId
      invariant insertedCount == |b.added|
      invariant session.versions == old(session.versions)
      invariant session.stats == old(session.stats) && session.nextStatId == old(session.nextStatId)
    {
      StoreWeatherSnoc(cities0, nextCity0, snapshot, nextWeather0, inputs, i, versionId);
      var added := StoreReading(session, snapshot, inputs[i], versionId, b);
      if added {
        insertedCount := insertedCount + 1;
      }
      b := StoreWeather(cities0, nextCity0, snapshot, nextWeather0, inputs[..i + 1], versionId);
      i := i + 1;
    }
    assert inputs[..i] == inputs;
    StoreWeatherCountsNovel(cities0, nextCity0, snapshot, nextWeather0, inputs, versionId);
  }

  // ------------------------------------------------------ daily statistics

  /** The stats table after a batch, the next key, and how many rows were inserted. */
  datatype StatsBatch = StatsBatch(stats: seq<DailyStat>, nextStatId: int, count: nat)

  /**
   * The loop of `store_daily_stats`.  A row whose city name is unknown is
   * skipped.  When `snapshot`, the table the call began with, holds a row for
   * the city and date, that row's values and version are overwritten in place
   * and not counted; otherwise a new row is appended and counted.
   */
  function StoreStats(cities: seq<City>, snapshot: seq<DailyStat>, nextStatId: int,
                      rows: seq<StatsInput>, versionId: string): (b: StatsBatch)
    ensures |b.stats| == |snapshot| + b.count && b.nextStatId == nextStatId + b.count && b.count <= |rows|
    ensures forall k :: 0 <= k < |snapshot| ==>
      b.stats[k].id == snapshot[k].id && b.stats[k].cityId == snapshot[k].cityId && b.stats[k].date == snapshot[k].date
    ensures forall k :: 0 <= k < |snapshot| ==> b.stats[k] == snapshot[k] || b.stats[k].versionId == versionId
    ensures forall k :: |snapshot| <= k < |b.stats| ==>
      && b.stats[k].id == nextStatId + (k - |snapshot|) && b.stats[k].versionId == versionId
      && StatIndex(snapshot, b.stats[k].cityId, b.stats[k].date).None?
  {
    if rows == [] then StatsBatch(snapshot, nextStatId, 0)
    else
      var n := |rows| - 1;
      StatStep(cities, snapshot, StoreStats(cities, snapshot, nextStatId, rows[..n], versionId), rows[n], versionId)
  }

  /** One pass of the `store_daily_stats` loop, on the batch so far. */
  function StatStep(cities: seq<City>, snapshot: seq<DailyStat>, b: StatsBatch, row: StatsInput, versionId: string): StatsBatch
    requires |snapshot| <= |b.stats|
  {
    match CityByName(cities, row.cityName)
    case None => b
    case Some(city) =>
      match StatIndex(snapshot, city.id, row.date)
      case Some(k) =>
        StatsBatch(b.stats[k := b.stats[k].(values := row.values, versionId := versionId)], b.nextStatId, b.count)
      case None =>
        StatsBatch(b.stats + [DailyStat(b.nextStatId, city.id, row.date, row.values, versionId)], b.nextStatId + 1, b.count + 1)
  }

  lemma StoreStatsSnoc(cities: seq<City>, snapshot: seq<DailyStat>, nextStatId: int,
                       rows: seq<StatsInput>, i: nat, versionId: string)
    requires i < |rows|
    ensures StoreStats(cities, snapshot, nextStatId, rows[..i + 1], versionId) ==
      StatStep(cities, snapshot, StoreStats(cities, snapshot, nextStatId, rows[..i], versionId), rows[i], versionId)
  {
    assert rows[..i + 1][..i] == rows[..i];
  }

  /** A row whose city name is not in the table leaves the batch as it was. */
  lemma StoreStatsSkipsUnknownCity(cities: seq<City>, snapshot: seq<DailyStat>, nextStatId: int,
                                   rows: seq<StatsInput>, row: StatsInput, versionId: string)
    requires forall c :: c in cities ==> c.name != row.cityName
    ensures StoreStats(cities, snapshot, nextStatId, rows + [row], versionId) == StoreStats(cities, snapshot, nextStatId, rows, versionId)
  {
    assert (rows + [row])[..|rows|] == rows;
  }

  /**
   * One more row of a known city: an existing (city, date) row gets the new
   * values and version in place and the count stays; otherwise one row is appended
   * and counted.  Every other row is unchanged either way.
   */
  lemma StoreStatsUpserts(cities: seq<City>, snapshot: seq<DailyStat>, nextStatId: int,
                          rows: seq<StatsInput>, row: StatsInput, versionId: string)
    requires CityByName(cities, row.cityName).Some?
    ensures var city := CityByName(cities, row.cityName).value;
      var b := StoreStats(cities, snapshot, nextStatId, rows, versionId);
      var b' := StoreStats(cities, snapshot, nextStatId, rows + [row], versionId);
      match StatIndex(snapshot, city.id, row.date)
      case Some(k) =>
        && b'.count == b.count && |b'.stats| == |b.stats|
        && b'.stats[k].values == row.values && b'.stats[k].versionId == versionId
        && (forall j :: 0 <= j < |b.stats| && j != k ==> b'.stats[j] == b.stats[j])
      case None =>
        && b'.count == b.count + 1 && b'.stats[..|b.stats|] == b.stats
        && b'.stats[|b.stats|] == DailyStat(b.nextStatId, city.id, row.date, row.values, versionId)
  {
    assert (rows + [row])[..|rows|] == rows;
  }

  /** A row of an unchanged table key that no row of the batch addresses is left as it was. */
  lemma {:induction false} StoreStatsKeepsUntouched(cities: seq<City>, snapshot: seq<DailyStat>, nextStatId: int,
                                                    rows: seq<StatsInput>, versionId: string, k: nat)
    requires k < |snapshot| && StatKeysUnique(snapshot)
    requires forall i :: 0 <= i < |rows| ==>
      CityByName(cities, rows[i].cityName).None? ||
      CityByName(cities, rows[i].cityName).value.id != snapshot[k].cityId || rows[i].date != snapshot[k].date
    ensures StoreStats(cities, snapshot, nextStatId, rows, versionId).stats[k] == snapshot[k]
  {
    if rows != [] {
      var n := |rows| - 1;
      assert forall i :: 0 <= i < n ==> rows[..n][i] == rows[i];
      StoreStatsKeepsUntouched(cities, snapshot, nextStatId, rows[..n], versionId, k);
      var city := CityByName(cities, rows[n].cityName);
      if city.Some? {
        var idx := StatIndex(snapshot, city.value.id, rows[n].date);
        if idx.Some? && idx.value == k {
          assert false;
        }
      }
    }
  }

  /** Every row of a known city has a (city, date) row in the table afterwards. */
  lemma {:induction false} StoreStatsCoversRows(cities: seq<City>, snapshot: seq<DailyStat>, nextStatId: int,
                                                rows: seq<StatsInput>, versionId: string)
    ensures var b := StoreStats(cities, snapshot, nextStatId, rows, versionId);
      forall i :: 0 <= i < |rows| && CityByName(cities, rows[i].cityName).Some? ==>
        StatIndex(b.stats, CityByName(cities, rows[i].cityName).value.id, rows[i].date).Some?
  {
    if rows != [] {
      var n := |rows| - 1;
      var init := rows[..n];
      assert forall i :: 0 <= i < n ==> init[i] == rows[i];
      StoreStatsCoversRows(cities, snapshot, nextStatId, init, versionId);
      var b0 := StoreStats(cities, snapshot, nextStatId, init, versionId);
      var b := StoreStats(cities, snapshot, nextStatId, rows, versionId);
      forall i | 0 <= i < |rows| && CityByName(cities, rows[i].cityName).Some?
        ensures StatIndex(b.stats, CityByName(cities, rows[i].cityName).value.id, rows[i].date).Some?
      {
        var cid := CityByName(cities, rows[i].cityName).value.id;
        if i < n {
          var j := StatIndex(b0.stats, cid, rows[i].date).value;
          assert b.stats[j].cityId == b0.stats[j].cityId && b.stats[j].date == b0.stats[j].date;
        } else if StatIndex(snapshot, cid, rows[i].date).None? {
          assert b.stats[|b.stats| - 1].cityId == cid && b.stats[|b.stats| - 1].date == rows[i].date;
        } else {
          var j := StatIndex(snapshot, cid, rows[i].date).value;
          assert b.stats[j].cityId == cid && b.stats[j].date == rows[i].date;
        }
      }
    }
  }

  /**
   * On a table with unique (city, date), the batch keeps that index unique
   * exactly when it does not insert one new (city, date) twice.
   */
  lemma StoreStatsUniqueIff(cities: seq<City>, snapshot: seq<DailyStat>, nextStatId: int,
                            rows: seq<StatsInput>, versionId: string)
    requires StatKeysUnique(snapshot)
    ensures var b := StoreStats(cities, snapshot, nextStatId, rows, versionId);
      StatKeysUnique(b.stats) <==> StatKeysUnique(b.stats[|snapshot|..])
  {
    var b := StoreStats(cities, snapshot, nextStatId, rows, versionId);
    var added := b.stats[|snapshot|..];
    if StatKeysUnique(added) {
      forall i, j | 0 <= i < j < |b.stats|
        ensures b.stats[i].cityId != b.stats[j].cityId || b.stats[i].date != b.stats[j].date
      {
        if j < |snapshot| {
          assert snapshot[i].cityId != snapshot[j].cityId || snapshot[i].date != snapshot[j].date;
        } else if i < |snapshot| {
          assert StatIndex(snapshot, b.stats[j].cityId, b.stats[j].date).None?;
          assert !(snapshot[i].cityId == b.stats[j].cityId && snapshot[i].date == b.stats[j].date);
        } else {
          assert added[i - |snapshot|] == b.stats[i] && added[j - |snapshot|] == b.stats[j];
        }
      }
    }
    if StatKeysUnique(b.stats) {
      forall i, j | 0 <= i < j < |added|
        ensures added[i].cityId != added[j].cityId || added[i].date != added[j].date
      {
        assert added[i] == b.stats[i + |snapshot|] && added[j] == b.stats[j + |snapshot|];
      }
    }
  }

  /** Every key of the batch's table is below its next key. */
  lemma StoreStatsKeysBelow(cities: seq<City>, snapshot: seq<DailyStat>, nextStatId: int,
                            rows: seq<StatsInput>, versionId: string)
    requires forall s :: s in snapshot ==> s.id < nextStatId
    ensures var b := StoreStats(cities, snapshot, nextStatId, rows, versionId);
      forall s :: s in b.stats ==> s.id < b.nextStatId
  {
    var b := StoreStats(cities, snapshot, nextStatId, rows, versionId);
    forall s | s in b.stats
      ensures s.id < b.nextStatId
    {
      var k :| 0 <= k < |b.stats| && b.stats[k] == s;
      if k < |snapshot| {
        assert snapshot[k] in snapshot;
      }
    }
  }

  /** The body of the `store_daily_stats` loop for one input row. */
  method StoreStatRow(cities: seq<City>, snapshot: seq<DailyStat>, stats: seq<DailyStat>, nextId: int,
                      insertedCount: nat, row: StatsInput, versionId: string)
    returns (stats': seq<DailyStat>, nextId': int, insertedCount': nat)
    requires |snapshot| <= |stats|
    ensures StatsBatch(stats', nextId', insertedCount') ==
      StatStep(cities, snapshot, StatsBatch(stats, nextId, insertedCount), row, versionId)
  {
    stats', nextId', insertedCount' := stats, nextId, insertedCount;
    var city := CityByName(cities, row.cityName);
    if city.Some? {
      var existing := StatIndex(snapshot, city.value.id, row.date);
      if existing.Some? {
        var k := existing.value;
        stats' := stats[k := stats[k].(values := row.values, versionId := versionId)];
      } else {
        stats' := stats + [DailyStat(nextId, city.value.id, row.date, row.values, versionId)];
        nextId' := nextId + 1;
        insertedCount' := insertedCount + 1;
      }
    }
  }

  /** A batch that passes the unique index leaves the stats table well formed. */
  lemma StoreStatsCommitWellFormed(cities: seq<City>, snapshot: seq<DailyStat>, nextStatId: int,
                                   rows: seq<StatsInput>, versionId: string)
    requires StatsWellFormed(snapshot, nextStatId)
    requires StatKeysUnique(StoreStats(cities, snapshot, nextStatId, rows, versionId).stats)
    ensures var b := StoreStats(cities, snapshot, nextStatId, rows, versionId);
      StatsWellFormed(b.stats, b.nextStatId)
  {
    StoreStatsKeysBelow(cities, snapshot, nextStatId, rows, versionId);
  }

  /**
   * `store_daily_stats`.  The existence query does not see rows added earlier
   * in the same call, so a batch that inserts one (city, date) twice violates
   * the unique index at the final commit: that commit fails and the table keeps
   * its earlier contents.  Otherwise the batch is committed and the number of
   * inserted rows returned.
   */
  method StoreDailyStats(session: Session, rows: seq<StatsInput>, versionId: string) returns (r: Result<nat>)
    requires session.Valid()
    modifies session
    ensures session.Valid()
    ensures var b := StoreStats(old(session.cities), old(session.stats), old(session.nextStatId), rows, versionId);
      if StatKeysUnique(b.stats) then
        r == Success(b.count) && session.stats == b.stats && session.nextStatId == b.nextStatId
      else
        r.Failure? && session.stats == old(session.stats) && session.nextStatId == old(session.nextStatId)
    ensures session.cities == old(session.cities) && session.nextCityId == old(session.nextCityId)
    ensures session.weather == old(session.weather) && session.nextWeatherId == old(session.nextWeatherId)
    ensures session.versions == old(session.versions)
  {
    var cities, snapshot, nextId0 := session.cities, session.stats, session.nextStatId;
    var stats, nextId := snapshot, nextId0;
    var insertedCount := 0;
    var i := 0;
    while i < |rows|
      invariant 0 <= i <= |rows|
      invariant StoreStats(cities, snapshot, nextId0, rows[..i], versionId) == StatsBatch(stats, nextId, insertedCount)
      invariant unchanged(session)
    {
      StoreStatsSnoc(cities, snapshot, nextId0, rows, i, versionId);
      stats, nextId, insertedCount := StoreStatRow(cities, snapshot, stats, nextId, insertedCount, rows[i], versionId);
      i := i + 1;
    }
    assert rows[..i] == rows;
    ghost var b := StoreStats(cities, snapshot, nextId0, rows, versionId);
    assert b == StatsBatch(stats, nextId, insertedCount);
    if !StatKeysUnique(stats) {
      return Failure("UNIQUE constraint failed: daily_weather_stats.city_id, daily_weather_stats.date");
    }
    StoreStatsCommitWellFormed(cities, snapshot, nextId0, rows, versionId);
    session.stats, session.nextStatId := stats, nextId;
    r := Success(insertedCount);
  }

  // ------------------------------------------------------------- queries

  /** One element of the list `get_weather_by_city` returns. */
  datatype WeatherView = WeatherView(
    id: int, cityName: string, timestamp: Timestamp, temperature: real, weatherMain: Option<string>,
    humidity: Option<int>, windSpeed: Option<real>, pressure: Option<int>, versionId: string)

  function ToWeatherView(cityName: string, w: WeatherRecord): WeatherView {
    WeatherView(w.id, cityName, w.timestamp, w.obs.temperature, w.obs.weatherMain,
                w.obs.humidity, w.obs.windSpeed, w.obs.pressure, w.versionId)
  }

  function RecordTime(w: WeatherRecord): int {
    w.timestamp
  }

  /** The city's readings with `start <= timestamp <= end`, in table order. */
  function ReadingsInRange(weather: seq<WeatherRecord>, cityRowId: int, start: Timestamp, end: Timestamp): (r: seq<WeatherRecord>)
    ensures forall w :: w in r <==> w in weather && w.cityId == cityRowId && start <= w.timestamp <= end
  {
    if weather == [] then []
    else
      var n := |weather| - 1;
      var w := weather[n];
      assert weather == weather[..n] + [w];
      var init := ReadingsInRange(weather[..n], cityRowId, start, end);
      if w.cityId == cityRowId && start <= w.timestamp <= end then init + [w] else init
  }

  /** The range filter keeps table order and multiplicity: it distributes over concatenation. */
  lemma {:induction false} ReadingsInRangeIsFilter(a: seq<WeatherRecord>, b: seq<WeatherRecord>, cityRowId: int, start: Timestamp, end: Timestamp)
    ensures ReadingsInRange(a + b, cityRowId, start, end) == ReadingsInRange(a, cityRowId, start, end) + ReadingsInRange(b, cityRowId, start, end)
  {
    if b == [] {
      assert a + b == a;
    } else {
      var binit := b[..|b| - 1];
      assert (a + b)[..|a + b| - 1] == a + binit;
      assert (a + b)[|a + b| - 1] == b[|b| - 1];
      ReadingsInRangeIsFilter(a, binit, cityRowId, start, end);
    }
  }

  /** A single reading is kept exactly when it belongs to the city and lies in range. */
  lemma ReadingsInRangeSingle(w: WeatherRecord, cityRowId: int, start: Timestamp, end: Timestamp)
    ensures ReadingsInRange([w], cityRowId, start, end) ==
      (if w.cityId == cityRowId && start <= w.timestamp <= end then [w] else [])
  {
    assert [w][..0] == [];
  }

  function WeatherViews(cityName: string, rs: seq<WeatherRecord>): (r: seq<WeatherView>)
    ensures |r| == |rs| && forall i :: 0 <= i < |rs| ==> r[i] == ToWeatherView(cityName, rs[i])
  {
    if rs == [] then [] else [ToWeatherView(cityName, rs[0])] + WeatherViews(cityName, rs[1..])
  }

  /** Viewing sorted readings keeps them ordered by timestamp. */
  lemma WeatherViewsOrdered(cityName: string, sorted: seq<WeatherRecord>)
    requires SortedBy(sorted, RecordTime)
    ensures var r := WeatherViews(cityName, sorted); forall i, j :: 0 <= i < j < |r| ==> r[i].timestamp <= r[j].timestamp
  {
    var r := WeatherViews(cityName, sorted);
    forall i, j | 0 <= i < j < |r|
      ensures r[i].timestamp <= r[j].timestamp
    {
      assert r[i].timestamp == RecordTime(sorted[i]) && r[j].timestamp == RecordTime(sorted[j]);
    }
  }

  /** One view per reading. */
  lemma WeatherViewsMembers(cityName: string, rs: seq<WeatherRecord>)
    ensures forall v :: v in WeatherViews(cityName, rs) <==> exists w :: w in rs && v == ToWeatherView(cityName, w)
  {
    var r := WeatherViews(cityName, rs);
    forall v | v in r
      ensures exists w :: w in rs && v == ToWeatherView(cityName, w)
    {
      var i :| 0 <= i < |r| && r[i] == v;
      assert rs[i] in rs;
    }
    forall w | w in rs
      ensures ToWeatherView(cityName, w) in r
    {
      var i :| 0 <= i < |rs| && rs[i] == w;
      assert r[i] == ToWeatherView(cityName, w);
    }
  }

  /** Sorting the city's readings and viewing them: one view per reading, ordered by timestamp. */
  lemma SortedWeatherViews(cityName: string, found: seq<WeatherRecord>)
    ensures var r := WeatherViews(cityName, SortBy(found, RecordTime));
      && |r| == |found|
      && (forall i, j :: 0 <= i < j < |r| ==> r[i].timestamp <= r[j].timestamp)
      && (forall v :: v in r <==> exists w :: w in found && v == ToWeatherView(cityName, w))
  {
    var sorted := SortBy(found, RecordTime);
    SortByContents(found, RecordTime);
    WeatherViewsOrdered(cityName, sorted);
    WeatherViewsMembers(cityName, sorted);
  }

  /**
   * `get_weather_by_city`: nothing for an unknown city name; otherwise one view
   * per reading of the first city with that name whose timestamp lies in
   * [start, end] (end defaulting to `now`), ordered by timestamp.
   */
  function GetWeatherByCity(cities: seq<City>, weather: seq<WeatherRecord>, cityName: string,
                            startDate: Timestamp, endDate: Option<Timestamp>, now: Timestamp): (r: seq<WeatherView>)
    ensures CityByName(cities, cityName).None? ==> r == []
    ensures CityByName(cities, cityName).Some? ==>
      var c := CityByName(cities, cityName).value;
      var end := if endDate.Some? then endDate.value else now;
      && |r| == |ReadingsInRange(weather, c.id, startDate, end)|
      && (forall i, j :: 0 <= i < j < |r| ==> r[i].timestamp <= r[j].timestamp)
      && (forall v :: v in r <==>
            exists w :: w in weather && w.cityId == c.id && startDate <= w.timestamp <= end && v == ToWeatherView(c.name, w))
  {
    var end := if endDate.Some? then endDate.value else now;
    match CityByName(cities, cityName)
    case None => []
    case Some(c) =>
      var found := ReadingsInRange(weather, c.id, startDate, end);
      SortedWeatherViews(c.name, found);
      WeatherViews(c.name, SortBy(found, RecordTime))
  }

  /** Viewing a concatenation concatenates the views. */
  lemma WeatherViewsAppend(cityName: string, a: seq<WeatherRecord>, b: seq<WeatherRecord>)
    ensures WeatherViews(cityName, a + b) == WeatherViews(cityName, a) + WeatherViews(cityName, b)
  {
    var l, r := WeatherViews(cityName, a + b), WeatherViews(cityName, a) + WeatherViews(cityName, b);
    forall i | 0 <= i < |l|
      ensures l[i] == r[i]
    {
      if i < |a| {
        assert (a + b)[i] == a[i];
      } else {
        assert (a + b)[i] == b[i - |a|];
      }
    }
  }

  /** Viewing two permutations of the same readings gives permutations of the same views. */
  lemma {:induction false} WeatherViewsPermute(cityName: string, a: seq<WeatherRecord>, b: seq<WeatherRecord>)
    requires multiset(a) == multiset(b)
    ensures multiset(WeatherViews(cityName, a)) == multiset(WeatherViews(cityName, b))
    decreases |a|
  {
    if a == [] {
      assert |b| == |multiset(b)| == 0;
    } else {
      var x := a[0];
      assert x in multiset(b);
      var j :| 0 <= j < |b| && b[j] == x;
      var b1, b2 := b[..j], b[j + 1..];
      assert b == b1 + [x] + b2;
      assert a == [x] + a[1..];
      RemoveMatching(a, b, j);
      WeatherViewsPermute(cityName, a[1..], b1 + b2);
      WeatherViewsAppend(cityName, b1 + [x], b2);
      WeatherViewsAppend(cityName, b1, [x]);
      WeatherViewsAppend(cityName, b1, b2);
      WeatherViewsAppend(cityName, [x], a[1..]);
    }
  }

  /** The result of `get_weather_by_city` is a permutation of the views of the city's readings in range. */
  lemma GetWeatherByCityPermutes(cities: seq<City>, weather: seq<WeatherRecord>, cityName: string,
                                 startDate: Timestamp, endDate: Option<Timestamp>, now: Timestamp)
    ensures CityByName(cities, cityName).Some? ==>
      var c := CityByName(cities, cityName).value;
      var end := if endDate.Some? then endDate.value else now;
      multiset(GetWeatherByCity(cities, weather, cityName, startDate, endDate, now)) ==
        multiset(WeatherViews(c.name, ReadingsInRange(weather, c.id, startDate, end)))
  {
    if CityByName(cities, cityName).Some? {
      var c := CityByName(cities, cityName).value;
      var end := if endDate.Some? then endDate.value else now;
      var found := ReadingsInRange(weather, c.id, startDate, end);
      WeatherViewsPermute(c.name, SortBy(found, RecordTime), found);
    }
  }

  /** One element of the list `get_stats_by_city` returns. */
  datatype StatView = StatView(
    date: Timestamp, temperatureMin: Option<real>, temperatureMax: Option<real>, temperatureAvg: Option<real>,
    temperatureVariation: Option<real>, humidityAvg: Option<real>, pressureAvg: Option<real>,
    windSpeedAvg: Option<real>, versionId: string)

  function ToStatView(s: DailyStat): StatView {
    StatView(s.date, s.values.temperatureMin, s.values.temperatureMax, s.values.temperatureAvg,
             s.values.temperatureVariation, s.values.humidityAvg, s.values.pressureAvg,
             s.values.windSpeedAvg, s.versionId)
  }

  function StatDate(s: DailyStat): int {
    s.date
  }

  /** Midnight (UTC) of the day holding `t`: `datetime.utcnow().date()`. */
  function DayStart(t: Timestamp): (d: Timestamp)
    ensures d <= t < d + SecondsPerDay && d % SecondsPerDay == 0
  {
    (t / SecondsPerDay) * SecondsPerDay
  }

  function StatsInRange(stats: seq<DailyStat>, cityRowId: int, start: Timestamp, end: Timestamp): (r: seq<DailyStat>)
    ensures forall s :: s in r <==> s in stats && s.cityId == cityRowId && start <= s.date <= end
  {
    if stats == [] then []
    else
      var n := |stats| - 1;
      var s := stats[n];
      assert stats == stats[..n] + [s];
      var init := StatsInRange(stats[..n], cityRowId, start, end);
      if s.cityId == cityRowId && start <= s.date <= end then init + [s] else init
  }

  /** The range filter keeps table order and multiplicity: it distributes over concatenation. */
  lemma {:induction false} StatsInRangeIsFilter(a: seq<DailyStat>, b: seq<DailyStat>, cityRowId: int, start: Timestamp, end: Timestamp)
    ensures StatsInRange(a + b, cityRowId, start, end) == StatsInRange(a, cityRowId, start, end) + StatsInRange(b, cityRowId, start, end)
  {
    if b == [] {
      assert a + b == a;
    } else {
      var binit := b[..|b| - 1];
      assert (a + b)[..|a + b| - 1] == a + binit;
      assert (a + b)[|a + b| - 1] == b[|b| - 1];
      StatsInRangeIsFilter(a, binit, cityRowId, start, end);
    }
  }

  /** A single statistic is kept exactly when it belongs to the city and lies in range. */
  lemma StatsInRangeSingle(s: DailyStat, cityRowId: int, start: Timestamp, end: Timestamp)
    ensures StatsInRange([s], cityRowId, start, end) ==
      (if s.cityId == cityRowId && start <= s.date <= end then [s] else [])
  {
    assert [s][..0] == [];
  }

  function StatViews(rs: seq<DailyStat>): (r: seq<StatView>)
    ensures |r| == |rs| && forall i :: 0 <= i < |rs| ==> r[i] == ToStatView(rs[i])
  {
    if rs == [] then [] else [ToStatView(rs[0])] + StatViews(rs[1..])
  }

  /** Viewing sorted statistics keeps them ordered by date. */
  lemma StatViewsOrdered(sorted: seq<DailyStat>)
    requires SortedBy(sorted, StatDate)
    ensures var r := StatViews(sorted); forall i, j :: 0 <= i < j < |r| ==> r[i].date <= r[j].date
  {
    var r := StatViews(sorted);
    forall i, j | 0 <= i < j < |r|
      ensures r[i].date <= r[j].date
    {
      assert r[i].date == StatDate(sorted[i]) && r[j].date == StatDate(sorted[j]);
    }
  }

  /** One view per statistic. */
  lemma StatViewsMembers(rs: seq<DailyStat>)
    ensures forall v :: v in StatViews(rs) <==> exists s :: s in rs && v == ToStatView(s)
  {
    var r := StatViews(rs);
    forall v | v in r
      ensures exists s :: s in rs && v == ToStatView(s)
    {
      var i :| 0 <= i < |r| && r[i] == v;
      assert rs[i] in rs;
    }
    forall s | s in rs
      ensures ToStatView(s) in r
    {
      var i :| 0 <= i < |rs| && rs[i] == s;
      assert r[i] == ToStatView(s);
    }
  }

  /** Sorting the city's statistics and viewing them: one view per statistic, ordered by date. */
  lemma SortedStatViews(found: seq<DailyStat>)
    ensures var r := StatViews(SortBy(found, StatDate));
      && |r| == |found|
      && (forall i, j :: 0 <= i < j < |r| ==> r[i].date <= r[j].date)
      && (forall v :: v in r <==> exists s :: s in found && v == ToStatView(s))
  {
    var sorted := SortBy(found, StatDate);
    SortByContents(found, StatDate);
    StatViewsOrdered(sorted);
    StatViewsMembers(sorted);
  }

  /**
   * `get_stats_by_city`: nothing for an unknown city name; otherwise one view per
   * statistic of the first city with that name dated in [start, end] (end
   * defaulting to the start of today), ordered by date.
   */
  function GetStatsByCity(cities: seq<City>, stats: seq<DailyStat>, cityName: string,
                          startDate: Timestamp, endDate: Option<Timestamp>, now: Timestamp): (r: seq<StatView>)
    ensures CityByName(cities, cityName).None? ==> r == []
    ensures CityByName(cities, cityName).Some? ==>
      var c := CityByName(cities, cityName).value;
      var end := if endDate.Some? then endDate.value else DayStart(now);
      && |r| == |StatsInRange(stats, c.id, startDate, end)|
      && (forall i, j :: 0 <= i < j < |r| ==> r[i].date <= r[j].date)
      && (forall v :: v in r <==>
            exists s :: s in stats && s.cityId == c.id && startDate <= s.date <= end && v == ToStatView(s))
  {
    var end := if endDate.Some? then endDate.value else DayStart(now);
    match CityByName(cities, cityName)
    case None => []
    case Some(c) =>
      var found := StatsInRange(stats, c.id, startDate, end);
      SortedStatViews(found);
      StatViews(SortBy(found, StatDate))
  }

  /** Viewing a concatenation concatenates the views. */
  lemma StatViewsAppend(a: seq<DailyStat>, b: seq<DailyStat>)
    ensures StatViews(a + b) == StatViews(a) + StatViews(b)
  {
    var l, r := StatViews(a + b), StatViews(a) + StatViews(b);
    forall i | 0 <= i < |l|
      ensures l[i] == r[i]
    {
      if i < |a| {
        assert (a + b)[i] == a[i];
      } else {
        assert (a + b)[i] == b[i - |a|];
      }
    }
  }

  /** Viewing two permutations of the same statistics gives permutations of the same views. */
  lemma {:induction false} StatViewsPermute(a: seq<DailyStat>, b: seq<DailyStat>)
    requires multiset(a) == multiset(b)
    ensures multiset(StatViews(a)) == multiset(StatViews(b))
    decreases |a|
  {
    if a == [] {
      assert |b| == |multiset(b)| == 0;
    } else {
      var x := a[0];
      assert x in multiset(b);
      var j :| 0 <= j < |b| && b[j] == x;
      var b1, b2 := b[..j], b[j + 1..];
      assert b == b1 + [x] + b2;
      assert a == [x] + a[1..];
      RemoveMatching(a, b, j);
      StatViewsPermute(a[1..], b1 + b2);
      StatViewsAppend(b1 + [x], b2);
      StatViewsAppend(b1, [x]);
      StatViewsAppend(b1, b2);
      StatViewsAppend([x], a[1..]);
    }
  }

  /** The result of `get_stats_by_city` is a permutation of the views of the city's statistics in range. */
  lemma GetStatsByCityPermutes(cities: seq<City>, stats: seq<DailyStat>, cityName: string,
                               startDate: Timestamp, endDate: Option<Timestamp>, now: Timestamp)
    ensures CityByName(cities, cityName).Some? ==>
      var c := CityByName(cities, cityName).value;
      var end := if endDate.Some? then endDate.value else DayStart(now);
      multiset(GetStatsByCity(cities, stats, cityName, startDate, endDate, now)) ==
        multiset(StatViews(StatsInRange(stats, c.id, startDate, end)))
  {
    if CityByName(cities, cityName).Some? {
      var c := CityByName(cities, cityName).value;
      var end := if endDate.Some? then endDate.value else DayStart(now);
      var found := StatsInRange(stats, c.id, startDate, end);
      StatViewsPermute(SortBy(found, StatDate), found);
    }
  }
}
