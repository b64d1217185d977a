/**
 * The relational tables of the weather database (`cities`, `weather_data`,
 * `data_versions`, `daily_weather_stats`) as in-memory sequences of rows held by
 * a session object, with their keys and unique indexes as invariants.
 * Every DateTime column is a timestamp in whole seconds.
 */
module Models {
  import opened Wrappers

  type Timestamp = int

  /** `timedelta(days=1)` in seconds. */
  const SecondsPerDay: int := 86400

  /** A `cities` row: `id` is the table's own key, `cityId` the API's city id (a unique column). */
  datatype City = City(id: int, cityId: int, name: string, country: string, latitude: real, longitude: real)

  /** The measured columns of a `weather_data` row; `temperature` is the one NOT NULL among them. */
  datatype Observation = Observation(
    temperature: real,
    temperatureFeelsLike: Option<real>,
    temperatureMin: Option<real>,
    temperatureMax: Option<real>,
    pressure: Option<int>,
    humidity: Option<int>,
    weatherMain: Option<string>,
    weatherDescription: Option<string>,
    windSpeed: Option<real>,
    windDirection: Option<int>,
    cloudiness: Option<int>,
    visibility: Option<int>,
    sunrise: Option<Timestamp>,
    sunset: Option<Timestamp>,
    timezoneOffset: Option<int>)

  /** A `weather_data` row; `cityId` refers to `cities.id`. */
  datatype WeatherRecord = WeatherRecord(
    id: int,
    cityId: int,
    timestamp: Timestamp,
    collectionTime: Timestamp,
    obs: Observation,
    versionId: string)

  /** A `data_versions` row; `isActive` is the integer soft-delete flag (1 active, 0 not). */
  datatype DataVersionRow = DataVersionRow(
    id: string,
    versionName: string,
    description: Option<string>,
    parentVersionId: Option<string>,
    createdAt: Timestamp,
    createdBy: Option<string>,
    isActive: int,
    metadataJson: Option<string>)

  /** The statistic columns of a `daily_weather_stats` row. */
  datatype StatValues = StatValues(
    temperatureMin: Option<real>,
    temperatureMax: Option<real>,
    temperatureAvg: Option<real>,
    humidityMin: Option<int>,
    humidityMax: Option<int>,
    humidityAvg: Option<real>,
    pressureMin: Option<int>,
    pressureMax: Option<int>,
    pressureAvg: Option<real>,
    windSpeedMin: Option<real>,
    windSpeedMax: Option<real>,
    windSpeedAvg: Option<real>,
    temperatureVariation: Option<real>)

  /** A `daily_weather_stats` row, unique on (`cityId`, `date`). */
  datatype DailyStat = DailyStat(id: int, cityId: int, date: Timestamp, values: StatValues, versionId: string)

  /** City keys are assigned in increasing order and the API's city id is unique. */
  predicate CitiesWellFormed(cities: seq<City>, nextCityId: int) {
    && (forall i, j :: 0 <= i < j < |cities| ==> cities[i].id < cities[j].id)
    && (forall i :: 0 <= i < |cities| ==> cities[i].id < nextCityId)
    && (forall i, j :: 0 <= i < j < |cities| ==> cities[i].cityId != cities[j].cityId)
  }

  /** Every weather key is below the next one to be assigned. */
  predicate WeatherKeysBelow(weather: seq<WeatherRecord>, nextWeatherId: int) {
    forall r :: r in weather ==> r.id < nextWeatherId
  }

  predicate VersionIdsUnique(versions: seq<DataVersionRow>) {
    forall i, j :: 0 <= i < j < |versions| ==> versions[i].id != versions[j].id
  }

  /** The unique index `idx_daily_stats_city_date` on (city_id, date). */
  predicate StatKeysUnique(stats: seq<DailyStat>) {
    forall i, j :: 0 <= i < j < |stats| ==> stats[i].cityId != stats[j].cityId || stats[i].date != stats[j].date
  }

  predicate StatsWellFormed(stats: seq<DailyStat>, nextStatId: int) {
    StatKeysUnique(stats) && forall s :: s in stats ==> s.id < nextStatId
  }

  /** The tables behind one database session, and the next key each auto-increment column hands out. */
  class Session {
    var cities: seq<City>
    var weather: seq<WeatherRecord>
    var versions: seq<DataVersionRow>
    var stats: seq<DailyStat>
    var nextCityId: int
    var nextWeatherId: int
    var nextStatId: int

    ghost predicate Valid()
      reads this
    {
      && CitiesWellFormed(cities, nextCityId)
      && WeatherKeysBelow(weather, nextWeatherId)
      && VersionIdsUnique(versions)
      && StatsWellFormed(stats, nextStatId)
    }

    /** `init_db`: the tables exist and are empty. */
    constructor ()
      ensures Valid()
      ensures cities == [] && weather == [] && versions == [] && stats == []
    {
      cities, weather, versions, stats := [], [], [], [];
      nextCityId, nextWeatherId, nextStatId := 1, 1, 1;
    }
  }
}
