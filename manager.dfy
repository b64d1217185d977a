/**
 * `DatabaseManager`'s table maintenance: deactivating old versions, pruning old
 * weather readings, and the counts of the data-quality report.
 */
module Manager {
  import opened Wrappers
  import opened Models
  import opened Queries
  import opened Operations

  /** `utcnow() - timedelta(days=daysToKeep)`. */
  function Cutoff(now: Timestamp, daysToKeep: int): Timestamp {
    now - daysToKeep * SecondsPerDay
  }

  // ------------------------------------------------------- old versions

  /** A version `clean_old_versions` selects: active and created before the cutoff. */
  predicate Stale(v: DataVersionRow, cutoff: Timestamp) {
    v.createdAt < cutoff && v.isActive == 1
  }

  function Deactivate(v: DataVersionRow, cutoff: Timestamp): DataVersionRow {
    if Stale(v, cutoff) then v.(isActive := 0) else v
  }

  function CountStale(vs: seq<DataVersionRow>, cutoff: Timestamp): (n: nat)
    ensures n <= |vs|
  {
    if vs == [] then 0
    else CountStale(vs[..|vs| - 1], cutoff) + if Stale(vs[|vs| - 1], cutoff) then 1 else 0
  }

  /**
   * The versions table after `clean_old_versions`: exactly the stale versions
   * have `is_active` cleared; every other row and every other column is as it was.
   */
  function DeactivateAll(vs: seq<DataVersionRow>, cutoff: Timestamp): (r: seq<DataVersionRow>)
    ensures |r| == |vs|
    ensures forall k :: 0 <= k < |vs| ==> r[k] == Deactivate(vs[k], cutoff)
    ensures forall k :: 0 <= k < |vs| ==> (r[k] != vs[k] <==> Stale(vs[k], cutoff))
    ensures forall k :: 0 <= k < |vs| ==> r[k].id == vs[k].id && r[k].createdAt == vs[k].createdAt
  {
    if vs == [] then []
    else DeactivateAll(vs[..|vs| - 1], cutoff) + [Deactivate(vs[|vs| - 1], cutoff)]
  }

  /** The number of positions at which two tables of the same length hold different rows. */
  function CountChanged(a: seq<DataVersionRow>, b: seq<DataVersionRow>): nat
    requires |a| == |b|
  {
    if a == [] then 0
    else CountChanged(a[..|a| - 1], b[..|b| - 1]) + if a[|a| - 1] != b[|b| - 1] then 1 else 0
  }

  /** The number of active versions. */
  function CountActive(vs: seq<DataVersionRow>): nat {
    if vs == [] then 0 else CountActive(vs[..|vs| - 1]) + if vs[|vs| - 1].isActive == 1 then 1 else 0
  }

  /** The count `clean_old_versions` returns is the number of rows it changed. */
  lemma {:induction false} CountStaleIsChanged(vs: seq<DataVersionRow>, cutoff: Timestamp)
    ensures CountStale(vs, cutoff) == CountChanged(vs, DeactivateAll(vs, cutoff))
  {
    if vs != [] {
      var n := |vs| - 1;
      var r := DeactivateAll(vs, cutoff);
      assert r[..n] == DeactivateAll(vs[..n], cutoff);
      CountStaleIsChanged(vs[..n], cutoff);
    }
  }

  /** Cleaning turns exactly the counted versions from active to inactive. */
  lemma {:induction false} CleanLowersActiveByCount(vs: seq<DataVersionRow>, cutoff: Timestamp)
    ensures CountActive(DeactivateAll(vs, cutoff)) + CountStale(vs, cutoff) == CountActive(vs)
  {
    if vs != [] {
      var n := |vs| - 1;
      var r := DeactivateAll(vs, cutoff);
      assert r[..n] == DeactivateAll(vs[..n], cutoff);
      CleanLowersActiveByCount(vs[..n], cutoff);
    }
  }

  /** The count is zero exactly when no version is stale; in particular for an empty table. */
  lemma {:induction false} CountStaleZeroIff(vs: seq<DataVersionRow>, cutoff: Timestamp)
    ensures CountStale(vs, cutoff) == 0 <==> forall v :: v in vs ==> !Stale(v, cutoff)
  {
    if vs != [] {
      var init := vs[..|vs| - 1];
      assert vs == init + [vs[|vs| - 1]];
      CountStaleZeroIff(init, cutoff);
    }
  }

  /** After cleaning, no stale version is left, so cleaning again with the same cutoff changes nothing. */
  lemma CleanIdempotent(vs: seq<DataVersionRow>, cutoff: Timestamp)
    ensures CountStale(DeactivateAll(vs, cutoff), cutoff) == 0
    ensures DeactivateAll(DeactivateAll(vs, cutoff), cutoff) == DeactivateAll(vs, cutoff)
  {
    var r := DeactivateAll(vs, cutoff);
    assert forall v :: v in r ==> !Stale(v, cutoff);
    CountStaleZeroIff(r, cutoff);
  }

  /** After cleaning, the latest active version, if any, was created at or after the cutoff. */
  lemma LatestAfterClean(vs: seq<DataVersionRow>, cutoff: Timestamp)
    ensures var latest := GetLatestVersion(DeactivateAll(vs, cutoff));
      latest.Some? ==> latest.value.createdAt >= cutoff
  {
    var r := DeactivateAll(vs, cutoff);
    var latest := GetLatestVersion(r);
    if latest.Some? {
      var k :| 0 <= k < |r| && r[k] == latest.value;
      assert !Stale(r[k], cutoff);
    }
  }

  /** Cleaning changes only `is_active`, so the version ids stay unique. */
  lemma DeactivateAllKeepsIds(vs: seq<DataVersionRow>, cutoff: Timestamp)
    requires VersionIdsUnique(vs)
    ensures VersionIdsUnique(DeactivateAll(vs, cutoff))
  {
    var r := DeactivateAll(vs, cutoff);
    forall i, j | 0 <= i < j < |r|
      ensures r[i].id != r[j].id
    {
      assert r[i].id == vs[i].id && r[j].id == vs[j].id;
    }
  }

  /**
   * `clean_old_versions`: clears `is_active` on every active version created
   * before `now - daysToKeep` days and returns how many were changed.
   */
  method CleanOldVersions(session: Session, now: Timestamp, daysToKeep: int) returns (count: nat)
    requires session.Valid()
    modifies session
    ensures session.Valid()
    ensures session.versions == DeactivateAll(old(session.versions), Cutoff(now, daysToKeep))
    ensures count == CountStale(old(session.versions), Cutoff(now, daysToKeep))
    ensures session.cities == old(session.cities) && session.nextCityId == old(session.nextCityId)
    ensures session.weather == old(session.weather) && session.nextWeatherId == old(session.nextWeatherId)
    ensures session.stats == old(session.stats) && session.nextStatId == old(session.nextStatId)
  {
    var cutoff := Cutoff(now, daysToKeep);
    ghost var vs := session.versions;
    var versions := session.versions;
    count := 0;
    var i := 0;
    while i < |versions|
      invariant 0 <= i <= |versions| == |vs|
      invariant forall k :: 0 <= k < i ==> versions[k] == Deactivate(vs[k], cutoff)
      invariant forall k :: i <= k < |vs| ==> versions[k] == vs[k]
      invariant count == CountStale(vs[..i], cutoff)
    {
      assert vs[..i + 1][..i] == vs[..i];
      if Stale(versions[i], cutoff) {
        versions := versions[i := versions[i].(isActive := 0)];
        count := count + 1;
      }
      i := i + 1;
    }
    assert vs[..i] == vs;
    assert versions == DeactivateAll(vs, cutoff);
    DeactivateAllKeepsIds(vs, cutoff);
    session.versions := versions;
  }

  // --------------------------------------------------- old weather data

  /** The readings `prune_old_data` keeps: those at or after the cutoff, in table order. */
  function KeepRecent(ws: seq<WeatherRecord>, cutoff: Timestamp): (r: seq<WeatherRecord>)
    ensures forall w :: w in r <==> w in ws && w.timestamp >= cutoff
  {
    if ws == [] then []
    else
      var n := |ws| - 1;
      assert ws == ws[..n] + [ws[n]];
      KeepRecent(ws[..n], cutoff) + if ws[n].timestamp >= cutoff then [ws[n]] else []
  }

  /** The number of readings before the cutoff: what the bulk delete reports. */
  function CountOlder(ws: seq<WeatherRecord>, cutoff: Timestamp): (n: nat)
    ensures n <= |ws|
  {
    if ws == [] then 0
    else CountOlder(ws[..|ws| - 1], cutoff) + if ws[|ws| - 1].timestamp < cutoff then 1 else 0
  }

  /** Kept and deleted readings together make up the table. */
  lemma {:induction false} PruneCounts(ws: seq<WeatherRecord>, cutoff: Timestamp)
    ensures |KeepRecent(ws, cutoff)| + CountOlder(ws, cutoff) == |ws|
  {
    if ws != [] {
      PruneCounts(ws[..|ws| - 1], cutoff);
    }
  }

  /** Pruning keeps relative order: pruning a concatenation concatenates the pruned parts. */
  lemma {:induction false} KeepRecentDistributes(a: seq<WeatherRecord>, b: seq<WeatherRecord>, cutoff: Timestamp)
    ensures KeepRecent(a + b, cutoff) == KeepRecent(a, cutoff) + KeepRecent(b, cutoff)
  {
    if b == [] {
      assert a + b == a;
    } else {
      var binit := b[..|b| - 1];
      assert (a + b)[..|a + b| - 1] == a + binit;
      KeepRecentDistributes(a, binit, cutoff);
    }
  }

  /** A second prune with the same cutoff deletes nothing. */
  lemma PruneIdempotent(ws: seq<WeatherRecord>, cutoff: Timestamp)
    ensures CountOlder(KeepRecent(ws, cutoff), cutoff) == 0
    ensures KeepRecent(KeepRecent(ws, cutoff), cutoff) == KeepRecent(ws, cutoff)
  {
    var r := KeepRecent(ws, cutoff);
    PruneCounts(r, cutoff);
    KeepAllRecent(r, cutoff);
  }

  lemma {:induction false} KeepAllRecent(ws: seq<WeatherRecord>, cutoff: Timestamp)
    requires forall w :: w in ws ==> w.timestamp >= cutoff
    ensures KeepRecent(ws, cutoff) == ws
  {
    if ws != [] {
      var n := |ws| - 1;
      assert ws == ws[..n] + [ws[n]];
      assert forall w :: w in ws[..n] ==> w in ws;
      KeepAllRecent(ws[..n], cutoff);
    }
  }

  /**
   * `prune_old_data`: deletes the weather readings older than `now - daysToKeep`
   * days and reports how many it deleted; the other tables, including the daily
   * statistics, are kept.
   */
  method PruneOldData(session: Session, now: Timestamp, daysToKeep: int) returns (deletedRecords: nat)
    requires session.Valid()
    modifies session
    ensures session.Valid()
    ensures session.weather == KeepRecent(old(session.weather), Cutoff(now, daysToKeep))
    ensures deletedRecords == CountOlder(old(session.weather), Cutoff(now, daysToKeep))
    ensures |session.weather| == |old(session.weather)| - deletedRecords
    ensures session.cities == old(session.cities) && session.nextCityId == old(session.nextCityId)
    ensures session.nextWeatherId == old(session.nextWeatherId) && session.versions == old(session.versions)
    ensures session.stats == old(session.stats) && session.nextStatId == old(session.nextStatId)
  {
    var cutoff := Cutoff(now, daysToKeep);
    deletedRecords := CountOlder(session.weather, cutoff);
    PruneCounts(session.weather, cutoff);
    session.weather := KeepRecent(session.weather, cutoff);
  }

  // ----------------------------------------------------- quality report

  /** The critical columns whose NULLs the report counts. */
  datatype Column = Temperature | Humidity | Pressure

  /** A recommendation of the quality report; the source renders each as a sentence with the count. */
  datatype Recommendation =
    | HandleNulls(column: Column, count: nat)
    | ReviewExtremeTemperatures(count: nat)
    | DuplicateTimestamps(count: nat)
    | CitiesWithoutData(count: nat)

  datatype QualityReport = QualityReport(
    missingValues: map<Column, nat>,
    outliers: map<string, nat>,
    duplicateTimestamps: nat,
    citiesWithoutData: seq<string>,
    recommendations: seq<Recommendation>)

  /** The report as initialised, and as returned for an empty `weather_data` table. */
  const EmptyReport := QualityReport(map[], map[], 0, [], [])

  function CountNullHumidity(ws: seq<WeatherRecord>): nat {
    if ws == [] then 0 else CountNullHumidity(ws[..|ws| - 1]) + if ws[|ws| - 1].obs.humidity.None? then 1 else 0
  }

  function CountNullPressure(ws: seq<WeatherRecord>): nat {
    if ws == [] then 0 else CountNullPressure(ws[..|ws| - 1]) + if ws[|ws| - 1].obs.pressure.None? then 1 else 0
  }

  /** The outlier filter: below -60 or above 60 degrees. */
  predicate ExtremeTemperature(t: real) {
    t < -60.0 || t > 60.0
  }

  function CountExtreme(ws: seq<WeatherRecord>): nat {
    if ws == [] then 0 else CountExtreme(ws[..|ws| - 1]) + if ExtremeTemperature(ws[|ws| - 1].obs.temperature) then 1 else 0
  }

  /** How often `t` occurs in `ts`. */
  function Occurrences(ts: seq<int>, t: int): nat {
    if ts == [] then 0 else (if ts[0] == t then 1 else 0) + Occurrences(ts[1..], t)
  }

  predicate NoRepeats(ts: seq<int>) {
    forall i, j :: 0 <= i < j < |ts| ==> ts[i] != ts[j]
  }

  /** The `GROUP BY timestamp` groups: each distinct value once, in order of first occurrence. */
  function Distinct(ts: seq<int>): (r: seq<int>)
    ensures forall t :: t in r <==> t in ts
    ensures NoRepeats(r)
  {
    if ts == [] then []
    else
      var n := |ts| - 1;
      assert ts == ts[..n] + [ts[n]];
      var init := Distinct(ts[..n]);
      if ts[n] in init then init else init + [ts[n]]
  }

  /** `count - 1` for a group `HAVING count > 1`, and nothing for the other groups. */
  function Excess(ts: seq<int>, t: int): nat {
    if Occurrences(ts, t) > 1 then Occurrences(ts, t) - 1 else 0
  }

  function ExcessOver(ts: seq<int>, groups: seq<int>): nat {
    if groups == [] then 0 else Excess(ts, groups[0]) + ExcessOver(ts, groups[1..])
  }

  /** `sum(count - 1 for _, count in timestamp_counts)` for one city's timestamps. */
  function CityDupes(ts: seq<int>): nat {
    ExcessOver(ts, Distinct(ts))
  }

  lemma {:induction false} OccurrencesPositive(ts: seq<int>, t: int)
    requires t in ts
    ensures Occurrences(ts, t) >= 1
  {
    if ts[0] != t {
      OccurrencesPositive(ts[1..], t);
    }
  }

  lemma {:induction false} OccurrencesAbsent(ts: seq<int>, t: int)
    requires t !in ts
    ensures Occurrences(ts, t) == 0
  {
    if ts != [] {
      OccurrencesAbsent(ts[1..], t);
    }
  }

  lemma {:induction false} OccurrencesAtMostOne(ts: seq<int>, t: int)
    requires NoRepeats(ts)
    ensures Occurrences(ts, t) <= 1
  {
    if ts != [] {
      var tail := ts[1..];
      assert NoRepeats(tail) by {
        forall i, j | 0 <= i < j < |tail|
          ensures tail[i] != tail[j]
        {
          assert tail[i] == ts[i + 1] && tail[j] == ts[j + 1];
        }
      }
      OccurrencesAtMostOne(tail, t);
      if ts[0] == t {
        assert forall j :: 0 <= j < |tail| ==> tail[j] == ts[j + 1];
        OccurrencesAbsent(tail, t);
      }
    }
  }

  lemma {:induction false} OccurrencesRepeated(ts: seq<int>, i: nat, j: nat)
    requires i < j < |ts| && ts[i] == ts[j]
    ensures Occurrences(ts, ts[i]) >= 2
  {
    var tail := ts[1..];
    if i == 0 {
      assert tail[j - 1] == ts[j];
      OccurrencesPositive(tail, ts[0]);
    } else {
      assert tail[i - 1] == ts[i] && tail[j - 1] == ts[j];
      OccurrencesRepeated(tail, i - 1, j - 1);
    }
  }

  lemma {:induction false} ExcessOverAtLeast(ts: seq<int>, groups: seq<int>, t: int)
    requires t in groups
    ensures ExcessOver(ts, groups) >= Excess(ts, t)
  {
    if groups[0] != t {
      ExcessOverAtLeast(ts, groups[1..], t);
    }
  }

  lemma {:induction false} ExcessOverZero(ts: seq<int>, groups: seq<int>)
    requires forall t :: Occurrences(ts, t) <= 1
    ensures ExcessOver(ts, groups) == 0
  {
    if groups != [] {
      ExcessOverZero(ts, groups[1..]);
    }
  }

  /** A city's duplicate count is zero exactly when no timestamp occurs twice. */
  lemma CityDupesZeroIff(ts: seq<int>)
    ensures CityDupes(ts) == 0 <==> NoRepeats(ts)
  {
    if NoRepeats(ts) {
      forall t
        ensures Occurrences(ts, t) <= 1
      {
        OccurrencesAtMostOne(ts, t);
      }
      ExcessOverZero(ts, Distinct(ts));
    } else {
      var i, j :| 0 <= i < j < |ts| && ts[i] == ts[j];
      OccurrencesRepeated(ts, i, j);
      assert ts[i] in Distinct(ts);
      ExcessOverAtLeast(ts, Distinct(ts), ts[i]);
    }
  }

  /** The sizes of the given groups, summed. */
  function SumOccurrences(ts: seq<int>, groups: seq<int>): nat {
    if groups == [] then 0 else Occurrences(ts, groups[0]) + SumOccurrences(ts, groups[1..])
  }

  lemma {:induction false} OccurrencesSnoc(ts: seq<int>, x: int, t: int)
    ensures Occurrences(ts + [x], t) == Occurrences(ts, t) + if x == t then 1 else 0
  {
    if ts == [] {
      assert [x][1..] == [];
    } else {
      assert (ts + [x])[1..] == ts[1..] + [x];
      OccurrencesSnoc(ts[1..], x, t);
    }
  }

  lemma {:induction false} SumOccurrencesSnoc(ts: seq<int>, x: int, groups: seq<int>)
    ensures SumOccurrences(ts + [x], groups) == SumOccurrences(ts, groups) + Occurrences(groups, x)
  {
    if groups != [] {
      OccurrencesSnoc(ts, x, groups[0]);
      SumOccurrencesSnoc(ts, x, groups[1..]);
    }
  }

  lemma {:induction false} SumOccurrencesMoreGroups(ts: seq<int>, groups: seq<int>, g: int)
    ensures SumOccurrences(ts, groups + [g]) == SumOccurrences(ts, groups) + Occurrences(ts, g)
  {
    if groups == [] {
      assert [g][1..] == [];
    } else {
      assert (groups + [g])[1..] == groups[1..] + [g];
      SumOccurrencesMoreGroups(ts, groups[1..], g);
    }
  }

  /** The groups of `GROUP BY timestamp` together hold every timestamp exactly once. */
  lemma {:induction false} GroupSizesAddUp(ts: seq<int>)
    ensures SumOccurrences(ts, Distinct(ts)) == |ts|
  {
    if ts != [] {
      var n := |ts| - 1;
      var init, x := ts[..n], ts[n];
      assert ts == init + [x];
      var g0 := Distinct(init);
      GroupSizesAddUp(init);
      SumOccurrencesSnoc(init, x, g0);
      if x in g0 {
        OccurrencesPositive(g0, x);
        OccurrencesAtMostOne(g0, x);
      } else {
        OccurrencesAbsent(g0, x);
        SumOccurrencesMoreGroups(ts, g0, x);
        OccurrencesAbsent(init, x);
        OccurrencesSnoc(init, x, x);
      }
    }
  }

  lemma {:induction false} ExcessOverGroups(ts: seq<int>, groups: seq<int>)
    requires forall g :: g in groups ==> g in ts
    ensures ExcessOver(ts, groups) + |groups| == SumOccurrences(ts, groups)
  {
    if groups != [] {
      OccurrencesPositive(ts, groups[0]);
      ExcessOverGroups(ts, groups[1..]);
    }
  }

  /** A city's duplicate count is its number of readings less its number of distinct timestamps. */
  lemma CityDupesCount(ts: seq<int>)
    ensures |Distinct(ts)| <= |ts|
    ensures CityDupes(ts) == |ts| - |Distinct(ts)|
  {
    GroupSizesAddUp(ts);
    ExcessOverGroups(ts, Distinct(ts));
  }

  /** `query(WeatherData.timestamp).filter(city_id == cityRowId)`, in table order. */
  function TimestampsOf(ws: seq<WeatherRecord>, cityRowId: int): (r: seq<int>)
    ensures forall t :: t in r <==> exists w :: w in ws && w.cityId == cityRowId && w.timestamp == t
  {
    if ws == [] then []
    else
      assert ws == [ws[0]] + ws[1..];
      (if ws[0].cityId == cityRowId then [ws[0].timestamp] else []) + TimestampsOf(ws[1..], cityRowId)
  }

  /** No two readings of the city share a timestamp. */
  predicate DistinctTimes(ws: seq<WeatherRecord>, cityRowId: int) {
    forall i, j :: 0 <= i < j < |ws| && ws[i].cityId == cityRowId && ws[j].cityId == cityRowId ==>
      ws[i].timestamp != ws[j].timestamp
  }

  lemma NoRepeatsCons(a: int, s: seq<int>)
    ensures NoRepeats([a] + s) <==> a !in s && NoRepeats(s)
  {
    var r := [a] + s;
    if a !in s && NoRepeats(s) {
      forall i, j | 0 <= i < j < |r|
        ensures r[i] != r[j]
      {
        assert r[j] == s[j - 1];
        if i > 0 {
          assert r[i] == s[i - 1];
        }
      }
    }
    if NoRepeats(r) {
      forall j | 0 <= j < |s|
        ensures s[j] != a
      {
        assert r[0] != r[j + 1];
      }
      forall i, j | 0 <= i < j < |s|
        ensures s[i] != s[j]
      {
        assert s[i] == r[i + 1] && s[j] == r[j + 1];
      }
    }
  }

  /** A city's readings have distinct times exactly when the rest do and the first one's time is not repeated. */
  lemma DistinctTimesCons(ws: seq<WeatherRecord>, cityRowId: int)
    requires ws != []
    ensures DistinctTimes(ws, cityRowId) <==>
      && DistinctTimes(ws[1..], cityRowId)
      && (ws[0].cityId == cityRowId ==>
            forall x :: x in ws[1..] && x.cityId == cityRowId ==> x.timestamp != ws[0].timestamp)
  {
    var w, tail := ws[0], ws[1..];
    if DistinctTimes(ws, cityRowId) {
      forall i, j | 0 <= i < j < |tail| && tail[i].cityId == cityRowId && tail[j].cityId == cityRowId
        ensures tail[i].timestamp != tail[j].timestamp
      {
        assert tail[i] == ws[i + 1] && tail[j] == ws[j + 1];
      }
      if w.cityId == cityRowId {
        forall x | x in tail && x.cityId == cityRowId
          ensures x.timestamp != w.timestamp
        {
          var j :| 0 <= j < |tail| && tail[j] == x;
          assert ws[j + 1] == x;
        }
      }
    }
    if && DistinctTimes(tail, cityRowId)
       && (w.cityId == cityRowId ==> forall x :: x in tail && x.cityId == cityRowId ==> x.timestamp != w.timestamp)
    {
      forall i, j | 0 <= i < j < |ws| && ws[i].cityId == cityRowId && ws[j].cityId == cityRowId
        ensures ws[i].timestamp != ws[j].timestamp
      {
        assert ws[j] == tail[j - 1];
        if i > 0 {
          assert ws[i] == tail[i - 1];
        } else {
          assert tail[j - 1] in tail;
        }
      }
    }
  }

  /** The city's timestamps repeat exactly when two of its readings share a timestamp. */
  lemma {:induction false} TimestampsNoRepeatsIff(ws: seq<WeatherRecord>, cityRowId: int)
    ensures NoRepeats(TimestampsOf(ws, cityRowId)) <==> DistinctTimes(ws, cityRowId)
  {
    if ws != [] {
      var w, tail := ws[0], ws[1..];
      TimestampsNoRepeatsIff(tail, cityRowId);
      DistinctTimesCons(ws, cityRowId);
      var rest := TimestampsOf(tail, cityRowId);
      if w.cityId == cityRowId {
        assert TimestampsOf(ws, cityRowId) == [w.timestamp] + rest;
        NoRepeatsCons(w.timestamp, rest);
        assert w.timestamp in rest <==> exists x :: x in tail && x.cityId == cityRowId && x.timestamp == w.timestamp;
      } else {
        assert TimestampsOf(ws, cityRowId) == rest;
      }
    }
  }

  /** `total_dupes`: the duplicate counts of the cities, in table order, summed. */
  function TotalDupes(cities: seq<City>, ws: seq<WeatherRecord>): nat {
    if cities == [] then 0
    else TotalDupes(cities[..|cities| - 1], ws) + CityDupes(TimestampsOf(ws, cities[|cities| - 1].id))
  }

  /** The duplicate count is zero exactly when no city has two readings at the same timestamp. */
  lemma {:induction false} TotalDupesZeroIff(cities: seq<City>, ws: seq<WeatherRecord>)
    ensures TotalDupes(cities, ws) == 0 <==> forall c :: c in cities ==> DistinctTimes(ws, c.id)
  {
    if cities != [] {
      var init, last := cities[..|cities| - 1], cities[|cities| - 1];
      assert cities == init + [last];
      TotalDupesZeroIff(init, ws);
      CityDupesZeroIff(TimestampsOf(ws, last.id));
      TimestampsNoRepeatsIff(ws, last.id);
    }
  }

  /** The cities with no weather reading, in table order (the outer join `HAVING count == 0`). */
  function CitiesWithoutReadings(cities: seq<City>, ws: seq<WeatherRecord>): (r: seq<City>)
    ensures |r| <= |cities|
    ensures forall c :: c in r <==> c in cities && forall w :: w in ws ==> w.cityId != c.id
  {
    if cities == [] then []
    else
      var n := |cities| - 1;
      assert cities == cities[..n] + [cities[n]];
      var init := CitiesWithoutReadings(cities[..n], ws);
      if forall w :: w in ws ==> w.cityId != cities[n].id then init + [cities[n]] else init
  }

  function Names(cs: seq<City>): (r: seq<string>)
    ensures |r| == |cs| && forall k :: 0 <= k < |cs| ==> r[k] == cs[k].name
  {
    if cs == [] then [] else [cs[0].name] + Names(cs[1..])
  }

  /** `recommendations.append(rec)` under its guard. */
  function AppendIf(recs: seq<Recommendation>, guard: bool, rec: Recommendation): (r: seq<Recommendation>)
    ensures |r| == |recs| + if guard then 1 else 0
    ensures forall x :: x in r <==> x in recs || (guard && x == rec)
  {
    if guard then recs + [rec] else recs
  }

  /**
   * The recommendations, in the report's order: one per column with NULLs, one
   * for extreme temperatures, one for duplicates and one for cities without data,
   * each present only when its count is positive.
   */
  function Recommendations(nullTemperature: nat, nullHumidity: nat, nullPressure: nat,
                           extreme: nat, dupes: nat, withoutData: nat): seq<Recommendation> {
    var r0 := AppendIf([], nullTemperature > 0, HandleNulls(Temperature, nullTemperature));
    var r1 := AppendIf(r0, nullHumidity > 0, HandleNulls(Humidity, nullHumidity));
    var r2 := AppendIf(r1, nullPressure > 0, HandleNulls(Pressure, nullPressure));
    var r3 := AppendIf(r2, extreme > 0, ReviewExtremeTemperatures(extreme));
    var r4 := AppendIf(r3, dupes > 0, DuplicateTimestamps(dupes));
    AppendIf(r4, withoutData > 0, CitiesWithoutData(withoutData))
  }

  function Positive(n: nat): nat {
    if n > 0 then 1 else 0
  }

  /** Each recommendation is present exactly when its count is positive, and carries that count. */
  lemma RecommendationsIff(nullTemperature: nat, nullHumidity: nat, nullPressure: nat,
                           extreme: nat, dupes: nat, withoutData: nat)
    ensures var recs := Recommendations(nullTemperature, nullHumidity, nullPressure, extreme, dupes, withoutData);
      && (forall n :: HandleNulls(Temperature, n) in recs <==> nullTemperature > 0 && n == nullTemperature)
      && (forall n :: HandleNulls(Humidity, n) in recs <==> nullHumidity > 0 && n == nullHumidity)
      && (forall n :: HandleNulls(Pressure, n) in recs <==> nullPressure > 0 && n == nullPressure)
      && (forall n :: ReviewExtremeTemperatures(n) in recs <==> extreme > 0 && n == extreme)
      && (forall n :: DuplicateTimestamps(n) in recs <==> dupes > 0 && n == dupes)
      && (forall n :: CitiesWithoutData(n) in recs <==> withoutData > 0 && n == withoutData)
      && |recs| == Positive(nullTemperature) + Positive(nullHumidity) + Positive(nullPressure)
                   + Positive(extreme) + Positive(dupes) + Positive(withoutData)
  {
    var r0 := AppendIf([], nullTemperature > 0, HandleNulls(Temperature, nullTemperature));
    var r1 := AppendIf(r0, nullHumidity > 0, HandleNulls(Humidity, nullHumidity));
    var r2 := AppendIf(r1, nullPressure > 0, HandleNulls(Pressure, nullPressure));
    var r3 := AppendIf(r2, extreme > 0, ReviewExtremeTemperatures(extreme));
    var r4 := AppendIf(r3, dupes > 0, DuplicateTimestamps(dupes));
    var r5 := AppendIf(r4, withoutData > 0, CitiesWithoutData(withoutData));
    assert forall x :: x in r2 <==> (x.HandleNulls? && (
      || (nullTemperature > 0 && x == HandleNulls(Temperature, nullTemperature))
      || (nullHumidity > 0 && x == HandleNulls(Humidity, nullHumidity))
      || (nullPressure > 0 && x == HandleNulls(Pressure, nullPressure))));
    assert forall x :: x in r5 <==> (
      || x in r2
      || (extreme > 0 && x == ReviewExtremeTemperatures(extreme))
      || (dupes > 0 && x == DuplicateTimestamps(dupes))
      || (withoutData > 0 && x == CitiesWithoutData(withoutData)));
  }

  /**
   * `get_data_quality_report`: the empty report when there is no reading;
   * otherwise the NULL counts of the critical columns (`temperature` is NOT NULL,
   * so always 0), the extreme-temperature count, the duplicate count, the names
   * of the cities without readings, and the recommendations for them.
   */
  function QualityReportOf(cities: seq<City>, ws: seq<WeatherRecord>): QualityReport {
    if ws == [] then EmptyReport
    else BuildReport(CountNullHumidity(ws), CountNullPressure(ws), CountExtreme(ws), TotalDupes(cities, ws),
                     Names(CitiesWithoutReadings(cities, ws)))
  }

  /** The report of a non-empty table from its counts and the names of the cities without readings. */
  function BuildReport(nullHumidity: nat, nullPressure: nat, extreme: nat, dupes: nat, without: seq<string>): QualityReport {
    QualityReport(
      map[Temperature := 0, Humidity := nullHumidity, Pressure := nullPressure],
      map["extreme_temperatures" := extreme],
      dupes,
      without,
      Recommendations(0, nullHumidity, nullPressure, extreme, dupes, |without|))
  }

  /**
   * Nothing is reported for an empty table; otherwise the three critical columns
   * and the one outlier class are reported, and no temperature recommendation is
   * made since that column cannot be NULL.
   */
  lemma QualityReportShape(cities: seq<City>, ws: seq<WeatherRecord>)
    ensures var r := QualityReportOf(cities, ws);
      && (ws == [] ==> r == EmptyReport)
      && (ws != [] ==> r.missingValues.Keys == {Temperature, Humidity, Pressure}
                       && r.outliers.Keys == {"extreme_temperatures"}
                       && r.missingValues[Temperature] == 0)
      && (forall n :: HandleNulls(Temperature, n) !in r.recommendations)
  {
    if ws != [] {
      var r := QualityReportOf(cities, ws);
      RecommendationsIff(0, CountNullHumidity(ws), CountNullPressure(ws), CountExtreme(ws),
                         r.duplicateTimestamps, |r.citiesWithoutData|);
    }
  }

  /** For a non-empty table, the duplicate count is zero exactly when no city has two readings at one time. */
  lemma QualityReportDupesIff(cities: seq<City>, ws: seq<WeatherRecord>)
    requires ws != []
    ensures QualityReportOf(cities, ws).duplicateTimestamps == 0 <==> forall c :: c in cities ==> DistinctTimes(ws, c.id)
  {
    TotalDupesZeroIff(cities, ws);
  }

  /**
   * For a non-empty table, every city without readings is listed by name, and
   * every listed name is that of a city without readings.
   */
  lemma QualityReportListsCities(cities: seq<City>, ws: seq<WeatherRecord>)
    requires ws != []
    ensures var listed := QualityReportOf(cities, ws).citiesWithoutData;
      && (forall c :: c in cities && (forall w :: w in ws ==> w.cityId != c.id) ==> c.name in listed)
      && (forall n :: n in listed ==> exists c :: c in cities && c.name == n && forall w :: w in ws ==> w.cityId != c.id)
  {
    var without := CitiesWithoutReadings(cities, ws);
    var names := Names(without);
    forall c | c in cities && (forall w :: w in ws ==> w.cityId != c.id)
      ensures c.name in names
    {
      var k :| 0 <= k < |without| && without[k] == c;
      assert names[k] == c.name;
    }
    forall n | n in names
      ensures exists c :: c in cities && c.name == n && forall w :: w in ws ==> w.cityId != c.id
    {
      var k :| 0 <= k < |names| && names[k] == n;
      assert without[k] in without;
    }
  }

  /**
   * For a non-empty table, the humidity, pressure, outlier, duplicate and
   * missing-city recommendations are each made exactly when their count is positive.
   */
  lemma QualityReportRecommends(cities: seq<City>, ws: seq<WeatherRecord>)
    requires ws != []
    ensures var r := QualityReportOf(cities, ws);
      && (forall n :: HandleNulls(Humidity, n) in r.recommendations <==> n == CountNullHumidity(ws) > 0)
      && (forall n :: HandleNulls(Pressure, n) in r.recommendations <==> n == CountNullPressure(ws) > 0)
      && (forall n :: ReviewExtremeTemperatures(n) in r.recommendations <==> n == CountExtreme(ws) > 0)
      && (forall n :: DuplicateTimestamps(n) in r.recommendations <==> n == r.duplicateTimestamps > 0)
      && (forall n :: CitiesWithoutData(n) in r.recommendations <==> n == |r.citiesWithoutData| > 0)
  {
    var r := QualityReportOf(cities, ws);
    RecommendationsIff(0, CountNullHumidity(ws), CountNullPressure(ws), CountExtreme(ws),
                       r.duplicateTimestamps, |r.citiesWithoutData|);
  }

  /** The duplicate-timestamp loop of `get_data_quality_report`: one grouped query per city, the excesses summed. */
  method SumCityDupes(cities: seq<City>, ws: seq<WeatherRecord>) returns (totalDupes: nat)
    ensures totalDupes == TotalDupes(cities, ws)
  {
    totalDupes := 0;
    var i := 0;
    while i < |cities|
      invariant 0 <= i <= |cities|
      invariant totalDupes == TotalDupes(cities[..i], ws)
    {
      assert cities[..i + 1][..i] == cities[..i];
      var dupes := CityDupes(TimestampsOf(ws, cities[i].id));
      totalDupes := totalDupes + dupes;
      i := i + 1;
    }
    assert cities[..i] == cities;
  }

  /** `get_data_quality_report` on the session's tables; the per-city duplicate counts are summed in a loop. */
  method GetDataQualityReport(session: Session) returns (report: QualityReport)
    ensures report == QualityReportOf(session.cities, session.weather)
  {
    var ws := session.weather;
    if |ws| == 0 {
      return EmptyReport;
    }
    var nullHumidity := CountNullHumidity(ws);
    var nullPressure := CountNullPressure(ws);
    var missing := map[Temperature := 0, Humidity := nullHumidity, Pressure := nullPressure];
    var recommendations := AppendIf([], false, HandleNulls(Temperature, 0));
    recommendations := AppendIf(recommendations, nullHumidity > 0, HandleNulls(Humidity, nullHumidity));
    recommendations := AppendIf(recommendations, nullPressure > 0, HandleNulls(Pressure, nullPressure));
    var extreme := CountExtreme(ws);
    recommendations := AppendIf(recommendations, extreme > 0, ReviewExtremeTemperatures(extreme));
    var cities := session.cities;
    var totalDupes := SumCityDupes(cities, ws);
    recommendations := AppendIf(recommendations, totalDupes > 0, DuplicateTimestamps(totalDupes));
    var without := Names(CitiesWithoutReadings(cities, ws));
    recommendations := AppendIf(recommendations, |without| > 0, CitiesWithoutData(|without|));
    report := QualityReport(missing, map["extreme_temperatures" := extreme], totalDupes, without, recommendations);
  }
}
