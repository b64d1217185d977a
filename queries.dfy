/**
 * The SELECTs the database operations issue, as functions over table contents:
 * first-match lookups, existence checks, range filters and `ORDER BY`.
 * A `.first()` without `ORDER BY` is taken to return the first row in table order.
 */
module Queries {
  import opened Wrappers
  import opened Models

  /** `query(City).filter(City.city_id == apiId).first()` */
  function CityByApiId(cities: seq<City>, apiId: int): (r: Option<City>)
    ensures r.Some? ==> r.value in cities && r.value.cityId == apiId
    ensures r.None? <==> forall c :: c in cities ==> c.cityId != apiId
  {
    if cities == [] then None
    else if cities[0].cityId == apiId then Some(cities[0])
    else CityByApiId(cities[1..], apiId)
  }

  /** A lookup on a table extended at the end finds the same row when the original table had one. */
  lemma {:induction false} CityByApiIdAppend(a: seq<City>, b: seq<City>, apiId: int)
    ensures CityByApiId(a + b, apiId) ==
      if CityByApiId(a, apiId).Some? then CityByApiId(a, apiId) else CityByApiId(b, apiId)
  {
    if a != [] {
      assert (a + b)[1..] == a[1..] + b;
      CityByApiIdAppend(a[1..], b, apiId);
    } else {
      assert a + b == b;
    }
  }

  /** Rows appended after the first match do not change what the lookup finds. */
  lemma CityByApiIdStable(a: seq<City>, b: seq<City>, apiId: int)
    requires a <= b && CityByApiId(a, apiId).Some?
    ensures CityByApiId(b, apiId) == CityByApiId(a, apiId)
  {
    assert b == a + b[|a|..];
    CityByApiIdAppend(a, b[|a|..], apiId);
  }

  /** With the API id unique, the lookup returns the one row that carries it. */
  lemma {:induction false} CityByApiIdUnique(cities: seq<City>, k: nat)
    requires k < |cities|
    requires forall i, j :: 0 <= i < j < |cities| ==> cities[i].cityId != cities[j].cityId
    ensures CityByApiId(cities, cities[k].cityId) == Some(cities[k])
  {
    if k > 0 {
      var rest := cities[1..];
      assert rest[k - 1] == cities[k];
      CityByApiIdUnique(rest, k - 1);
    }
  }

  /** `query(City).filter(City.name == name).first()`; names are not unique. */
  function CityByName(cities: seq<City>, name: string): (r: Option<City>)
    ensures r.Some? ==> r.value in cities && r.value.name == name
    ensures r.None? <==> forall c :: c in cities ==> c.name != name
  {
    if cities == [] then None
    else if cities[0].name == name then Some(cities[0])
    else CityByName(cities[1..], name)
  }

  /** `query(WeatherData).filter(city_id == cityRowId, timestamp == ts).first()` is not None. */
  predicate HasReading(weather: seq<WeatherRecord>, cityRowId: int, ts: Timestamp) {
    exists r :: r in weather && r.cityId == cityRowId && r.timestamp == ts
  }

  /** Position of the `daily_weather_stats` row for (cityRowId, date), if any. */
  function StatIndex(stats: seq<DailyStat>, cityRowId: int, date: Timestamp): (r: Option<nat>)
    ensures r.Some? ==> r.value < |stats| && stats[r.value].cityId == cityRowId && stats[r.value].date == date
    ensures r.None? <==> forall k :: 0 <= k < |stats| ==> !(stats[k].cityId == cityRowId && stats[k].date == date)
  {
    if stats == [] then None
    else if stats[0].cityId == cityRowId && stats[0].date == date then Some(0)
    else
      match StatIndex(stats[1..], cityRowId, date)
      case None => None
      case Some(k) => Some(k + 1)
  }

  /** With (city, date) unique, the lookup finds the one row with that key. */
  lemma StatIndexUnique(stats: seq<DailyStat>, k: nat)
    requires k < |stats| && StatKeysUnique(stats)
    ensures StatIndex(stats, stats[k].cityId, stats[k].date) == Some(k)
  {
    var r := StatIndex(stats, stats[k].cityId, stats[k].date);
    assert r.Some?;
    if r.value != k {
      assert false;
    }
  }

  predicate SortedBy<T>(s: seq<T>, key: T -> int) {
    forall i, j :: 0 <= i < j < |s| ==> key(s[i]) <= key(s[j])
  }

  lemma SortedCons<T>(h: T, t: seq<T>, key: T -> int)
    requires SortedBy(t, key) && forall e :: e in t ==> key(h) <= key(e)
    ensures SortedBy([h] + t, key)
  {
    var r := [h] + t;
    forall i, j | 0 <= i < j < |r|
      ensures key(r[i]) <= key(r[j])
    {
      assert r[j] == t[j - 1];
      if i > 0 {
        assert r[i] == t[i - 1];
      } else {
        assert t[j - 1] in t;
      }
    }
  }

  /** Inserts `x` into a sorted sequence, after the elements with an equal key. */
  function InsertBy<T>(x: T, s: seq<T>, key: T -> int): (r: seq<T>)
    requires SortedBy(s, key)
    ensures SortedBy(r, key)
    ensures multiset(r) == multiset(s) + multiset{x}
    ensures forall e :: e in r ==> e == x || e in s
  {
    if s == [] || key(x) < key(s[0]) then
      SortedCons(x, s, key);
      [x] + s
    else
      var tail := InsertBy(x, s[1..], key);
      assert s == [s[0]] + s[1..];
      SortedCons(s[0], tail, key);
      [s[0]] + tail
  }

  /** `ORDER BY key`: the rows in ascending order of the key, as a permutation of the input. */
  function SortBy<T>(s: seq<T>, key: T -> int): (r: seq<T>)
    ensures SortedBy(r, key)
    ensures multiset(r) == multiset(s)
  {
    if s == [] then []
    else
      var init := s[..|s| - 1];
      assert s == init + [s[|s| - 1]];
      InsertBy(s[|s| - 1], SortBy(init, key), key)
  }

  /** A permutation keeps length and membership. */
  lemma SortByContents<T>(s: seq<T>, key: T -> int)
    ensures |SortBy(s, key)| == |s|
    ensures forall e :: e in SortBy(s, key) <==> e in s
  {
    var r := SortBy(s, key);
    assert |multiset(r)| == |multiset(s)|;
    forall e
      ensures e in r <==> e in s
    {
      assert e in r <==> e in multiset(r);
      assert e in s <==> e in multiset(s);
    }
  }

  /** Taking the first element out of one and a matching element out of the other keeps two permutations permutations. */
  lemma RemoveMatching<T>(a: seq<T>, b: seq<T>, j: nat)
    requires a != [] && j < |b| && b[j] == a[0] && multiset(a) == multiset(b)
    ensures multiset(a[1..]) == multiset(b[..j] + b[j + 1..])
  {
    var x := a[0];
    assert a == [x] + a[1..];
    assert b == b[..j] + [x] + b[j + 1..];
    var p, q := multiset(a[1..]), multiset(b[..j] + b[j + 1..]);
    assert multiset(a) == multiset{x} + p;
    assert multiset(b) == multiset(b[..j]) + multiset{x} + multiset(b[j + 1..]);
    forall e
      ensures p[e] == q[e]
    {
      assert multiset(a)[e] == multiset(b)[e];
    }
  }
}
