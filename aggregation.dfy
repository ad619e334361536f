/** The fourth part of `processDataWithRoadDistances`: a walk over the
    nearest-FPS map, in school order, that counts each school in one distance
    band of its own mandal. */
module Aggregation {
  import opened JsValues
  import opened JsMaps
  import opened Bands
  import opened Indexing
  import opened DistanceMatrix

  /** The band counts that the first n entries of the nearest map contribute
      to mandal m. */
  function StatsOf(nearest: JsMap<Cell, Nearest>, n: nat, m: Cell): BandStats
    requires nearest.Valid() && n <= |nearest.keys|
  {
    if n == 0 then NoBands
    else
      var e := nearest.entries[nearest.keys[n - 1]];
      var before := StatsOf(nearest, n - 1, m);
      if e.mandal == m then Bump(before, BandOf(e.distance)) else before
  }

  /** How many of the first n entries belong to mandal m. */
  function CountOf(nearest: JsMap<Cell, Nearest>, n: nat, m: Cell): nat
    requires nearest.Valid() && n <= |nearest.keys|
  {
    if n == 0 then 0
    else CountOf(nearest, n - 1, m) + if nearest.entries[nearest.keys[n - 1]].mandal == m then 1 else 0
  }

  /** How many of the first n entries belong to mandal m and lie in band b. */
  function CountInBand(nearest: JsMap<Cell, Nearest>, n: nat, m: Cell, b: Band): nat
    requires nearest.Valid() && n <= |nearest.keys|
  {
    if n == 0 then 0
    else
      var e := nearest.entries[nearest.keys[n - 1]];
      CountInBand(nearest, n - 1, m, b) + if e.mandal == m && BandOf(e.distance) == b then 1 else 0
  }

  /** Each band counter holds exactly the mandal's schools in that band. */
  lemma {:induction false} StatsCountBands(nearest: JsMap<Cell, Nearest>, n: nat, m: Cell, b: Band)
    requires nearest.Valid() && n <= |nearest.keys|
    ensures StatsOf(nearest, n, m).Count(b) == CountInBand(nearest, n, m, b)
  {
    if n > 0 {
      StatsCountBands(nearest, n - 1, m, b);
    }
  }

  /** Each entry of the mandal is counted once: the counters add up to the
      number of its entries. */
  lemma {:induction false} StatsTotal(nearest: JsMap<Cell, Nearest>, n: nat, m: Cell)
    requires nearest.Valid() && n <= |nearest.keys|
    ensures StatsOf(nearest, n, m).Total() == CountOf(nearest, n, m)
  {
    if n > 0 {
      StatsTotal(nearest, n - 1, m);
    }
  }

  /** The bands partition the mandal's schools: each is in exactly one band,
      so the four band counts add up to the number of its schools. */
  lemma {:induction false} BandsPartition(nearest: JsMap<Cell, Nearest>, n: nat, m: Cell)
    requires nearest.Valid() && n <= |nearest.keys|
    ensures CountInBand(nearest, n, m, LessThan1km) + CountInBand(nearest, n, m, Between1And2km)
          + CountInBand(nearest, n, m, Between2And5km) + CountInBand(nearest, n, m, MoreThan5km)
         == CountOf(nearest, n, m)
  {
    if n > 0 {
      BandsPartition(nearest, n - 1, m);
    }
  }

  /** The school names among the first n entries that belong to mandal m. */
  ghost function MatchingKeys(nearest: JsMap<Cell, Nearest>, n: nat, m: Cell): set<Cell>
    requires nearest.Valid() && n <= |nearest.keys|
  {
    if n == 0 then {}
    else
      var k := nearest.keys[n - 1];
      MatchingKeys(nearest, n - 1, m) + if nearest.entries[k].mandal == m then {k} else {}
  }

  /** A name is among the matching ones exactly when one of the first n
      entries has it and belongs to m. */
  lemma {:induction false} MatchingKeysMembers(nearest: JsMap<Cell, Nearest>, n: nat, m: Cell)
    requires nearest.Valid() && n <= |nearest.keys|
    ensures forall x :: x in MatchingKeys(nearest, n, m) ==> x in nearest.keys[..n]
    ensures forall t :: 0 <= t < n ==>
              (nearest.keys[t] in MatchingKeys(nearest, n, m) <==> nearest.entries[nearest.keys[t]].mandal == m)
  {
    if n > 0 {
      MatchingKeysMembers(nearest, n - 1, m);
      assert nearest.keys[..n] == nearest.keys[..n - 1] + [nearest.keys[n - 1]];
    }
  }

  lemma {:induction false} CountIsCardinality(nearest: JsMap<Cell, Nearest>, n: nat, m: Cell)
    requires nearest.Valid() && n <= |nearest.keys|
    ensures |MatchingKeys(nearest, n, m)| == CountOf(nearest, n, m)
  {
    if n > 0 {
      CountIsCardinality(nearest, n - 1, m);
      LaterNotMatched(nearest, n - 1, m, n - 1);
    }
  }

  /** A later entry's name is not among the first n matching ones. */
  lemma {:induction false} LaterNotMatched(nearest: JsMap<Cell, Nearest>, n: nat, m: Cell, i: nat)
    requires nearest.Valid() && n <= i < |nearest.keys|
    ensures nearest.keys[i] !in MatchingKeys(nearest, n, m)
  {
    if n > 0 {
      LaterNotMatched(nearest, n - 1, m, i);
      assert nearest.keys[n - 1] != nearest.keys[i];
    }
  }

  /** When the nearest map lists every school, in the schools' order, and
      tags each with that school's mandal, it counts each mandal's schools
      exactly once. */
  lemma NearestCountsSchools(schools: JsMap<Cell, SchoolData>, nearest: JsMap<Cell, Nearest>, m: Cell)
    requires schools.Valid() && nearest.Valid() && nearest.keys == schools.keys
    requires forall t :: 0 <= t < |schools.keys| ==>
               nearest.entries[schools.keys[t]].mandal == schools.entries[schools.keys[t]].mandal
    ensures CountOf(nearest, |nearest.keys|, m) == |SchoolsOf(schools, m)|
  {
    var n := |nearest.keys|;
    CountIsCardinality(nearest, n, m);
    MatchingKeysMembers(nearest, n, m);
    assert nearest.keys[..n] == schools.keys;
    forall k | k in SchoolsOf(schools, m)
      ensures k in MatchingKeys(nearest, n, m)
    {
      if k !in schools.keys {
        UnlistedAbsent(schools, k);
      }
      var t :| 0 <= t < |schools.keys| && schools.keys[t] == k;
      assert nearest.keys[t] == k;
    }
    assert MatchingKeys(nearest, n, m) == SchoolsOf(schools, m);
  }

  /** One entry of the walk: the school's mandal record, when the registry
      has one, gets one more school in the band of the entry's distance. */
  function TallyOne(registry: JsMap<Cell, Mandal>, e: Nearest): JsMap<Cell, Mandal> {
    if e.mandal in registry.entries then
      var r := registry.entries[e.mandal];
      registry.Set(e.mandal, r.(stats := Bump(r.stats, BandOf(e.distance))))
    else registry
  }

  /** The registry after the first n entries of the walk. */
  function TallyUpTo(registry: JsMap<Cell, Mandal>, nearest: JsMap<Cell, Nearest>, n: nat): JsMap<Cell, Mandal>
    requires nearest.Valid() && n <= |nearest.keys|
  {
    if n == 0 then registry
    else TallyOne(TallyUpTo(registry, nearest, n - 1), nearest.entries[nearest.keys[n - 1]])
  }

  /** The walk keeps the registry's keys and their order. */
  lemma {:induction false} TallyKeepsKeys(registry: JsMap<Cell, Mandal>, nearest: JsMap<Cell, Nearest>, n: nat)
    requires registry.Valid() && nearest.Valid() && n <= |nearest.keys|
    ensures TallyUpTo(registry, nearest, n).Valid()
    ensures TallyUpTo(registry, nearest, n).keys == registry.keys
    ensures forall m :: m in TallyUpTo(registry, nearest, n).entries <==> m in registry.entries
  {
    if n > 0 {
      TallyKeepsKeys(registry, nearest, n - 1);
    }
  }

  /** Started from a record r with its counters at 0, the walk keeps every
      field of r but the counters, which end up as the entries' band counts
      for mandal m. */
  lemma {:induction false} TallyEffect(registry: JsMap<Cell, Mandal>, nearest: JsMap<Cell, Nearest>, n: nat,
                                       m: Cell, r: Mandal)
    requires nearest.Valid() && n <= |nearest.keys|
    requires m in registry.entries && registry.entries[m] == r && r.stats == NoBands
    ensures m in TallyUpTo(registry, nearest, n).entries
    ensures TallyUpTo(registry, nearest, n).entries[m] == r.(stats := StatsOf(nearest, n, m))
  {
    if n > 0 {
      TallyEffect(registry, nearest, n - 1, m, r);
    }
  }

  /** The walk as the source writes it, over the nearest map in its order. */
  method TallyBands(mandals: JsMap<Cell, Mandal>, nearest: JsMap<Cell, Nearest>) returns (tallied: JsMap<Cell, Mandal>)
    requires nearest.Valid()
    ensures tallied == TallyUpTo(mandals, nearest, |nearest.keys|)
  {
    tallied := mandals;
    var t := 0;
    while t < |nearest.keys|
      invariant 0 <= t <= |nearest.keys|
      invariant tallied == TallyUpTo(mandals, nearest, t)
    {
      var schoolName := nearest.keys[t];
      var nearestData := nearest.entries[schoolName];
      if tallied.Has(nearestData.mandal) {
        var mandal := tallied.Get(nearestData.mandal);
        var distance := nearestData.distance;
        var stats := mandal.stats;
        if distance < 1.0 {
          stats := stats.(lessThan1km := stats.lessThan1km + 1);
        } else if distance < 2.0 {
          stats := stats.(between1to2km := stats.between1to2km + 1);
        } else if distance < 5.0 {
          stats := stats.(between2to5km := stats.between2to5km + 1);
        } else {
          stats := stats.(moreThan5km := stats.moreThan5km + 1);
        }
        assert stats == Bump(mandal.stats, BandOf(distance));
        tallied := tallied.Set(nearestData.mandal, mandal.(stats := stats));
      }
      t := t + 1;
    }
  }

  /** The counters a nearest map over all schools gives a mandal add up to
      its number of schools. */
  lemma NearestStatsTotal(schools: JsMap<Cell, SchoolData>, nearest: JsMap<Cell, Nearest>, m: Cell)
    requires schools.Valid() && nearest.Valid() && nearest.keys == schools.keys
    requires forall t :: 0 <= t < |schools.keys| ==>
               nearest.entries[schools.keys[t]].mandal == schools.entries[schools.keys[t]].mandal
    ensures StatsOf(nearest, |nearest.keys|, m).Total() == |SchoolsOf(schools, m)|
  {
    NearestCountsSchools(schools, nearest, m);
    StatsTotal(nearest, |nearest.keys|, m);
  }
}
