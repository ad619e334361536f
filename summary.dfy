/** The combination step of `displaySummary`: totals over every mandal record,
    the heading name, and the number of distinct FPS shops that are some
    school's nearest within 2 km. */
module Summary {
  import opened JsValues
  import opened JsMaps
  import opened Bands
  import opened Indexing
  import opened DistanceMatrix

  /** `combinedStats` */
  datatype CombinedStats = CombinedStats(
    name: string,
    totalFps: nat,
    totalSchools: nat,
    totalStudents: JsNumber,
    fpsSupplyingSchools: nat,
    stats: BandStats)

  /** Without mandals the function returns before computing anything; with a
      single mandal whose name is not text, `toUpperCase` throws before any
      total is formed. */
  datatype SummaryOutcome = NoMandals | NameNotText | Combined(summary: CombinedStats)

  const AllMandals := "ALL MANDALS"

  /** The heading: the fixed label for several mandals, else the single
      mandal's name upper-cased; None when that name is not text. */
  function HeadingName(ms: seq<Mandal>): (r: Option<string>)
    requires |ms| > 0
    ensures |ms| > 1 ==> r == Some(AllMandals)
    ensures |ms| == 1 ==> (r.Some? <==> ms[0].name.Text?)
    ensures |ms| == 1 && r.Some? ==>
              |r.value| == |ms[0].name.s| && forall i :: 0 <= i < |r.value| ==> r.value[i] == UpperChar(ms[0].name.s[i])
  {
    if |ms| > 1 then Some(AllMandals)
    else if ms[0].name.Text? then Some(ToUpper(ms[0].name.s))
    else None
  }

  function SumFps(ms: seq<Mandal>): nat {
    if ms == [] then 0 else SumFps(ms[..|ms| - 1]) + |ms[|ms| - 1].fpsShops|
  }

  function SumSchools(ms: seq<Mandal>): nat {
    if ms == [] then 0 else SumSchools(ms[..|ms| - 1]) + |ms[|ms| - 1].schools|
  }

  /** `0 + m1.totalStudents + ...`: NaN as soon as one record holds NaN. */
  function SumStudents(ms: seq<Mandal>): (r: JsNumber)
    ensures r.Finite? <==> forall i :: 0 <= i < |ms| ==> ms[i].totalStudents.Finite?
  {
    if ms == [] then Finite(0.0) else Add(SumStudents(ms[..|ms| - 1]), ms[|ms| - 1].totalStudents)
  }

  function SumStats(ms: seq<Mandal>): (r: BandStats)
    ensures forall b :: r.Count(b) == SumBand(ms, b)
  {
    if ms == [] then NoBands else Plus(SumStats(ms[..|ms| - 1]), ms[|ms| - 1].stats)
  }

  /** One band's counter summed over the records. */
  function SumBand(ms: seq<Mandal>, b: Band): nat {
    if ms == [] then 0 else SumBand(ms[..|ms| - 1], b) + ms[|ms| - 1].stats.Count(b)
  }

  /** The shops named by the first n nearest entries at 2 km or less. */
  function SupplyingUpTo(nearest: JsMap<Cell, Nearest>, n: nat): set<Cell>
    requires nearest.Valid() && n <= |nearest.keys|
  {
    if n == 0 then {}
    else
      var e := nearest.entries[nearest.keys[n - 1]];
      SupplyingUpTo(nearest, n - 1) + if e.distance <= 2.0 then {e.nearestFps} else {}
  }

  /** A shop is supplying exactly when some entry names it at a distance of at
      most 2 km, the bound included. */
  lemma {:induction false} SupplyingMembers(nearest: JsMap<Cell, Nearest>, n: nat, shop: Cell)
    requires nearest.Valid() && n <= |nearest.keys|
    ensures shop in SupplyingUpTo(nearest, n) <==>
              exists t :: 0 <= t < n && nearest.entries[nearest.keys[t]].nearestFps == shop
                                     && nearest.entries[nearest.keys[t]].distance <= 2.0
  {
    if n > 0 {
      SupplyingMembers(nearest, n - 1, shop);
      var e := nearest.entries[nearest.keys[n - 1]];
      if e.nearestFps == shop && e.distance <= 2.0 {
        assert nearest.entries[nearest.keys[n - 1]].nearestFps == shop;
      }
    }
  }

  /** How many of the first n entries lie within 2 km. */
  function CountWithin2km(nearest: JsMap<Cell, Nearest>, n: nat): nat
    requires nearest.Valid() && n <= |nearest.keys|
  {
    if n == 0 then 0
    else CountWithin2km(nearest, n - 1) + if nearest.entries[nearest.keys[n - 1]].distance <= 2.0 then 1 else 0
  }

  /** There are no more supplying shops than schools within 2 km of their
      nearest shop, and so no more than schools in the map. */
  lemma {:induction false} SupplyingBounded(nearest: JsMap<Cell, Nearest>, n: nat)
    requires nearest.Valid() && n <= |nearest.keys|
    ensures |SupplyingUpTo(nearest, n)| <= CountWithin2km(nearest, n) <= n
  {
    if n > 0 {
      SupplyingBounded(nearest, n - 1);
    }
  }

  /** The `forEach` over the records, summing their totals. */
  method SumMandals(mandals: seq<Mandal>) returns (totalFps: nat, totalSchools: nat, totalStudents: JsNumber, stats: BandStats)
    ensures totalFps == SumFps(mandals) && totalSchools == SumSchools(mandals)
    ensures totalStudents == SumStudents(mandals) && stats == SumStats(mandals)
  {
    totalFps, totalSchools, totalStudents, stats := 0, 0, Finite(0.0), NoBands;
    var i := 0;
    while i < |mandals|
      invariant 0 <= i <= |mandals|
      invariant totalFps == SumFps(mandals[..i]) && totalSchools == SumSchools(mandals[..i])
      invariant totalStudents == SumStudents(mandals[..i]) && stats == SumStats(mandals[..i])
    {
      var mandal := mandals[i];
      assert mandals[..i + 1][..i] == mandals[..i];
      totalFps := totalFps + |mandal.fpsShops|;
      totalSchools := totalSchools + |mandal.schools|;
      totalStudents := Add(totalStudents, mandal.totalStudents);
      stats := Plus(stats, mandal.stats);
      i := i + 1;
    }
    assert mandals[..|mandals|] == mandals;
  }

  /** The `forEach` over the nearest map, collecting the shops within 2 km. */
  method CollectSupplying(nearestFpsData: JsMap<Cell, Nearest>) returns (uniqueSupplyingFps: set<Cell>)
    requires nearestFpsData.Valid()
    ensures uniqueSupplyingFps == SupplyingUpTo(nearestFpsData, |nearestFpsData.keys|)
  {
    uniqueSupplyingFps := {};
    var t := 0;
    while t < |nearestFpsData.keys|
      invariant 0 <= t <= |nearestFpsData.keys|
      invariant uniqueSupplyingFps == SupplyingUpTo(nearestFpsData, t)
    {
      var nearestData := nearestFpsData.entries[nearestFpsData.keys[t]];
      if nearestData.distance <= 2.0 {
        uniqueSupplyingFps := uniqueSupplyingFps + {nearestData.nearestFps};
      }
      t := t + 1;
    }
  }

  /** The combination as the source computes it: the heading first, then the
      totals in one pass over the records, then the supplying shops in one
      pass over the nearest map. */
  method DisplaySummary(mandalData: JsMap<Cell, Mandal>, nearestFpsData: JsMap<Cell, Nearest>) returns (outcome: SummaryOutcome)
    requires mandalData.Valid() && nearestFpsData.Valid()
    ensures outcome == NoMandals <==> mandalData.Size() == 0
    ensures outcome == NameNotText <==> mandalData.Size() > 0 && HeadingName(mandalData.Values()).None?
    ensures outcome.Combined? ==>
              var ms := mandalData.Values();
              outcome.summary == CombinedStats(HeadingName(ms).value, SumFps(ms), SumSchools(ms), SumStudents(ms),
                                               |SupplyingUpTo(nearestFpsData, |nearestFpsData.keys|)|, SumStats(ms))
  {
    var mandals := mandalData.Values();
    if |mandals| == 0 {
      return NoMandals;
    }
    var name: string;
    if |mandals| > 1 {
      name := AllMandals;
    } else if mandals[0].name.Text? {
      name := ToUpper(mandals[0].name.s);
    } else {
      return NameNotText;
    }
    var totalFps, totalSchools, totalStudents, stats := SumMandals(mandals);
    var uniqueSupplyingFps := CollectSupplying(nearestFpsData);
    outcome := Combined(CombinedStats(name, totalFps, totalSchools, totalStudents, |uniqueSupplyingFps|, stats));
  }

  /** The points of a collection whose owner is m, by owner map. */
  ghost function OwnedBy(owners: map<Cell, Cell>, m: Cell): set<Cell> {
    set k | k in owners && owners[k] == m
  }

  /** The points whose owner is one of ms. */
  ghost function OwnedByAny(owners: map<Cell, Cell>, ms: seq<Cell>): set<Cell> {
    set k | k in owners && owners[k] in ms
  }

  /** Adding an owner not yet listed adds its points, which no listed owner
      has, so the counts add. */
  lemma OwnedSplit(owners: map<Cell, Cell>, ms: seq<Cell>, m: Cell)
    requires m !in ms
    ensures |OwnedByAny(owners, ms + [m])| == |OwnedByAny(owners, ms)| + |OwnedBy(owners, m)|
  {
    assert OwnedByAny(owners, ms + [m]) == OwnedByAny(owners, ms) + OwnedBy(owners, m);
    assert OwnedByAny(owners, ms) * OwnedBy(owners, m) == {};
  }

  ghost function FpsOwners(fps: JsMap<Cell, FpsData>): map<Cell, Cell> {
    map k | k in fps.entries :: fps.entries[k].mandal
  }

  ghost function SchoolOwners(schools: JsMap<Cell, SchoolData>): map<Cell, Cell> {
    map k | k in schools.entries :: schools.entries[k].mandal
  }

  lemma {:induction false} FpsSumOwned(st: PointIndex, n: nat)
    requires st.mandals.Valid() && n <= |st.mandals.keys|
    requires forall m :: m in st.mandals.entries ==> st.mandals.entries[m].fpsShops == FpsOf(st.fps, m)
    ensures SumFps(st.mandals.Values()[..n]) == |OwnedByAny(FpsOwners(st.fps), st.mandals.keys[..n])|
  {
    if n > 0 {
      var ms := st.mandals.Values();
      var m := st.mandals.keys[n - 1];
      FpsSumOwned(st, n - 1);
      assert ms[..n][..n - 1] == ms[..n - 1];
      assert st.mandals.keys[..n] == st.mandals.keys[..n - 1] + [m];
      OwnedSplit(FpsOwners(st.fps), st.mandals.keys[..n - 1], m);
      assert OwnedBy(FpsOwners(st.fps), m) == FpsOf(st.fps, m);
    }
  }

  lemma {:induction false} SchoolSumOwned(st: PointIndex, n: nat)
    requires st.mandals.Valid() && n <= |st.mandals.keys|
    requires forall m :: m in st.mandals.entries ==> st.mandals.entries[m].schools == SchoolsOf(st.schools, m)
    ensures SumSchools(st.mandals.Values()[..n]) == |OwnedByAny(SchoolOwners(st.schools), st.mandals.keys[..n])|
  {
    if n > 0 {
      var ms := st.mandals.Values();
      var m := st.mandals.keys[n - 1];
      SchoolSumOwned(st, n - 1);
      assert ms[..n][..n - 1] == ms[..n - 1];
      assert st.mandals.keys[..n] == st.mandals.keys[..n - 1] + [m];
      OwnedSplit(SchoolOwners(st.schools), st.mandals.keys[..n - 1], m);
      assert OwnedBy(SchoolOwners(st.schools), m) == SchoolsOf(st.schools, m);
    }
  }

  /** Every point's mandal is registered, so the records' shop sets partition
      the FPS points: the combined FPS total is the number of FPS points. */
  lemma FpsTotal(st: PointIndex)
    requires WellFormed(st)
    ensures SumFps(st.mandals.Values()) == |st.fps.entries|
  {
    var keys := st.mandals.keys;
    forall m | m in st.mandals.entries
      ensures st.mandals.entries[m].fpsShops == FpsOf(st.fps, m)
    {
      assert MandalAgrees(st, m);
    }
    FpsSumOwned(st, |keys|);
    assert st.mandals.Values()[..|keys|] == st.mandals.Values();
    assert keys[..|keys|] == keys;
    forall k | k in st.fps.entries
      ensures k in OwnedByAny(FpsOwners(st.fps), keys)
    {
      var m := st.fps.entries[k].mandal;
      if m !in keys {
        UnlistedAbsent(st.mandals, m);
      }
    }
    assert OwnedByAny(FpsOwners(st.fps), keys) == st.fps.entries.Keys;
  }

  /** Likewise the records' school sets partition the school points. */
  lemma SchoolsTotal(st: PointIndex)
    requires WellFormed(st)
    ensures SumSchools(st.mandals.Values()) == |st.schools.entries|
  {
    var keys := st.mandals.keys;
    forall m | m in st.mandals.entries
      ensures st.mandals.entries[m].schools == SchoolsOf(st.schools, m)
    {
      assert MandalAgrees(st, m);
    }
    SchoolSumOwned(st, |keys|);
    assert st.mandals.Values()[..|keys|] == st.mandals.Values();
    assert keys[..|keys|] == keys;
    forall k | k in st.schools.entries
      ensures k in OwnedByAny(SchoolOwners(st.schools), keys)
    {
      var m := st.schools.entries[k].mandal;
      if m !in keys {
        UnlistedAbsent(st.mandals, m);
      }
    }
    assert OwnedByAny(SchoolOwners(st.schools), keys) == st.schools.entries.Keys;
  }
}
