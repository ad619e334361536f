/** `processDataWithRoadDistances` end to end, and the upload handler that
    runs it and shows the summary: the point index, the matrix with the
    nearest-FPS map, the band walk, and what the combined summary then
    reports. */
module Pipeline {
  import opened JsValues
  import opened JsMaps
  import opened Rows
  import opened Bands
  import opened Indexing
  import opened DistanceMatrix
  import opened Aggregation
  import opened Summary

  /** The object the pass returns. */
  datatype Analysis = Analysis(
    mandals: JsMap<Cell, Mandal>,
    distances: seq<PairDistance>,
    nearestFpsForSchools: JsMap<Cell, Nearest>)

  /** The nearest-FPS map the matrix pass leaves: empty without FPS points,
      else one entry per school, in the schools' order, holding the first
      closest FPS point. */
  ghost predicate NearestMapOf(fps: JsMap<Cell, FpsData>, schools: JsMap<Cell, SchoolData>, nearest: JsMap<Cell, Nearest>,
                               route: Router, straight: StraightLine)
    requires fps.Valid() && schools.Valid()
  {
    && nearest.Valid()
    && nearest.keys == (if |fps.keys| == 0 then [] else schools.keys)
    && forall j :: 0 <= j < |schools.keys| && 0 < |fps.keys| ==>
         nearest.entries[schools.keys[j]] == NearestOf(fps, schools, j, |fps.keys|, route, straight)
  }

  /** Every entry of such a map carries its school's mandal. */
  lemma NearestMandals(fps: JsMap<Cell, FpsData>, schools: JsMap<Cell, SchoolData>, nearest: JsMap<Cell, Nearest>,
                       route: Router, straight: StraightLine)
    requires fps.Valid() && schools.Valid() && NearestMapOf(fps, schools, nearest, route, straight)
    ensures forall t :: 0 <= t < |nearest.keys| ==>
              nearest.entries[schools.keys[t]].mandal == schools.entries[schools.keys[t]].mandal
  {
  }

  /** The mandal registry the walk leaves: the indexed records, in their
      order, each with its counters filled in from the nearest map, adding up
      to its schools when there is any FPS point. */
  ghost predicate TalliedFrom(st: PointIndex, nearest: JsMap<Cell, Nearest>, tallied: JsMap<Cell, Mandal>)
    requires nearest.Valid()
  {
    && tallied.Valid() && tallied.keys == st.mandals.keys
    && (forall m :: m in tallied.entries <==> m in st.mandals.entries)
    && (forall m :: m in st.mandals.entries ==> RecordTallied(st, nearest, tallied, m))
  }

  /** Mandal m's record after the walk: the indexed one with its counters
      filled in from the nearest map, adding up to its schools when there is
      any FPS point and all 0 when there is none. */
  ghost predicate RecordTallied(st: PointIndex, nearest: JsMap<Cell, Nearest>, tallied: JsMap<Cell, Mandal>, m: Cell)
    requires nearest.Valid() && m in st.mandals.entries
  {
    && m in tallied.entries
    && tallied.entries[m] == st.mandals.entries[m].(stats := StatsOf(nearest, |nearest.keys|, m))
    && tallied.entries[m].stats.Total() == if |st.fps.keys| == 0 then 0 else |st.mandals.entries[m].schools|
  }

  /** The pass: index the rows, visit every pair, then tally each school's
      nearest distance into its mandal's bands; no result when the indexing
      throws. */
  method ProcessDataWithRoadDistances(rows: seq<Row>, route: Router, straight: StraightLine)
    returns (outcome: Option<Analysis>, processed: nat)
    ensures outcome.None? <==> Fails(Fields(rows))
    ensures outcome.Some? ==>
            var st := IndexOf(Fields(rows));
            var result := outcome.value;
            && st.fps.Valid() && st.schools.Valid()
            && processed == |st.fps.keys| * |st.schools.keys|
            && result.distances == MatrixOf(st.fps, st.schools, |st.fps.keys|, route, straight)
            && NearestMapOf(st.fps, st.schools, result.nearestFpsForSchools, route, straight)
            && TalliedFrom(st, result.nearestFpsForSchools, result.mandals)
  {
    var st, failed := CollectPoints(rows);
    if failed {
      return None, 0;
    }
    IndexWellFormed(Fields(rows));
    var distances, nearest, p := ComputeDistances(st.fps, st.schools, route, straight);
    assert NearestMapOf(st.fps, st.schools, nearest, route, straight);
    var tallied := TallyBands(st.mandals, nearest);
    FreshRecords(st);
    Tallied(st, nearest, route, straight);
    outcome := Some(Analysis(tallied, distances, nearest));
    processed := p;
  }

  lemma Tallied(st: PointIndex, nearest: JsMap<Cell, Nearest>, route: Router, straight: StraightLine)
    requires st.mandals.Valid() && st.fps.Valid() && st.schools.Valid()
    requires forall m :: m in st.mandals.entries ==>
               st.mandals.entries[m].stats == NoBands && st.mandals.entries[m].schools == SchoolsOf(st.schools, m)
    requires NearestMapOf(st.fps, st.schools, nearest, route, straight)
    ensures TalliedFrom(st, nearest, TallyUpTo(st.mandals, nearest, |nearest.keys|))
  {
    NearestMandals(st.fps, st.schools, nearest, route, straight);
    TallyKeepsKeys(st.mandals, nearest, |nearest.keys|);
    forall m | m in st.mandals.entries
      ensures RecordTallied(st, nearest, TallyUpTo(st.mandals, nearest, |nearest.keys|), m)
    {
      TallyEffect(st.mandals, nearest, |nearest.keys|, m, st.mandals.entries[m]);
      TalliedTotal(st, nearest, m);
    }
  }

  /** The index hands the walk records with counters at 0 and the school
      sets of their points. */
  lemma FreshRecords(st: PointIndex)
    requires WellFormed(st)
    ensures forall m :: m in st.mandals.entries ==>
              st.mandals.entries[m].stats == NoBands && st.mandals.entries[m].schools == SchoolsOf(st.schools, m)
  {
    forall m | m in st.mandals.entries
      ensures st.mandals.entries[m].stats == NoBands && st.mandals.entries[m].schools == SchoolsOf(st.schools, m)
    {
      assert MandalAgrees(st, m);
    }
  }

  /** A mandal's counters after the walk add up to its schools when there is
      an FPS point, and stay at 0 otherwise. */
  lemma TalliedTotal(st: PointIndex, nearest: JsMap<Cell, Nearest>, m: Cell)
    requires st.schools.Valid() && nearest.Valid()
    requires nearest.keys == if |st.fps.keys| == 0 then [] else st.schools.keys
    requires forall t :: 0 <= t < |nearest.keys| ==>
               nearest.entries[st.schools.keys[t]].mandal == st.schools.entries[st.schools.keys[t]].mandal
    ensures StatsOf(nearest, |nearest.keys|, m).Total() == if |st.fps.keys| == 0 then 0 else |SchoolsOf(st.schools, m)|
  {
    if |st.fps.keys| > 0 {
      NearestStatsTotal(st.schools, nearest, m);
    } else {
      assert StatsOf(nearest, 0, m) == NoBands;
    }
  }

  /** Records that differ at most in their counters have the same shop and
      school totals. */
  lemma {:induction false} SameSets(xs: seq<Mandal>, ys: seq<Mandal>)
    requires |xs| == |ys|
    requires forall i :: 0 <= i < |xs| ==> xs[i].fpsShops == ys[i].fpsShops && xs[i].schools == ys[i].schools
    ensures SumFps(xs) == SumFps(ys) && SumSchools(xs) == SumSchools(ys)
  {
    if xs != [] {
      SameSets(xs[..|xs| - 1], ys[..|ys| - 1]);
    }
  }

  /** With every record's counters adding up to its schools, the combined
      counters add up to the combined school total. */
  lemma {:induction false} BandsCoverSchools(ms: seq<Mandal>)
    requires forall i :: 0 <= i < |ms| ==> ms[i].stats.Total() == |ms[i].schools|
    ensures SumStats(ms).Total() == SumSchools(ms)
  {
    if ms != [] {
      BandsCoverSchools(ms[..|ms| - 1]);
    }
  }

  /** Every supplying shop is the nearest of some school, hence an FPS point,
      so there are no more supplying shops than FPS points or schools. */
  lemma SupplyingAreShops(st: PointIndex, nearest: JsMap<Cell, Nearest>, route: Router, straight: StraightLine)
    requires st.fps.Valid() && st.schools.Valid() && NearestMapOf(st.fps, st.schools, nearest, route, straight)
    ensures SupplyingUpTo(nearest, |nearest.keys|) <= st.fps.entries.Keys
    ensures |SupplyingUpTo(nearest, |nearest.keys|)| <= |st.fps.entries|
    ensures |SupplyingUpTo(nearest, |nearest.keys|)| <= |st.schools.keys|
  {
    var n := |nearest.keys|;
    var supplying := SupplyingUpTo(nearest, n);
    forall shop | shop in supplying
      ensures shop in st.fps.entries
    {
      SupplyingMembers(nearest, n, shop);
      var t :| 0 <= t < n && nearest.entries[nearest.keys[t]].nearestFps == shop
                          && nearest.entries[nearest.keys[t]].distance <= 2.0;
      var i := FirstMin(st.fps, st.schools, t, |st.fps.keys|, route, straight);
      assert shop == st.fps.keys[i];
    }
    SubsetCardinality(supplying, st.fps.entries.Keys);
    SupplyingBounded(nearest, n);
  }

  /** What the upload handler shows, or the error it reports (the TypeError
      of a point under an inherited mandal name is ProcessingError). */
  datatype UploadOutcome =
    | NoDataFound
    | ProcessingError
    | NoValidMandalData
    | Shown(analysis: Analysis, summary: SummaryOutcome)

  /** The upload handler after parsing: reject an empty file, run the pass
      and report it if it throws, reject a result without mandals, then
      combine the summary. A result without mandals needs every row's mandal
      name to be inherited. */
  method HandleUpload(rows: seq<Row>, route: Router, straight: StraightLine) returns (outcome: UploadOutcome)
    ensures outcome == NoDataFound <==> rows == []
    ensures outcome == ProcessingError <==> rows != [] && Fails(Fields(rows))
    ensures outcome == NoValidMandalData <==>
              && rows != [] && !Fails(Fields(rows))
              && forall i :: 0 <= i < |rows| ==> Inherited(Fields(rows)[i].mandalName)
    ensures outcome.Shown? ==> outcome.summary != NoMandals
    ensures outcome.Shown? && outcome.summary.Combined? ==>
              var st := IndexOf(Fields(rows));
              var s := outcome.summary.summary;
              && s.totalFps == |st.fps.entries|
              && s.totalSchools == |st.schools.entries|
              && (|st.fps.keys| > 0 ==> s.stats.Total() == s.totalSchools)
              && s.fpsSupplyingSchools <= s.totalFps
              && s.fpsSupplyingSchools <= s.totalSchools
  {
    if rows == [] {
      return NoDataFound;
    }
    var processedResult, processed := ProcessDataWithRoadDistances(rows, route, straight);
    if processedResult.None? {
      return ProcessingError;
    }
    var result := processedResult.value;
    NoOwnMandal(Fields(rows));
    if result.mandals.Size() == 0 {
      return NoValidMandalData;
    }
    var summary := DisplaySummary(result.mandals, result.nearestFpsForSchools);
    outcome := Shown(result, summary);
    IndexWellFormed(Fields(rows));
    CombinedTotals(IndexOf(Fields(rows)), result.nearestFpsForSchools, result.mandals);
    SupplyingAreShops(IndexOf(Fields(rows)), result.nearestFpsForSchools, route, straight);
  }

  /** The combined totals over the walked registry: the shop and school
      totals count every distinct point once, and with any FPS point the
      combined band counters add up to the school total. */
  lemma CombinedTotals(st: PointIndex, nearest: JsMap<Cell, Nearest>, tallied: JsMap<Cell, Mandal>)
    requires WellFormed(st) && nearest.Valid() && TalliedFrom(st, nearest, tallied)
    ensures SumFps(tallied.Values()) == |st.fps.entries|
    ensures SumSchools(tallied.Values()) == |st.schools.entries|
    ensures |st.fps.keys| > 0 ==> SumStats(tallied.Values()).Total() == |st.schools.entries|
  {
    var walked, indexed := tallied.Values(), st.mandals.Values();
    forall i | 0 <= i < |walked|
      ensures walked[i].fpsShops == indexed[i].fpsShops && walked[i].schools == indexed[i].schools
      ensures |st.fps.keys| > 0 ==> walked[i].stats.Total() == |walked[i].schools|
    {
      var m := st.mandals.keys[i];
      assert m in st.mandals.entries;
      assert RecordTallied(st, nearest, tallied, m);
    }
    SameSets(walked, indexed);
    FpsTotal(st);
    SchoolsTotal(st);
    if |st.fps.keys| > 0 {
      BandsCoverSchools(walked);
    }
  }
}
