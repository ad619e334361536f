/** The second and third parts of `processDataWithRoadDistances`: every FPS
    point against every school point, FPS outer and school inner, with one call
    to the road router per pair and the straight-line distance as a fallback
    when the router fails; the running nearest-FPS map per school is updated
    after each pair, only on a strictly shorter distance. */
module DistanceMatrix {
  import opened JsValues
  import opened JsMaps
  import opened Rows
  import opened Indexing

  /** The router's answer when it finds a route: km and whole minutes. */
  datatype Route = Route(distance: real, time: int)

  /** The road router, asked once per pair with the FPS and the school
      location; None stands for every way the call can fail. Its answer is
      not a function of the locations alone (a later call may time out where
      an earlier one did not), so it is indexed by the pair's shop key and
      school name too, each pair being asked exactly once. */
  type Router = (Cell, Cell, GeoPoint, GeoPoint) -> Option<Route>

  /** The straight-line (haversine) distance in km. */
  type StraightLine = (GeoPoint, GeoPoint) -> real

  /** One element of `allDistances`. */
  datatype PairDistance = PairDistance(
    shopNo: Cell,
    schoolName: Cell,
    distance: real,
    time: int,
    mandal: Cell,
    fpsCoords: GeoPoint,
    schoolCoords: GeoPoint,
    isEstimated: bool)

  /** One value of `schoolNearestFPS`. */
  datatype Nearest = Nearest(
    nearestFps: Cell,
    distance: real,
    time: int,
    fpsCoords: GeoPoint,
    schoolCoords: GeoPoint,
    mandal: Cell,
    isEstimated: bool)

  /** The record for one pair: the router's distance and time when it finds a
      route; otherwise the straight-line distance, twice that rounded as the
      minutes, and the estimate flag. The record carries the FPS's mandal. */
  function Evaluate(shop: Cell, f: FpsData, school: Cell, s: SchoolData, route: Router, straight: StraightLine): (p: PairDistance)
    ensures p.shopNo == shop && p.schoolName == school && p.mandal == f.mandal
    ensures p.fpsCoords == f.location && p.schoolCoords == s.location
    ensures p.isEstimated <==> route(shop, school, f.location, s.location).None?
    ensures !p.isEstimated ==> Route(p.distance, p.time) == route(shop, school, f.location, s.location).value
    ensures p.isEstimated ==> p.distance == straight(f.location, s.location)
    ensures p.isEstimated ==> p.time as real - 0.5 <= 2.0 * p.distance < p.time as real + 0.5
  {
    match route(shop, school, f.location, s.location)
    case Some(r) => PairDistance(shop, school, r.distance, r.time, f.mandal, f.location, s.location, false)
    case None =>
      var d := straight(f.location, s.location);
      PairDistance(shop, school, d, Round(d * 2.0), f.mandal, f.location, s.location, true)
  }

  /** The record for the i-th FPS and the j-th school in iteration order. */
  function PairAt(fps: JsMap<Cell, FpsData>, schools: JsMap<Cell, SchoolData>, i: nat, j: nat,
                  route: Router, straight: StraightLine): PairDistance
    requires fps.Valid() && schools.Valid() && i < |fps.keys| && j < |schools.keys|
  {
    Evaluate(fps.keys[i], fps.entries[fps.keys[i]], schools.keys[j], schools.entries[schools.keys[j]], route, straight)
  }

  /** The records of the i-th FPS against the first n schools. */
  function RowOf(fps: JsMap<Cell, FpsData>, schools: JsMap<Cell, SchoolData>, i: nat, n: nat,
                 route: Router, straight: StraightLine): seq<PairDistance>
    requires fps.Valid() && schools.Valid() && i < |fps.keys| && n <= |schools.keys|
  {
    seq(n, j requires 0 <= j < n => PairAt(fps, schools, i, j, route, straight))
  }

  lemma RowOfSnoc(fps: JsMap<Cell, FpsData>, schools: JsMap<Cell, SchoolData>, i: nat, n: nat,
                  route: Router, straight: StraightLine)
    requires fps.Valid() && schools.Valid() && i < |fps.keys| && n < |schools.keys|
    ensures RowOf(fps, schools, i, n + 1, route, straight)
         == RowOf(fps, schools, i, n, route, straight) + [PairAt(fps, schools, i, n, route, straight)]
  {
  }

  /** The records of the first m FPS points against every school, FPS-major. */
  function MatrixOf(fps: JsMap<Cell, FpsData>, schools: JsMap<Cell, SchoolData>, m: nat,
                    route: Router, straight: StraightLine): seq<PairDistance>
    requires fps.Valid() && schools.Valid() && m <= |fps.keys|
  {
    if m == 0 then []
    else MatrixOf(fps, schools, m - 1, route, straight) + RowOf(fps, schools, m - 1, |schools.keys|, route, straight)
  }

  /** The matrix is dense: m times the number of schools records. */
  lemma {:induction false} MatrixLength(fps: JsMap<Cell, FpsData>, schools: JsMap<Cell, SchoolData>, m: nat,
                                        route: Router, straight: StraightLine)
    requires fps.Valid() && schools.Valid() && m <= |fps.keys|
    ensures |MatrixOf(fps, schools, m, route, straight)| == m * |schools.keys|
  {
    if m > 0 {
      MatrixLength(fps, schools, m - 1, route, straight);
      assert m * |schools.keys| == (m - 1) * |schools.keys| + |schools.keys|;
    }
  }

  /** The matrix is FPS-major: the record for FPS i and school j sits at
      position i * |schools| + j. */
  lemma {:induction false} MatrixEntry(fps: JsMap<Cell, FpsData>, schools: JsMap<Cell, SchoolData>, m: nat,
                                       i: nat, j: nat, route: Router, straight: StraightLine)
    requires fps.Valid() && schools.Valid() && m <= |fps.keys| && i < m && j < |schools.keys|
    ensures i * |schools.keys| + j < |MatrixOf(fps, schools, m, route, straight)|
    ensures MatrixOf(fps, schools, m, route, straight)[i * |schools.keys| + j] == PairAt(fps, schools, i, j, route, straight)
  {
    var n := |schools.keys|;
    var prev := MatrixOf(fps, schools, m - 1, route, straight);
    MatrixLength(fps, schools, m - 1, route, straight);
    if i < m - 1 {
      MatrixEntry(fps, schools, m - 1, i, j, route, straight);
    } else {
      assert i * n + j == |prev| + j;
    }
  }

  /** Among the first m FPS points, the first whose record for school j has
      the least distance. */
  function FirstMin(fps: JsMap<Cell, FpsData>, schools: JsMap<Cell, SchoolData>, j: nat, m: nat,
                    route: Router, straight: StraightLine): (k: nat)
    requires fps.Valid() && schools.Valid() && 0 < m <= |fps.keys| && j < |schools.keys|
    ensures k < m
  {
    if m == 1 then 0
    else
      var k := FirstMin(fps, schools, j, m - 1, route, straight);
      if PairAt(fps, schools, m - 1, j, route, straight).distance < PairAt(fps, schools, k, j, route, straight).distance
      then m - 1
      else k
  }

  /** FirstMin is a minimum, and every earlier FPS is strictly farther. */
  lemma {:induction false} FirstMinIsFirstMinimum(fps: JsMap<Cell, FpsData>, schools: JsMap<Cell, SchoolData>, j: nat, m: nat,
                                                  route: Router, straight: StraightLine)
    requires fps.Valid() && schools.Valid() && 0 < m <= |fps.keys| && j < |schools.keys|
    ensures forall i :: 0 <= i < m ==>
              PairAt(fps, schools, FirstMin(fps, schools, j, m, route, straight), j, route, straight).distance
              <= PairAt(fps, schools, i, j, route, straight).distance
    ensures forall i :: 0 <= i < FirstMin(fps, schools, j, m, route, straight) ==>
              PairAt(fps, schools, i, j, route, straight).distance
              > PairAt(fps, schools, FirstMin(fps, schools, j, m, route, straight), j, route, straight).distance
  {
    if m > 1 {
      FirstMinIsFirstMinimum(fps, schools, j, m - 1, route, straight);
    }
  }

  /** The two properties of FirstMin pin it down: no other index is both a
      minimum and earlier than every other minimum. */
  lemma FirstMinUnique(fps: JsMap<Cell, FpsData>, schools: JsMap<Cell, SchoolData>, j: nat, m: nat,
                       route: Router, straight: StraightLine, k: nat)
    requires fps.Valid() && schools.Valid() && 0 < m <= |fps.keys| && j < |schools.keys| && k < m
    requires forall i :: 0 <= i < m ==>
               PairAt(fps, schools, k, j, route, straight).distance <= PairAt(fps, schools, i, j, route, straight).distance
    requires forall i :: 0 <= i < k ==>
               PairAt(fps, schools, i, j, route, straight).distance > PairAt(fps, schools, k, j, route, straight).distance
    ensures k == FirstMin(fps, schools, j, m, route, straight)
  {
    FirstMinIsFirstMinimum(fps, schools, j, m, route, straight);
  }

  /** The nearest-FPS entry a pair record gives for its school. */
  function ToNearest(p: PairDistance, s: SchoolData): Nearest {
    Nearest(p.shopNo, p.distance, p.time, p.fpsCoords, p.schoolCoords, s.mandal, p.isEstimated)
  }

  /** The entry for school j once the first m FPS points have been visited. */
  function NearestOf(fps: JsMap<Cell, FpsData>, schools: JsMap<Cell, SchoolData>, j: nat, m: nat,
                     route: Router, straight: StraightLine): Nearest
    requires fps.Valid() && schools.Valid() && 0 < m <= |fps.keys| && j < |schools.keys|
  {
    ToNearest(PairAt(fps, schools, FirstMin(fps, schools, j, m, route, straight), j, route, straight),
              schools.entries[schools.keys[j]])
  }

  /** One update of the nearest map: the candidate replaces the school's entry
      when there is none yet or when it is strictly closer. */
  function Relax(nearest: JsMap<Cell, Nearest>, school: Cell, candidate: Nearest): (r: JsMap<Cell, Nearest>)
    ensures nearest.Valid() ==> r.Valid()
    ensures school in r.entries
  {
    if !nearest.Has(school) || candidate.distance < nearest.Get(school).distance then nearest.Set(school, candidate)
    else nearest
  }

  /** Schools lo to hi - 1 hold their entries for the first m FPS points. */
  ghost predicate Settled(fps: JsMap<Cell, FpsData>, schools: JsMap<Cell, SchoolData>, lo: nat, hi: nat, m: nat,
                          nearest: JsMap<Cell, Nearest>, route: Router, straight: StraightLine)
    requires fps.Valid() && schools.Valid() && 0 < m <= |fps.keys| && hi <= |schools.keys|
  {
    forall t :: lo <= t < hi ==>
      schools.keys[t] in nearest.entries && nearest.entries[schools.keys[t]] == NearestOf(fps, schools, t, m, route, straight)
  }

  /** The nearest map once the first i FPS points have been compared with
      every school. */
  ghost predicate AfterRows(fps: JsMap<Cell, FpsData>, schools: JsMap<Cell, SchoolData>, i: nat,
                            nearest: JsMap<Cell, Nearest>, route: Router, straight: StraightLine)
    requires fps.Valid() && schools.Valid() && i <= |fps.keys|
  {
    && nearest.Valid()
    && nearest.keys == (if i == 0 then [] else schools.keys)
    && (0 < i ==> Settled(fps, schools, 0, |schools.keys|, i, nearest, route, straight))
  }

  /** The nearest map once FPS i has been compared with the first j schools. */
  ghost predicate WithinRow(fps: JsMap<Cell, FpsData>, schools: JsMap<Cell, SchoolData>, i: nat, j: nat,
                            nearest: JsMap<Cell, Nearest>, route: Router, straight: StraightLine)
    requires fps.Valid() && schools.Valid() && i < |fps.keys| && j <= |schools.keys|
  {
    && nearest.Valid()
    && nearest.keys == (if i == 0 then schools.keys[..j] else schools.keys)
    && Settled(fps, schools, 0, j, i + 1, nearest, route, straight)
    && (0 < i ==> Settled(fps, schools, j, |schools.keys|, i, nearest, route, straight))
  }

  lemma RowStart(fps: JsMap<Cell, FpsData>, schools: JsMap<Cell, SchoolData>, i: nat,
                 nearest: JsMap<Cell, Nearest>, route: Router, straight: StraightLine)
    requires fps.Valid() && schools.Valid() && i < |fps.keys|
    requires AfterRows(fps, schools, i, nearest, route, straight)
    ensures WithinRow(fps, schools, i, 0, nearest, route, straight)
  {
  }

  lemma RowEnd(fps: JsMap<Cell, FpsData>, schools: JsMap<Cell, SchoolData>, i: nat,
               nearest: JsMap<Cell, Nearest>, route: Router, straight: StraightLine)
    requires fps.Valid() && schools.Valid() && i < |fps.keys|
    requires WithinRow(fps, schools, i, |schools.keys|, nearest, route, straight)
    ensures AfterRows(fps, schools, i + 1, nearest, route, straight)
  {
    assert schools.keys[..|schools.keys|] == schools.keys;
  }

  /** Relaxing touches only the relaxed school's entry; a new school goes to
      the end of the order. */
  lemma RelaxFrame(nearest: JsMap<Cell, Nearest>, school: Cell, candidate: Nearest)
    ensures Relax(nearest, school, candidate).keys == if school in nearest.entries then nearest.keys else nearest.keys + [school]
    ensures forall k :: k != school && k in nearest.entries ==>
              k in Relax(nearest, school, candidate).entries && Relax(nearest, school, candidate).entries[k] == nearest.entries[k]
  {
  }

  /** FirstMin over i + 1 points picks FPS i exactly when its distance is
      strictly below that of the best of the first i, which is the source's
      replacement test. */
  lemma RelaxedEntry(fps: JsMap<Cell, FpsData>, schools: JsMap<Cell, SchoolData>, i: nat, j: nat,
                     nearest: JsMap<Cell, Nearest>, route: Router, straight: StraightLine)
    requires fps.Valid() && schools.Valid() && i < |fps.keys| && j < |schools.keys|
    requires i == 0 ==> schools.keys[j] !in nearest.entries
    requires 0 < i ==> schools.keys[j] in nearest.entries &&
                       nearest.entries[schools.keys[j]] == NearestOf(fps, schools, j, i, route, straight)
    ensures Relax(nearest, schools.keys[j],
                  ToNearest(PairAt(fps, schools, i, j, route, straight), schools.entries[schools.keys[j]])).entries[schools.keys[j]]
            == NearestOf(fps, schools, j, i + 1, route, straight)
  {
  }

  /** Relaxing school j keeps the map valid and extends the first row's key
      order by that school. */
  lemma RelaxKeys(fps: JsMap<Cell, FpsData>, schools: JsMap<Cell, SchoolData>, i: nat, j: nat,
                  nearest: JsMap<Cell, Nearest>, candidate: Nearest, route: Router, straight: StraightLine)
    requires fps.Valid() && schools.Valid() && i < |fps.keys| && j < |schools.keys|
    requires WithinRow(fps, schools, i, j, nearest, route, straight)
    ensures Relax(nearest, schools.keys[j], candidate).Valid()
    ensures Relax(nearest, schools.keys[j], candidate).keys == if i == 0 then schools.keys[..j + 1] else schools.keys
  {
    RelaxFrame(nearest, schools.keys[j], candidate);
    if i == 0 {
      assert schools.keys[j] !in nearest.keys;
      UnlistedAbsent(nearest, schools.keys[j]);
      assert schools.keys[..j + 1] == schools.keys[..j] + [schools.keys[j]];
    } else {
      assert nearest.keys[j] == schools.keys[j];
    }
  }

  /** Entries of schools other than j are untouched by relaxing j. */
  lemma RelaxKeepsSettled(fps: JsMap<Cell, FpsData>, schools: JsMap<Cell, SchoolData>, lo: nat, hi: nat, m: nat, j: nat,
                          nearest: JsMap<Cell, Nearest>, candidate: Nearest, route: Router, straight: StraightLine)
    requires fps.Valid() && schools.Valid() && 0 < m <= |fps.keys| && hi <= |schools.keys| && j < |schools.keys|
    requires j < lo || hi <= j
    requires Settled(fps, schools, lo, hi, m, nearest, route, straight)
    ensures Settled(fps, schools, lo, hi, m, Relax(nearest, schools.keys[j], candidate), route, straight)
  {
    RelaxFrame(nearest, schools.keys[j], candidate);
    forall t | lo <= t < hi
      ensures schools.keys[t] != schools.keys[j]
    {
    }
  }

  /** After relaxing school j with FPS i's record, schools 0 to j hold their
      entries for the first i + 1 FPS points. */
  lemma RelaxSettlesRow(fps: JsMap<Cell, FpsData>, schools: JsMap<Cell, SchoolData>, i: nat, j: nat,
                        nearest: JsMap<Cell, Nearest>, route: Router, straight: StraightLine)
    requires fps.Valid() && schools.Valid() && i < |fps.keys| && j < |schools.keys|
    requires Settled(fps, schools, 0, j, i + 1, nearest, route, straight)
    requires i == 0 ==> schools.keys[j] !in nearest.entries
    requires 0 < i ==> schools.keys[j] in nearest.entries &&
                       nearest.entries[schools.keys[j]] == NearestOf(fps, schools, j, i, route, straight)
    ensures Settled(fps, schools, 0, j + 1, i + 1,
                    Relax(nearest, schools.keys[j],
                          ToNearest(PairAt(fps, schools, i, j, route, straight), schools.entries[schools.keys[j]])),
                    route, straight)
  {
    var candidate := ToNearest(PairAt(fps, schools, i, j, route, straight), schools.entries[schools.keys[j]]);
    RelaxKeepsSettled(fps, schools, 0, j, i + 1, j, nearest, candidate, route, straight);
    RelaxedEntry(fps, schools, i, j, nearest, route, straight);
  }

  /** Relaxing school j with FPS i's record extends the first-minimum entries
      by one school. */
  lemma RelaxStep(fps: JsMap<Cell, FpsData>, schools: JsMap<Cell, SchoolData>, i: nat, j: nat,
                  nearest: JsMap<Cell, Nearest>, route: Router, straight: StraightLine)
    requires fps.Valid() && schools.Valid() && i < |fps.keys| && j < |schools.keys|
    requires WithinRow(fps, schools, i, j, nearest, route, straight)
    ensures WithinRow(fps, schools, i, j + 1,
                      Relax(nearest, schools.keys[j],
                            ToNearest(PairAt(fps, schools, i, j, route, straight), schools.entries[schools.keys[j]])),
                      route, straight)
  {
    var candidate := ToNearest(PairAt(fps, schools, i, j, route, straight), schools.entries[schools.keys[j]]);
    RelaxKeys(fps, schools, i, j, nearest, candidate, route, straight);
    if i == 0 {
      assert schools.keys[j] !in nearest.keys;
      UnlistedAbsent(nearest, schools.keys[j]);
    } else {
      assert Settled(fps, schools, j, |schools.keys|, i, nearest, route, straight);
    }
    RelaxSettlesRow(fps, schools, i, j, nearest, route, straight);
    if 0 < i {
      RelaxKeepsSettled(fps, schools, j + 1, |schools.keys|, i, j, nearest, candidate, route, straight);
    }
  }

  /** One pass of the inner loop body: ask the router, fall back to the
      straight line when it fails, push the pair's record and relax the
      school's nearest entry. Both branches of the source push the record and
      then compare its distance with the school's current entry; they differ
      only in how the record is obtained. */
  method VisitPair(fps: JsMap<Cell, FpsData>, schools: JsMap<Cell, SchoolData>, i: nat, j: nat,
                   route: Router, straight: StraightLine,
                   distances: seq<PairDistance>, nearest: JsMap<Cell, Nearest>)
    returns (distances': seq<PairDistance>, nearest': JsMap<Cell, Nearest>)
    requires fps.Valid() && schools.Valid() && i < |fps.keys| && j < |schools.keys|
    ensures distances' == distances + [PairAt(fps, schools, i, j, route, straight)]
    ensures nearest' == Relax(nearest, schools.keys[j],
                              ToNearest(PairAt(fps, schools, i, j, route, straight), schools.entries[schools.keys[j]]))
  {
    var fpsShop := fps.keys[i];
    var fpsData := fps.entries[fpsShop];
    var schoolName := schools.keys[j];
    var schoolData := schools.entries[schoolName];
    var routeInfo := route(fpsShop, schoolName, fpsData.location, schoolData.location);
    var record: PairDistance;
    if routeInfo.Some? {
      record := PairDistance(fpsShop, schoolName, routeInfo.value.distance, routeInfo.value.time,
                             fpsData.mandal, fpsData.location, schoolData.location, false);
    } else {
      var straightDistance := straight(fpsData.location, schoolData.location);
      record := PairDistance(fpsShop, schoolName, straightDistance, Round(straightDistance * 2.0),
                             fpsData.mandal, fpsData.location, schoolData.location, true);
    }
    distances' := distances + [record];
    nearest' := nearest;
    if !nearest'.Has(schoolName) || record.distance < nearest'.Get(schoolName).distance {
      nearest' := nearest'.Set(schoolName,
        Nearest(fpsShop, record.distance, record.time, record.fpsCoords, record.schoolCoords,
                schoolData.mandal, record.isEstimated));
    }
  }

  /** The nested loops. `processed` ends at `totalCalculations`; the records
      form the dense FPS-major matrix; the nearest map has an entry for every
      school exactly when there is an FPS point, in school order, and each
      entry is the record of the first FPS at the least distance, tagged with
      the school's mandal. */
  method ComputeDistances(fps: JsMap<Cell, FpsData>, schools: JsMap<Cell, SchoolData>, route: Router, straight: StraightLine)
    returns (allDistances: seq<PairDistance>, schoolNearestFps: JsMap<Cell, Nearest>, processed: nat)
    requires fps.Valid() && schools.Valid()
    ensures processed == fps.Size() * schools.Size()
    ensures |allDistances| == |fps.keys| * |schools.keys|
    ensures allDistances == MatrixOf(fps, schools, |fps.keys|, route, straight)
    ensures schoolNearestFps.Valid()
    ensures schoolNearestFps.keys == if |fps.keys| == 0 then [] else schools.keys
    ensures forall j :: 0 <= j < |schools.keys| && 0 < |fps.keys| ==>
              schoolNearestFps.entries[schools.keys[j]] == NearestOf(fps, schools, j, |fps.keys|, route, straight)
    ensures forall i, j :: 0 <= i < |fps.keys| && 0 <= j < |schools.keys| ==>
              schoolNearestFps.entries[schools.keys[j]].distance <= PairAt(fps, schools, i, j, route, straight).distance
  {
    var totalCalculations := fps.Size() * schools.Size();
    allDistances := [];
    schoolNearestFps := EmptyMap();
    processed := 0;
    var i := 0;
    while i < |fps.keys|
      invariant 0 <= i <= |fps.keys|
      invariant allDistances == MatrixOf(fps, schools, i, route, straight)
      invariant processed == i * |schools.keys|
      invariant AfterRows(fps, schools, i, schoolNearestFps, route, straight)
    {
      RowStart(fps, schools, i, schoolNearestFps, route, straight);
      ghost var prefix := allDistances;
      var j := 0;
      while j < |schools.keys|
        invariant 0 <= j <= |schools.keys|
        invariant allDistances == prefix + RowOf(fps, schools, i, j, route, straight)
        invariant processed == i * |schools.keys| + j
        invariant WithinRow(fps, schools, i, j, schoolNearestFps, route, straight)
      {
        ghost var row := RowOf(fps, schools, i, j, route, straight);
        ghost var before := schoolNearestFps;
        allDistances, schoolNearestFps := VisitPair(fps, schools, i, j, route, straight, allDistances, schoolNearestFps);
        RelaxStep(fps, schools, i, j, before, route, straight);
        RowOfSnoc(fps, schools, i, j, route, straight);
        assert (prefix + row) + [PairAt(fps, schools, i, j, route, straight)]
            == prefix + (row + [PairAt(fps, schools, i, j, route, straight)]);
        processed := processed + 1;
        j := j + 1;
      }
      RowEnd(fps, schools, i, schoolNearestFps, route, straight);
      assert (i + 1) * |schools.keys| == i * |schools.keys| + |schools.keys|;
      i := i + 1;
    }
    MatrixLength(fps, schools, |fps.keys|, route, straight);
    NearestIsMinimal(fps, schools, schoolNearestFps, route, straight);
  }

  /** A map whose every entry is the first least record of its school has no
      FPS point closer to that school. */
  lemma NearestIsMinimal(fps: JsMap<Cell, FpsData>, schools: JsMap<Cell, SchoolData>, nearest: JsMap<Cell, Nearest>,
                         route: Router, straight: StraightLine)
    requires fps.Valid() && schools.Valid()
    requires forall j :: 0 <= j < |schools.keys| && 0 < |fps.keys| ==>
               schools.keys[j] in nearest.entries &&
               nearest.entries[schools.keys[j]] == NearestOf(fps, schools, j, |fps.keys|, route, straight)
    ensures forall i, j :: 0 <= i < |fps.keys| && 0 <= j < |schools.keys| ==>
              schools.keys[j] in nearest.entries &&
              nearest.entries[schools.keys[j]].distance <= PairAt(fps, schools, i, j, route, straight).distance
  {
    forall j | 0 <= j < |schools.keys| && 0 < |fps.keys| {
      FirstMinIsFirstMinimum(fps, schools, j, |fps.keys|, route, straight);
    }
  }
}
