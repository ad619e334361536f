/** The first pass of `processDataWithRoadDistances`: one forward walk over the
    rows that creates each mandal when first named, registers each FPS point
    under its shop key and each school point under its name (the first row for
    a key wins), and adds a school's students to its mandal when the school is
    registered. The registry is a plain object, so a mandal name that every
    object inherits (such as "constructor") finds that inherited member: no
    record is made for it, and a new point under it throws. */
module Indexing {
  import opened JsValues
  import opened JsMaps
  import opened Rows
  import opened Bands

  /** `fpsPoints` value: where the shop is and which mandal named it. */
  datatype FpsData = FpsData(location: GeoPoint, mandal: Cell)

  /** `schoolPoints` value. */
  datatype SchoolData = SchoolData(location: GeoPoint, mandal: Cell, students: JsNumber)

  /** One mandal record of the registry. */
  datatype Mandal = Mandal(
    name: Cell,
    code: Cell,
    fpsShops: set<Cell>,
    schools: set<Cell>,
    totalStudents: JsNumber,
    stats: BandStats)

  /** The three collections the pass fills. */
  datatype PointIndex = PointIndex(
    mandals: JsMap<Cell, Mandal>,
    fps: JsMap<Cell, FpsData>,
    schools: JsMap<Cell, SchoolData>)

  function NewMandal(name: Cell, code: Cell): Mandal {
    Mandal(name, code, {}, {}, Finite(0.0), NoBands)
  }

  const NoPoints: PointIndex := PointIndex(EmptyMap(), EmptyMap(), EmptyMap())

  /** The members every object inherits from `Object.prototype`, all of them
      truthy (functions, and the prototype itself under "__proto__"). */
  const InheritedNames: seq<string> := [
    "constructor", "hasOwnProperty", "isPrototypeOf", "propertyIsEnumerable",
    "toLocaleString", "toString", "valueOf", "__proto__",
    "__defineGetter__", "__defineSetter__", "__lookupGetter__", "__lookupSetter__"]

  /** Whether `obj[name]` on a fresh object finds an inherited member. */
  predicate Inherited(name: Cell) {
    name.Text? && Listed(name.s, InheritedNames)
  }

  /** Whether s is one of names. */
  predicate Listed(s: string, names: seq<string>) {
    |names| > 0 && (names[0] == s || Listed(s, names[1..]))
  }

  /** The row's mandal name is no own key of the registry but an inherited
      one: `mandals[mandalName]` is truthy, so no record is created, and the
      member found has no point sets. */
  predicate Orphan(st: PointIndex, f: RowFields) {
    Inherited(f.mandalName) && !st.mandals.Has(f.mandalName)
  }

  /** The row throws a TypeError: its mandal is an orphan and it carries a
      new FPS point or a new school point, whose registration then fails on
      the missing point set. */
  predicate Throws(st: PointIndex, f: RowFields) {
    && Orphan(st, f)
    && ((HasFps(f) && !st.fps.Has(f.shopNo)) || (HasSchool(f) && !st.schools.Has(f.schoolName)))
  }

  /** Creates the row's mandal if the registry lacks it. */
  function RegisterMandal(st: PointIndex, f: RowFields): (r: PointIndex)
    ensures f.mandalName in r.mandals.entries
  {
    if st.mandals.Has(f.mandalName) then st
    else st.(mandals := st.mandals.Set(f.mandalName, NewMandal(f.mandalName, f.mandalCode)))
  }

  /** Registers the row's FPS point unless it is incomplete or its key taken. */
  function RegisterFps(st: PointIndex, f: RowFields): (r: PointIndex)
    requires f.mandalName in st.mandals.entries
    ensures f.mandalName in r.mandals.entries
  {
    if HasFps(f) && !st.fps.Has(f.shopNo) then
      var mandal := st.mandals.Get(f.mandalName);
      PointIndex(
        st.mandals.Set(f.mandalName, mandal.(fpsShops := mandal.fpsShops + {f.shopNo})),
        st.fps.Set(f.shopNo, FpsData(FpsLocation(f), f.mandalName)),
        st.schools)
    else st
  }

  /** Registers the row's school point unless it is incomplete or its name
      taken, and then adds its students to the mandal. */
  function RegisterSchool(st: PointIndex, f: RowFields): (r: PointIndex)
    requires f.mandalName in st.mandals.entries
  {
    if HasSchool(f) && !st.schools.Has(f.schoolName) then
      var mandal := st.mandals.Get(f.mandalName);
      PointIndex(
        st.mandals.Set(f.mandalName, mandal.(schools := mandal.schools + {f.schoolName},
                                              totalStudents := Add(mandal.totalStudents, f.totalStudents))),
        st.fps,
        st.schools.Set(f.schoolName, SchoolData(SchoolLocation(f), f.mandalName, f.totalStudents)))
    else st
  }

  /** What one row does to the collections (an orphan row changes nothing
      when it does not throw). */
  function Step(st: PointIndex, f: RowFields): PointIndex {
    if Orphan(st, f) then st
    else RegisterSchool(RegisterFps(RegisterMandal(st, f), f), f)
  }

  /** The fields of every row, in order. */
  function Fields(rows: seq<Row>): (fs: seq<RowFields>)
    ensures |fs| == |rows|
    ensures forall i :: 0 <= i < |rows| ==> fs[i] == ReadRow(rows[i])
  {
    seq(|rows|, i requires 0 <= i < |rows| => ReadRow(rows[i]))
  }

  /** The collections after the pass over the rows' fields, from the first. */
  function IndexOf(fs: seq<RowFields>): PointIndex {
    if fs == [] then NoPoints else Step(IndexOf(fs[..|fs| - 1]), fs[|fs| - 1])
  }

  /** Whether the pass over the rows throws: some row throws in the
      collections its predecessors built. */
  function Fails(fs: seq<RowFields>): bool {
    if fs == [] then false
    else Fails(fs[..|fs| - 1]) || Throws(IndexOf(fs[..|fs| - 1]), fs[|fs| - 1])
  }

  /** The pass fails exactly when some row throws. */
  lemma FailsAt(fs: seq<RowFields>)
    ensures Fails(fs) <==> exists i :: 0 <= i < |fs| && Throws(IndexOf(fs[..i]), fs[i])
  {
    if Fails(fs) {
      FailingRow(fs);
    }
    if exists i :: 0 <= i < |fs| && Throws(IndexOf(fs[..i]), fs[i]) {
      var i :| 0 <= i < |fs| && Throws(IndexOf(fs[..i]), fs[i]);
      PassSnoc(fs, i);
      FailsExtends(fs, i + 1);
    }
  }

  /** A failing pass has a row that throws. */
  lemma {:induction false} FailingRow(fs: seq<RowFields>)
    requires Fails(fs)
    ensures exists i :: 0 <= i < |fs| && Throws(IndexOf(fs[..i]), fs[i])
  {
    var init := fs[..|fs| - 1];
    if Fails(init) {
      FailingRow(init);
      var i :| 0 <= i < |init| && Throws(IndexOf(init[..i]), init[i]);
      assert init[..i] == fs[..i] && init[i] == fs[i];
    } else {
      assert Throws(IndexOf(fs[..|fs| - 1]), fs[|fs| - 1]);
    }
  }

  /** Rows after a failure do not undo it. */
  lemma {:induction false} FailsExtends(fs: seq<RowFields>, n: nat)
    requires n <= |fs| && Fails(fs[..n])
    ensures Fails(fs)
    decreases |fs| - n
  {
    if n == |fs| {
      assert fs[..n] == fs;
    } else {
      var init := fs[..|fs| - 1];
      assert init[..n] == fs[..n];
      FailsExtends(init, n);
    }
  }

  /** One more row: one more step, and a failure if that step throws. */
  lemma PassSnoc(fs: seq<RowFields>, i: nat)
    requires i < |fs|
    ensures IndexOf(fs[..i + 1]) == Step(IndexOf(fs[..i]), fs[i])
    ensures Fails(fs[..i + 1]) == (Fails(fs[..i]) || Throws(IndexOf(fs[..i]), fs[i]))
  {
    assert fs[..i + 1][..i] == fs[..i];
  }

  /** Only a row whose mandal name is inherited can make the pass fail. */
  lemma FailureNeedsInherited(fs: seq<RowFields>)
    ensures Fails(fs) ==> exists i :: 0 <= i < |fs| && Inherited(fs[i].mandalName)
  {
    FailsAt(fs);
  }

  /** A single row naming the mandal "constructor": without a point it
      leaves the registry empty, and with a complete FPS point it throws. */
  lemma ConstructorMandal(f: RowFields)
    requires f.mandalName == Text("constructor")
    ensures !HasFps(f) && !HasSchool(f) ==> !Fails([f]) && IndexOf([f]).mandals.Size() == 0
    ensures HasFps(f) ==> Fails([f])
  {
    assert [f][..0] == [];
    assert Inherited(f.mandalName);
  }

  /** The body of the per-row callback: create the row's mandal if the
      lookup finds nothing, then register the FPS point and the school point
      when the row names a new one, each time writing the updated mandal back;
      `thrown` when the lookup found an inherited member instead. */
  method AddRow(before: PointIndex, f: RowFields) returns (after: PointIndex, thrown: bool)
    ensures thrown == Throws(before, f)
    ensures !thrown ==> after == Step(before, f)
  {
    var mandals := before.mandals;
    var fpsPoints := before.fps;
    var schoolPoints := before.schools;
    var mandalName := f.mandalName;
    var inherited := !mandals.Has(mandalName) && Inherited(mandalName);
    if !mandals.Has(mandalName) && !Inherited(mandalName) {
      mandals := mandals.Set(mandalName, NewMandal(mandalName, f.mandalCode));
    }
    if inherited {
      assert PointIndex(mandals, fpsPoints, schoolPoints) == before;
    } else {
      assert PointIndex(mandals, fpsPoints, schoolPoints) == RegisterMandal(before, f);
    }
    ghost var registered := PointIndex(mandals, fpsPoints, schoolPoints);
    if NumberTruthy(f.fpsLat) && NumberTruthy(f.fpsLon) && Truthy(f.shopNo) && !fpsPoints.Has(f.shopNo) {
      if inherited {
        return before, true;
      }
      fpsPoints := fpsPoints.Set(f.shopNo, FpsData(GeoPoint(f.fpsLat.value, f.fpsLon.value), mandalName));
      var mandal := mandals.Get(mandalName);
      mandals := mandals.Set(mandalName, mandal.(fpsShops := mandal.fpsShops + {f.shopNo}));
    }
    if !inherited {
      assert PointIndex(mandals, fpsPoints, schoolPoints) == RegisterFps(registered, f);
    }
    if NumberTruthy(f.schoolLat) && NumberTruthy(f.schoolLon) && Truthy(f.schoolName) && !schoolPoints.Has(f.schoolName) {
      if inherited {
        return before, true;
      }
      schoolPoints := schoolPoints.Set(f.schoolName,
        SchoolData(GeoPoint(f.schoolLat.value, f.schoolLon.value), mandalName, f.totalStudents));
      var mandal := mandals.Get(mandalName);
      mandals := mandals.Set(mandalName, mandal.(schools := mandal.schools + {f.schoolName},
                                                 totalStudents := Add(mandal.totalStudents, f.totalStudents)));
    }
    after := PointIndex(mandals, fpsPoints, schoolPoints);
    thrown := false;
  }

  /** The pass over the uploaded rows, in order, from empty collections; it
      stops at the first row that throws. */
  method CollectPoints(rows: seq<Row>) returns (idx: PointIndex, failed: bool)
    ensures failed == Fails(Fields(rows))
    ensures !failed ==> idx == IndexOf(Fields(rows))
  {
    ghost var fs := Fields(rows);
    idx := NoPoints;
    var i := 0;
    while i < |rows|
      invariant 0 <= i <= |rows|
      invariant idx == IndexOf(fs[..i]) && !Fails(fs[..i])
    {
      var f := ReadRow(rows[i]);
      assert f == fs[i];
      PassSnoc(fs, i);
      var thrown;
      idx, thrown := AddRow(idx, f);
      if thrown {
        FailsExtends(fs, i + 1);
        return idx, true;
      }
      i := i + 1;
    }
    assert fs[..|rows|] == fs;
    failed := false;
  }

  // ---------------------------------------------------------------------------
  // What the collections hold

  /** The shops registered under mandal m. */
  ghost function FpsOf(fps: JsMap<Cell, FpsData>, m: Cell): set<Cell> {
    set k | k in fps.entries && fps.entries[k].mandal == m
  }

  /** The schools registered under mandal m. */
  ghost function SchoolsOf(schools: JsMap<Cell, SchoolData>, m: Cell): set<Cell> {
    set k | k in schools.entries && schools.entries[k].mandal == m
  }

  /** The running `totalStudents` of mandal m: the students of its schools
      among the first n registered, added in registration order. */
  ghost function StudentsOf(schools: JsMap<Cell, SchoolData>, n: nat, m: Cell): JsNumber
    requires schools.Valid() && n <= |schools.keys|
  {
    if n == 0 then Finite(0.0)
    else
      var d := schools.entries[schools.keys[n - 1]];
      var before := StudentsOf(schools, n - 1, m);
      if d.mandal == m then Add(before, d.students) else before
  }

  /** A mandal record agrees with the point collections. */
  ghost predicate MandalAgrees(st: PointIndex, m: Cell)
    requires m in st.mandals.entries && st.schools.Valid()
  {
    var r := st.mandals.entries[m];
    && r.name == m
    && r.fpsShops == FpsOf(st.fps, m)
    && r.schools == SchoolsOf(st.schools, m)
    && r.totalStudents == StudentsOf(st.schools, |st.schools.keys|, m)
    && r.stats == NoBands
  }

  /** The invariant of the pass. */
  ghost predicate WellFormed(st: PointIndex) {
    && st.mandals.Valid() && st.fps.Valid() && st.schools.Valid()
    && (forall k :: k in st.fps.entries ==>
          && Truthy(k) && st.fps.entries[k].mandal in st.mandals.entries
          && st.fps.entries[k].location.lat != 0.0 && st.fps.entries[k].location.lon != 0.0)
    && (forall k :: k in st.schools.entries ==>
          && Truthy(k) && st.schools.entries[k].mandal in st.mandals.entries
          && st.schools.entries[k].location.lat != 0.0 && st.schools.entries[k].location.lon != 0.0)
    && (forall m :: m in st.mandals.entries ==> MandalAgrees(st, m))
  }

  /** StudentsOf looks only at the first n keys and their values. */
  lemma {:induction false} StudentsOfFrame(a: JsMap<Cell, SchoolData>, b: JsMap<Cell, SchoolData>, n: nat, m: Cell)
    requires a.Valid() && b.Valid() && n <= |a.keys| && n <= |b.keys|
    requires forall t :: 0 <= t < n ==> a.keys[t] == b.keys[t] && a.entries[a.keys[t]] == b.entries[b.keys[t]]
    ensures StudentsOf(a, n, m) == StudentsOf(b, n, m)
  {
    if n > 0 {
      StudentsOfFrame(a, b, n - 1, m);
    }
  }

  /** Registering a new school adds its students to its own mandal only. */
  lemma StudentsOfAppend(a: JsMap<Cell, SchoolData>, k: Cell, d: SchoolData, m: Cell)
    requires a.Valid() && k !in a.entries
    ensures StudentsOf(a.Set(k, d), |a.keys| + 1, m)
         == if d.mandal == m then Add(StudentsOf(a, |a.keys|, m), d.students) else StudentsOf(a, |a.keys|, m)
  {
    StudentsOfFrame(a, a.Set(k, d), |a.keys|, m);
  }

  lemma RegisterMandalWellFormed(st: PointIndex, f: RowFields)
    requires WellFormed(st)
    ensures WellFormed(RegisterMandal(st, f))
  {
    var name := f.mandalName;
    if !st.mandals.Has(name) {
      var st' := RegisterMandal(st, f);
      assert st'.fps == st.fps && st'.schools == st.schools;
      assert st'.mandals.entries == st.mandals.entries[name := NewMandal(name, f.mandalCode)];
      forall m | m in st'.mandals.entries ensures MandalAgrees(st', m) {
        if m == name {
          StudentsOfZero(st, name);
          assert FpsOf(st.fps, name) == {} by {
            forall k | k in st.fps.entries ensures st.fps.entries[k].mandal != name {
              assert st.fps.entries[k].mandal in st.mandals.entries;
            }
          }
          assert SchoolsOf(st.schools, name) == {} by {
            forall k | k in st.schools.entries ensures st.schools.entries[k].mandal != name {
              assert st.schools.entries[k].mandal in st.mandals.entries;
            }
          }
        } else {
          assert MandalAgrees(st, m);
        }
      }
    }
  }

  lemma RegisterFpsWellFormed(st: PointIndex, f: RowFields)
    requires WellFormed(st) && f.mandalName in st.mandals.entries
    ensures WellFormed(RegisterFps(st, f))
  {
    if HasFps(f) && !st.fps.Has(f.shopNo) {
      var st' := RegisterFps(st, f);
      forall m | m in st'.mandals.entries ensures MandalAgrees(st', m) {
        RegisterFpsAgrees(st, f, m);
      }
    }
  }

  /** A new FPS point joins its own mandal's shop set and no other. */
  lemma RegisterFpsAgrees(st: PointIndex, f: RowFields, m: Cell)
    requires st.mandals.Valid() && st.fps.Valid() && st.schools.Valid()
    requires f.mandalName in st.mandals.entries && HasFps(f) && f.shopNo !in st.fps.entries
    requires m in st.mandals.entries && MandalAgrees(st, m)
    ensures m in RegisterFps(st, f).mandals.entries && MandalAgrees(RegisterFps(st, f), m)
  {
    var st' := RegisterFps(st, f);
    assert FpsOf(st'.fps, m) == if m == f.mandalName then FpsOf(st.fps, m) + {f.shopNo} else FpsOf(st.fps, m);
  }

  lemma RegisterSchoolWellFormed(st: PointIndex, f: RowFields)
    requires WellFormed(st) && f.mandalName in st.mandals.entries
    ensures WellFormed(RegisterSchool(st, f))
  {
    if HasSchool(f) && !st.schools.Has(f.schoolName) {
      var st' := RegisterSchool(st, f);
      forall m | m in st'.mandals.entries ensures MandalAgrees(st', m) {
        RegisterSchoolAgrees(st, f, m);
      }
    }
  }

  /** A new school joins its own mandal's school set and student total and
      no other. */
  lemma RegisterSchoolAgrees(st: PointIndex, f: RowFields, m: Cell)
    requires st.mandals.Valid() && st.fps.Valid() && st.schools.Valid()
    requires f.mandalName in st.mandals.entries && HasSchool(f) && f.schoolName !in st.schools.entries
    requires m in st.mandals.entries && MandalAgrees(st, m)
    ensures m in RegisterSchool(st, f).mandals.entries && MandalAgrees(RegisterSchool(st, f), m)
  {
    var st' := RegisterSchool(st, f);
    var d := SchoolData(SchoolLocation(f), f.mandalName, f.totalStudents);
    StudentsOfAppend(st.schools, f.schoolName, d, m);
    assert SchoolsOf(st'.schools, m) == if m == f.mandalName then SchoolsOf(st.schools, m) + {f.schoolName} else SchoolsOf(st.schools, m);
  }

  lemma StepWellFormed(st: PointIndex, f: RowFields)
    requires WellFormed(st)
    ensures WellFormed(Step(st, f))
  {
    if Orphan(st, f) {
      return;
    }
    RegisterMandalWellFormed(st, f);
    RegisterFpsWellFormed(RegisterMandal(st, f), f);
    RegisterSchoolWellFormed(RegisterFps(RegisterMandal(st, f), f), f);
  }

  /** A mandal that owns no school has no students counted. */
  lemma StudentsOfZero(st: PointIndex, m: Cell)
    requires WellFormed(st) && m !in st.mandals.entries
    ensures StudentsOf(st.schools, |st.schools.keys|, m) == Finite(0.0)
  {
    NoSchoolNoStudents(st.schools, |st.schools.keys|, m);
  }

  lemma {:induction false} NoSchoolNoStudents(schools: JsMap<Cell, SchoolData>, n: nat, m: Cell)
    requires schools.Valid() && n <= |schools.keys|
    requires forall t :: 0 <= t < n ==> schools.entries[schools.keys[t]].mandal != m
    ensures StudentsOf(schools, n, m) == Finite(0.0)
  {
    if n > 0 {
      NoSchoolNoStudents(schools, n - 1, m);
    }
  }

  /** The pass keeps its invariant: keys are truthy, coordinates non-zero,
      every point's mandal is registered, and each mandal's shop set, school
      set and student total are those of the points registered under it, with
      its four band counters at 0. */
  lemma {:induction false} IndexWellFormed(fs: seq<RowFields>)
    ensures WellFormed(IndexOf(fs))
  {
    if fs != [] {
      IndexWellFormed(fs[..|fs| - 1]);
      StepWellFormed(IndexOf(fs[..|fs| - 1]), fs[|fs| - 1]);
    }
  }

  // ---------------------------------------------------------------------------
  // Which rows the collections come from

  /** What a step does to the registry: the row's mandal is added unless its
      name is inherited, and a mandal already present keeps its code (only its
      point sets and student total change). */
  lemma StepMandals(st: PointIndex, f: RowFields)
    ensures Step(st, f).mandals.entries.Keys
         == st.mandals.entries.Keys + (if Inherited(f.mandalName) then {} else {f.mandalName})
    ensures forall m :: m in st.mandals.entries ==> Step(st, f).mandals.entries[m].code == st.mandals.entries[m].code
    ensures f.mandalName !in st.mandals.entries && !Inherited(f.mandalName) ==>
              Step(st, f).mandals.entries[f.mandalName].code == f.mandalCode
  {
  }

  /** What a step does to the FPS collection: a complete FPS point's key is
      added when new and the row's mandal is no orphan, and no entry already
      present is replaced. */
  lemma StepFps(st: PointIndex, f: RowFields)
    ensures Step(st, f).fps.entries.Keys
         == st.fps.entries.Keys + (if HasFps(f) && !Orphan(st, f) then {f.shopNo} else {})
    ensures forall k :: k in st.fps.entries ==> Step(st, f).fps.entries[k] == st.fps.entries[k]
    ensures HasFps(f) && !Orphan(st, f) && f.shopNo !in st.fps.entries ==>
              Step(st, f).fps.entries[f.shopNo] == FpsData(FpsLocation(f), f.mandalName)
  {
  }

  /** Likewise for the school collection. */
  lemma StepSchools(st: PointIndex, f: RowFields)
    ensures Step(st, f).schools.entries.Keys
         == st.schools.entries.Keys + (if HasSchool(f) && !Orphan(st, f) then {f.schoolName} else {})
    ensures forall k :: k in st.schools.entries ==> Step(st, f).schools.entries[k] == st.schools.entries[k]
    ensures HasSchool(f) && !Orphan(st, f) && f.schoolName !in st.schools.entries ==>
              Step(st, f).schools.entries[f.schoolName] == SchoolData(SchoolLocation(f), f.mandalName, f.totalStudents)
  {
  }

  /** An inherited name never becomes an own key of the registry, so a row
      naming it is always an orphan. */
  lemma {:induction false} InheritedUnregistered(fs: seq<RowFields>, f: RowFields)
    requires Inherited(f.mandalName)
    ensures f.mandalName !in IndexOf(fs).mandals.entries && Orphan(IndexOf(fs), f)
  {
    if fs != [] {
      InheritedUnregistered(fs[..|fs| - 1], f);
      StepMandals(IndexOf(fs[..|fs| - 1]), fs[|fs| - 1]);
    }
  }

  /** Every row creates its mandal, even one that registers no point, unless
      its name is inherited: the registry holds exactly the other mandal names
      the rows carry. */
  lemma {:induction false} MandalRegistry(fs: seq<RowFields>)
    ensures forall m :: m in IndexOf(fs).mandals.entries <==>
                        !Inherited(m) && exists i :: 0 <= i < |fs| && fs[i].mandalName == m
  {
    if fs != [] {
      var init := fs[..|fs| - 1];
      MandalRegistry(init);
      StepMandals(IndexOf(init), fs[|fs| - 1]);
      forall m ensures m in IndexOf(fs).mandals.entries <==>
                       !Inherited(m) && exists i :: 0 <= i < |fs| && fs[i].mandalName == m {
        if m in IndexOf(init).mandals.entries {
          var i :| 0 <= i < |init| && init[i].mandalName == m;
          assert fs[i] == init[i];
        }
        if exists i :: 0 <= i < |fs| && fs[i].mandalName == m {
          var i :| 0 <= i < |fs| && fs[i].mandalName == m;
          if i < |init| {
            assert init[i] == fs[i];
          }
        }
      }
    }
  }

  /** A mandal keeps the code of the first row that names it. */
  lemma {:induction false} MandalFirstCode(fs: seq<RowFields>, i: nat)
    requires i < |fs| && !Inherited(fs[i].mandalName)
    requires forall j :: 0 <= j < i ==> fs[j].mandalName != fs[i].mandalName
    ensures fs[i].mandalName in IndexOf(fs).mandals.entries
    ensures IndexOf(fs).mandals.entries[fs[i].mandalName].code == fs[i].mandalCode
  {
    var init := fs[..|fs| - 1];
    var name := fs[i].mandalName;
    StepMandals(IndexOf(init), fs[|fs| - 1]);
    if i < |fs| - 1 {
      assert init[i] == fs[i];
      assert forall j :: 0 <= j < i ==> init[j] == fs[j];
      MandalFirstCode(init, i);
    } else {
      MandalRegistry(init);
    }
  }

  /** The shop keys registered are exactly those of the rows that name a
      complete FPS point under a mandal name that is not inherited. */
  lemma {:induction false} FpsRegistry(fs: seq<RowFields>)
    ensures forall k :: k in IndexOf(fs).fps.entries <==>
                        exists i :: 0 <= i < |fs| && HasFps(fs[i]) && !Inherited(fs[i].mandalName) && fs[i].shopNo == k
  {
    if fs != [] {
      var init := fs[..|fs| - 1];
      FpsRegistry(init);
      StepFps(IndexOf(init), fs[|fs| - 1]);
      if Inherited(fs[|fs| - 1].mandalName) {
        InheritedUnregistered(init, fs[|fs| - 1]);
      }
      forall k ensures k in IndexOf(fs).fps.entries <==>
                       exists i :: 0 <= i < |fs| && HasFps(fs[i]) && !Inherited(fs[i].mandalName) && fs[i].shopNo == k {
        if k in IndexOf(init).fps.entries {
          var i :| 0 <= i < |init| && HasFps(init[i]) && !Inherited(init[i].mandalName) && init[i].shopNo == k;
          assert fs[i] == init[i];
        }
        if exists i :: 0 <= i < |fs| && HasFps(fs[i]) && !Inherited(fs[i].mandalName) && fs[i].shopNo == k {
          var i :| 0 <= i < |fs| && HasFps(fs[i]) && !Inherited(fs[i].mandalName) && fs[i].shopNo == k;
          if i < |init| {
            assert init[i] == fs[i];
          }
        }
      }
    }
  }

  /** First wins: the first row that names a complete FPS point for a shop
      key (under a mandal name that is not inherited) fixes that shop's
      location and mandal; later rows with the same key change nothing. */
  lemma {:induction false} FpsFirstWins(fs: seq<RowFields>, i: nat)
    requires i < |fs| && HasFps(fs[i]) && !Inherited(fs[i].mandalName)
    requires forall j :: 0 <= j < i ==>
               !(HasFps(fs[j]) && !Inherited(fs[j].mandalName) && fs[j].shopNo == fs[i].shopNo)
    ensures fs[i].shopNo in IndexOf(fs).fps.entries
    ensures IndexOf(fs).fps.entries[fs[i].shopNo] == FpsData(FpsLocation(fs[i]), fs[i].mandalName)
  {
    var init := fs[..|fs| - 1];
    StepFps(IndexOf(init), fs[|fs| - 1]);
    FpsRegistry(init);
    if i < |fs| - 1 {
      assert init[i] == fs[i];
      assert forall j :: 0 <= j < i ==> init[j] == fs[j];
      FpsFirstWins(init, i);
    }
  }

  /** The school names registered are exactly those of the rows that name a
      complete school point under a mandal name that is not inherited. */
  lemma {:induction false} SchoolRegistry(fs: seq<RowFields>)
    ensures forall k :: k in IndexOf(fs).schools.entries <==>
                        exists i :: 0 <= i < |fs| && HasSchool(fs[i]) && !Inherited(fs[i].mandalName) && fs[i].schoolName == k
  {
    if fs != [] {
      var init := fs[..|fs| - 1];
      SchoolRegistry(init);
      StepSchools(IndexOf(init), fs[|fs| - 1]);
      if Inherited(fs[|fs| - 1].mandalName) {
        InheritedUnregistered(init, fs[|fs| - 1]);
      }
      forall k ensures k in IndexOf(fs).schools.entries <==>
                       exists i :: 0 <= i < |fs| && HasSchool(fs[i]) && !Inherited(fs[i].mandalName) && fs[i].schoolName == k {
        if k in IndexOf(init).schools.entries {
          var i :| 0 <= i < |init| && HasSchool(init[i]) && !Inherited(init[i].mandalName) && init[i].schoolName == k;
          assert fs[i] == init[i];
        }
        if exists i :: 0 <= i < |fs| && HasSchool(fs[i]) && !Inherited(fs[i].mandalName) && fs[i].schoolName == k {
          var i :| 0 <= i < |fs| && HasSchool(fs[i]) && !Inherited(fs[i].mandalName) && fs[i].schoolName == k;
          if i < |init| {
            assert init[i] == fs[i];
          }
        }
      }
    }
  }

  /** First wins for schools: the first complete row for a school name (under
      a mandal name that is not inherited) fixes its location, mandal and
      student count. */
  lemma {:induction false} SchoolFirstWins(fs: seq<RowFields>, i: nat)
    requires i < |fs| && HasSchool(fs[i]) && !Inherited(fs[i].mandalName)
    requires forall j :: 0 <= j < i ==>
               !(HasSchool(fs[j]) && !Inherited(fs[j].mandalName) && fs[j].schoolName == fs[i].schoolName)
    ensures fs[i].schoolName in IndexOf(fs).schools.entries
    ensures IndexOf(fs).schools.entries[fs[i].schoolName] == SchoolData(SchoolLocation(fs[i]), fs[i].mandalName, fs[i].totalStudents)
  {
    var init := fs[..|fs| - 1];
    StepSchools(IndexOf(init), fs[|fs| - 1]);
    SchoolRegistry(init);
    if i < |fs| - 1 {
      assert init[i] == fs[i];
      assert forall j :: 0 <= j < i ==> init[j] == fs[j];
      SchoolFirstWins(init, i);
    }
  }

  /** The pass leaves no mandal exactly when every row's mandal name is
      inherited (so the "no valid mandal data" error needs such an upload). */
  lemma NoOwnMandal(fs: seq<RowFields>)
    ensures IndexOf(fs).mandals.Size() == 0 <==> forall i :: 0 <= i < |fs| ==> Inherited(fs[i].mandalName)
  {
    MandalRegistry(fs);
    IndexWellFormed(fs);
    var entries := IndexOf(fs).mandals.entries;
    if IndexOf(fs).mandals.Size() == 0 {
      forall i | 0 <= i < |fs| ensures Inherited(fs[i].mandalName) {
        assert fs[i].mandalName !in entries;
      }
    }
    if forall i :: 0 <= i < |fs| ==> Inherited(fs[i].mandalName) {
      assert entries.Keys == {};
    }
  }
}
