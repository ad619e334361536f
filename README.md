# FPS-to-school distance analysis, modelled in Dafny

The dashboard takes an uploaded CSV. Each row names a mandal (an
administrative sub-district), a Fair Price Shop (FPS) with its coordinates,
and a government school with its coordinates and student count. The analysis
pipeline in `script.js` does the following:

1. One forward pass over the rows (`Indexing`). It creates each mandal the
   first time a row names it. It registers each complete FPS point under its
   shop key and each complete school point under its name; the first row for a
   key wins. It adds a newly registered school's students to its mandal. The
   mandal registry is a plain object, so a mandal name that every object
   inherits (`constructor`, `toString`, `__proto__` and the other members of
   `Object.prototype`) finds that inherited member. No record is created for
   it, and a new point under it throws a `TypeError` that ends the pass.
2. Nested loops over every FPS and every school, FPS outer (`DistanceMatrix`).
   Each pair asks the road router for a distance. When the router fails, the
   pair falls back to the straight-line distance, with twice that distance
   rounded as the minutes. Every pair's record is pushed onto the distance
   list, and the school's nearest-FPS entry is replaced only by a strictly
   shorter distance.
3. A walk over the nearest-FPS map that counts each school in one of four
   half-open distance bands of its own mandal (`Bands`, `Aggregation`).
4. `displaySummary` (`Summary`). It combines every mandal's totals and band
   counters. It names the result "ALL MANDALS" when there are several
   mandals. It counts the distinct shops that are some school's nearest at
   2 km or less.
5. The table sort (`DistanceTable`). It sorts the pair list in place by
   distance. The CSV export keeps the pairs closer than 1 km.
6. The upload handler (`Pipeline`). It rejects an empty file, runs the pass,
   reports an error if the pass throws or leaves no mandal, and otherwise
   shows the summary.

Supporting modules model the JavaScript values involved:
- `JsValues`: truthiness, `||`, number addition with NaN, `parseFloat`,
  `parseInt`, `Math.round` and `toUpperCase`.
- `JsMaps`: the insertion-ordered `Map`. The same type is used for the mandal
  object, whose string keys iterate in insertion order.
- `Rows`: reading one row through the alternative column names.

A cell is `Empty`, a text, a number (`Number(Finite(r))` or `NaN`), or a
boolean, since the parser types cells dynamically (it reads `true`, `TRUE`,
`false` and `FALSE` as booleans). Every absent, empty, zero, NaN or false
coordinate or key is falsy, and that is what makes a point incomplete. A
boolean coordinate parses to NaN.

Where the procedure is imperative, the model is too. These are `method`s with
loops, each proved equal to a fold defined on values:
- `CollectPoints` equals `IndexOf`, or reports that the pass throws exactly
  when `Fails` holds;
- `ComputeDistances` equals `MatrixOf` / `NearestOf`;
- `TallyBands` equals `TallyUpTo`;
- `SumMandals` and `CollectSupplying` equal the `Sum*` / `SupplyingUpTo` folds;
- `SortByDistance` is an in-place stable sort on an `array`, with a ghost
  permutation saying where each record came from.

The properties are lemmas about those folds.

The road router and the straight-line distance are parameters of type
`(Cell, Cell, GeoPoint, GeoPoint) -> Option<Route>` and
`(GeoPoint, GeoPoint) -> real`. The router also takes the pair's shop key and
school name. Each pair is asked once, so two pairs at the same coordinates
may get different answers (one call may time out). The model assumes nothing
else about either.

Behaviours of the code worth noting:
- A mandal's `totalStudents` is JavaScript number addition. A school whose
  student cell parses to NaN makes its mandal's total NaN, and the combined
  total too (`SumStudents`). It is not an integer count.
- The router branch and the fallback branch are one step (`VisitPair`): both
  push a record and then relax the nearest entry with its distance.
- Every row whose mandal name is not inherited registers its mandal, even
  one with no usable point. So the "no valid mandal data" error needs every
  row of a non-empty file to carry an inherited name and no new point
  (`NoOwnMandal`, `HandleUpload`). A single row naming the mandal
  `constructor` without a point is such a file (`ConstructorMandal`).
- A row with an inherited mandal name and a new FPS or school point throws
  at `mandal.fpsShops.add` or `mandal.schools.add`. The handler reports
  that error, which is `ProcessingError` (`Fails`, `FailsAt`).
- With a single mandal whose name cell is not text (a number or a boolean),
  `toUpperCase` throws before any total is formed; that is `NameNotText`.

## Model

| member | source | states |
|---|---|---|
| JsValues.Or | script.js:225-227 | `a \|\| b` is `a` when `a` is truthy, and the fallback when it is not |
| JsValues.Or3 | script.js:225-233 | a two-column lookup with a fallback yields the first column when truthy, else the second when truthy, else the fallback |
| JsValues.Add | script.js:268 | number addition is finite exactly when both operands are, and then adds them |
| JsValues.Round | script.js:339 | `Math.round` gives the integer within half of x, halves upward |
| JsValues.Trunc | script.js:233 | `parseInt` of a number whose decimal text has no exponent (magnitude at least 1e-6 and below 1e21) truncates toward zero, for either sign |
| JsValues.ParseInt | script.js:233 | a finite `parseInt` result is an integer |
| JsValues.TrimStart | script.js:228 | leading white space is dropped, and only that: everything dropped is white space, and the result is a suffix not starting with white space |
| JsValues.DigitRun | script.js:228 | the digit run at the start of a text is maximal |
| JsValues.NoDigitNoNumber | script.js:228-233 | a text without any digit parses to NaN under `parseFloat` and `parseInt` |
| JsValues.NotAvailableIsNaN | script.js:228-231 | the `#N/A` sentinel parses to NaN, which is falsy |
| JsValues.ToUpper | script.js:430 | upper-casing keeps the length and maps every character through the ASCII upper-case table |
| JsMaps.JsMap.Set | script.js:258 | `set` keeps a known key in place and appends a new one, keeps the map valid, and updates exactly that entry |
| JsMaps.ValuesMembers | script.js:425 | `Object.values` lists a value exactly when some present key holds it |
| JsMaps.EmptyMap | script.js:278 | a new map is valid and empty |
| Rows.NotAvailableLatitudeNamesNoSchool | script.js:230 | a `#N/A` school latitude makes the row name no school, whatever the other columns hold |
| Bands.BandOf | script.js:374-383 | each of the four bands holds exactly its half-open interval [0,1), [1,2), [2,5), [5,...) |
| Bands.Bump | script.js:375-383 | an increment adds one to the chosen band's counter, leaves the other three alone, and adds one to the total |
| Bands.Plus | script.js:448-451 | combining two records adds them counter by counter and adds their totals |
| Indexing.RegisterMandal | script.js:236-252 | after the row's mandal step, the registry holds the row's mandal |
| Indexing.RegisterFps | script.js:257-261 | registering an FPS point never loses the row's mandal |
| Indexing.AddRow | script.js:224-269 | the per-row callback (create the mandal unless the lookup finds one, register the FPS point, register the school and add its students) throws exactly when the mandal name is inherited and the row has a new point, and otherwise is exactly one `Step` of the fold |
| Indexing.CollectPoints | script.js:224-270 | the loop over all rows from empty collections throws exactly when `Fails` holds of the rows, and otherwise ends in `IndexOf` of the rows |
| Indexing.FailsAt | script.js:224-270 | the pass throws exactly when some row throws in the collections its predecessors built |
| Indexing.FailingRow | script.js:224-270 | a failing pass has a row that throws |
| Indexing.FailsExtends | script.js:224-270 | rows after a throwing row cannot undo the failure |
| Indexing.PassSnoc | script.js:224-270 | one more row is one more step, and a failure when that step throws |
| Indexing.FailureNeedsInherited | script.js:236-266 | the pass throws only when some row's mandal name is inherited |
| Indexing.ConstructorMandal | script.js:236-259 | a single row naming the mandal "constructor" leaves no mandal without a point, and throws with a complete FPS point |
| Indexing.RegisterMandalWellFormed | script.js:236-252 | creating a mandal keeps the index invariant: the new record has empty sets, zero students and zero counters, and owns no point |
| Indexing.RegisterFpsWellFormed | script.js:257-261 | registering an FPS point keeps the index invariant |
| Indexing.RegisterFpsAgrees | script.js:257-261 | a new FPS point joins its own mandal's shop set and no other |
| Indexing.RegisterSchoolWellFormed | script.js:264-269 | registering a school keeps the index invariant |
| Indexing.RegisterSchoolAgrees | script.js:264-269 | a new school joins its own mandal's school set and student total, and no other |
| Indexing.StudentsOfAppend | script.js:268 | registering a school adds its students to its own mandal's total only |
| Indexing.StudentsOfZero | script.js:244 | an unregistered mandal owns no school, so its student total is 0 |
| Indexing.StepWellFormed | script.js:224-270 | one row keeps the index invariant |
| Indexing.IndexWellFormed | script.js:224-270 | after the pass, keys are truthy and coordinates non-zero, every point's mandal is registered, and each mandal's shop set, school set and student total are exactly those of the points registered under it, with all four counters at 0 |
| Indexing.StepMandals | script.js:236-254 | a row adds its mandal to the registry unless the name is inherited, and a mandal already present keeps its code |
| Indexing.StepFps | script.js:254-261 | a row adds its shop key exactly when its FPS point is complete and its mandal lookup found an own record, replaces no existing FPS entry, and stores location and mandal for a new key |
| Indexing.StepSchools | script.js:254-269 | a row adds its school name exactly when its school point is complete and its mandal lookup found an own record, replaces no existing school entry, and stores location, mandal and students for a new name |
| Indexing.InheritedUnregistered | script.js:236-237 | an inherited name never becomes a mandal record, so a row naming it always finds the inherited member |
| Indexing.MandalRegistry | script.js:236-252 | the registry holds exactly the mandal names the rows carry, other than inherited names, including rows that contribute no point |
| Indexing.MandalFirstCode | script.js:236-239 | a mandal keeps the code of the first row that names it |
| Indexing.FpsRegistry | script.js:254-258 | the FPS keys are exactly the shop keys of rows with a complete FPS point under a mandal name that is not inherited |
| Indexing.FpsFirstWins | script.js:254-258 | the first such row for a shop key fixes its location and mandal; later duplicates are ignored |
| Indexing.SchoolRegistry | script.js:254-265 | the school keys are exactly the names of rows with a complete school point under a mandal name that is not inherited |
| Indexing.SchoolFirstWins | script.js:254-265 | the first such row for a school name fixes its location, mandal and students; later duplicates are ignored |
| Indexing.NoOwnMandal | script.js:236-252 | the pass leaves no mandal exactly when every row's mandal name is inherited |
| DistanceMatrix.Evaluate | script.js:286-345 | a routed pair carries the distance and time the router gives for that pair and is not estimated; a failed route carries the straight-line distance, `round(2d)` minutes and the estimate flag; the record carries the FPS's mandal and both locations |
| DistanceMatrix.RowOfSnoc | script.js:281 | a row of the matrix grows by one record per school, in school order |
| DistanceMatrix.MatrixLength | script.js:272 | the distance list holds exactly \|FPS\| × \|schools\| records |
| DistanceMatrix.MatrixEntry | script.js:280-304 | the record of FPS i and school j sits at position i × \|schools\| + j (FPS-major) |
| DistanceMatrix.FirstMin | script.js:306-319 | the kept FPS is one of those visited |
| DistanceMatrix.FirstMinIsFirstMinimum | script.js:307-308 | the kept FPS has the least distance to the school, and every earlier FPS is strictly farther (ties keep the earliest) |
| DistanceMatrix.FirstMinUnique | script.js:307-308 | an FPS that is a minimum with every earlier FPS strictly farther is the kept one |
| DistanceMatrix.Relax | script.js:306-319 | one nearest-map update keeps the map valid and leaves an entry for the school |
| DistanceMatrix.RelaxFrame | script.js:310 | an update touches only that school's entry, appending a new school at the end of the order |
| DistanceMatrix.RelaxedEntry | script.js:307-318 | replacing on a strictly smaller distance turns the first minimum over i FPS into the first minimum over i + 1 |
| DistanceMatrix.RelaxKeys | script.js:307-318 | during the first FPS row the map's keys are the schools visited so far, afterwards all schools |
| DistanceMatrix.RelaxKeepsSettled | script.js:307-318 | other schools' settled entries survive an update |
| DistanceMatrix.RelaxSettlesRow | script.js:307-318 | after visiting school j with FPS i, schools 0 to j hold their first minimum over the first i + 1 FPS |
| DistanceMatrix.RelaxStep | script.js:307-318 | one inner iteration keeps the row invariant of the nearest map |
| DistanceMatrix.RowStart | script.js:281 | entering a row keeps the nearest map's invariant |
| DistanceMatrix.RowEnd | script.js:366 | finishing a row settles every school for one more FPS |
| DistanceMatrix.VisitPair | script.js:282-362 | one pair appends its record (routed, or estimated on failure) and relaxes the school's entry |
| DistanceMatrix.ComputeDistances | script.js:272-367 | `processed` ends at `totalCalculations`; the list is the dense FPS-major matrix; the nearest map has an entry for every school exactly when an FPS exists, in school order, each the first FPS at the least distance, none farther than any pair of that school |
| DistanceMatrix.NearestIsMinimal | script.js:307-308 | a school's stored distance is at most that of every FPS for it |
| Aggregation.StatsCountBands | script.js:375-383 | each counter of a mandal counts exactly its schools in that band |
| Aggregation.StatsTotal | script.js:371-387 | each nearest entry of a mandal is counted once: the counters add up to the mandal's entries |
| Aggregation.BandsPartition | script.js:374-383 | the four band counts of a mandal add up to its entries, so the bands partition them |
| Aggregation.MatchingKeysMembers | script.js:371-373 | the entries that belong to a mandal are exactly the visited ones tagged with it |
| Aggregation.CountIsCardinality | script.js:371-373 | the count of a mandal's entries is the number of their distinct school names |
| Aggregation.NearestCountsSchools | script.js:371-373 | a nearest map over all schools, tagged with their mandals, has exactly \|mandal.schools\| entries for each mandal |
| Aggregation.TallyKeepsKeys | script.js:371-373 | the walk keeps the registry valid, its keys and their order |
| Aggregation.TallyEffect | script.js:371-387 | the walk keeps every field of a record but the counters, which become the band counts of that mandal's entries |
| Aggregation.TallyBands | script.js:371-387 | the walk over the nearest map, with the if-chain, computes `TallyUpTo` |
| Aggregation.NearestStatsTotal | script.js:371-387 | over a nearest map of all schools, a mandal's four counters add up to \|mandal.schools\| |
| Summary.HeadingName | script.js:430 | the name is "ALL MANDALS" for several mandals, and the single mandal's name upper-cased when it is text; otherwise there is none |
| Summary.SumStudents | script.js:447 | the combined student total is a number exactly when every mandal's total is |
| Summary.SumStats | script.js:448-451 | each combined counter is the sum of that counter over the mandals |
| Summary.SupplyingMembers | script.js:455-460 | a shop is supplying exactly when some school's nearest entry names it at 2 km or less, the bound included |
| Summary.SupplyingBounded | script.js:455-461 | there are no more supplying shops than nearest entries within 2 km, and no more than entries |
| Summary.SumMandals | script.js:444-452 | the loop over the records computes the four combined totals |
| Summary.CollectSupplying | script.js:455-460 | the loop over the nearest map collects the supplying shops |
| Summary.DisplaySummary | script.js:424-461 | without mandals nothing is computed; a non-text single name fails; otherwise the result is the heading name, the summed totals and counters, and the number of distinct supplying shops |
| Summary.FpsSumOwned | script.js:445 | over the first n records, the summed shop sets count the FPS points those mandals own |
| Summary.SchoolSumOwned | script.js:446 | over the first n records, the summed school sets count the school points those mandals own |
| Summary.FpsTotal | script.js:445 | the combined FPS total is the number of distinct FPS points |
| Summary.SchoolsTotal | script.js:446 | the combined school total is the number of distinct school points |
| DistanceTable.SortByDistance | script.js:689 | the sort leaves the array in non-decreasing distance order; position k holds the record that was at perm[k] for a permutation perm; records of equal distance keep their original relative order (stability) |
| DistanceTable.InsertAt | script.js:689 | one insertion extends the sorted, stable prefix by one, moving records only by a permutation |
| DistanceTable.MoveLeft | script.js:689 | moving the inserted record past a strictly larger neighbour keeps the insertion invariant |
| DistanceTable.StopMoving | script.js:689 | stopping at a smaller or equal neighbour, or at the front, leaves a sorted, stable prefix one longer |
| DistanceTable.Swap | script.js:689 | an exchange swaps two records and keeps all others |
| DistanceTable.NearbyPairs | script.js:528 | the export filter never adds records |
| DistanceTable.NearbyMembers | script.js:528 | a record is exported exactly when it is listed and closer than 1 km |
| DistanceTable.NearbyPairsOfAppend | script.js:528 | the filter keeps the order: filtering a concatenation filters each part |
| DistanceTable.AllNearbyKept | script.js:528 | a list entirely within 1 km passes the filter unchanged |
| DistanceTable.SortedNearbyIsPrefix | script.js:528 | on the sorted list the exported records are a prefix of it |
| DistanceTable.ExportOutcomes | script.js:521-533 | an empty list alerts "no data"; a list with nothing under 1 km alerts "none found"; otherwise the export is non-empty and holds exactly the records under 1 km |
| Pipeline.NearestMandals | script.js:317 | every nearest entry carries its school's mandal |
| Pipeline.ProcessDataWithRoadDistances | script.js:224-400 | the pass throws exactly when `Fails` holds of the rows; otherwise it returns the rows' index, \|FPS\| × \|schools\| processed pairs, the dense matrix, the first-minimum nearest map (an entry per school exactly when an FPS exists) and each mandal record tallied from it, its counters adding up to \|mandal.schools\| when an FPS exists and 0 otherwise |
| Pipeline.FreshRecords | script.js:236-252 | the records reach the walk with counters at 0 and their own school sets |
| Pipeline.Tallied | script.js:371-387 | the walked registry has the index's keys and order, and every record is the indexed one with its counters tallied |
| Pipeline.TalliedTotal | script.js:371-387 | a mandal's counters add up to its schools when an FPS exists, and are 0 otherwise |
| Pipeline.SameSets | script.js:444-446 | records differing only in counters give the same shop and school totals |
| Pipeline.BandsCoverSchools | script.js:448-451 | when each record's counters add up to its schools, the combined counters add up to the combined school total |
| Pipeline.SupplyingAreShops | script.js:455-461 | every supplying shop is an FPS point, so there are at most as many as FPS points and as schools |
| Pipeline.CombinedTotals | script.js:444-452 | after the pass, the combined FPS and school totals are the numbers of distinct points, and with any FPS the combined counters add up to the school total |
| Pipeline.HandleUpload | script.js:911-968 | an empty file is "no data"; a non-empty file whose pass throws shows that error; the "no valid mandal data" error occurs exactly when the pass does not throw and every row's mandal name is inherited; a shown summary is of some mandal, and a combined summary reports the distinct point totals, counters adding up to the school total when an FPS exists, and at most as many supplying shops as FPS points and schools |

## Left out

- The browser side: the DOM, the progress bar, the summary HTML and the
  student line, the map, markers, popups and route display, the PDF and CSV
  file writing, and `console.log`. None of it carries state the analysis
  uses.
- CSV parsing by the parser library. The rows arrive as a sequence of header
  to cell maps; parse warnings are only logged.
- The router's internals (the network call, its metre-to-km `toFixed` string
  round trip, the route handles) and the haversine arithmetic. Both are
  function parameters. Nothing about them is assumed, not even a
  non-negative distance; no property needs one.
- The 150 ms delay and the async sequencing. The router is called in order,
  once per pair, and the model takes its answers as given.
- An exception raised inside the `try` block after the record is pushed (by
  the delay, say). It would push a second, estimated record for the same
  pair. The model has only the router call's two outcomes, a route or a
  failure.
- The per-mandal `fpsCoords` and `schoolCoords` maps. They are written but
  never read by the analysis.
- JavaScript number parsing beyond sign, digits and a decimal fraction:
  exponents, `Infinity`, hexadecimal. Infinite numbers are not represented.
- Trunc: `parseInt` of a number reads back its decimal text. A number below
  1e-6 or from 1e21 up in magnitude is written with an exponent, so
  `parseInt(1e-7)` and `parseInt(1e21)` are both 1. The model truncates
  every finite number.
- The parser also turns ISO date texts into `Date` objects. The model reads
  such a cell as text. A `Date` is truthy and `parseFloat` of it is NaN,
  while a date text may start with digits.
- `toUpperCase` beyond the ASCII letters.
- The string coercion of object keys: a mandal named by the number 1 and one
  named by the text "1" are two keys here but one property in JavaScript.
  Also left out is the ordering of integer-like keys first in
  `Object.values`; the model uses insertion order for every key.
- HandleUpload: the shown error text of a failing single-mandal heading is
  not modelled; it is the `NameNotText` outcome.
