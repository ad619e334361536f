/** The four distance bands the dashboard reports and the per-mandal counters
    that hold them. */
module Bands {

  datatype Band = LessThan1km | Between1And2km | Between2And5km | MoreThan5km

  /** The band of a nearest-FPS distance in km: half-open intervals
      [0,1), [1,2), [2,5), [5,...), each closed below. */
  function BandOf(d: real): (b: Band)
    ensures b == LessThan1km <==> d < 1.0
    ensures b == Between1And2km <==> 1.0 <= d < 2.0
    ensures b == Between2And5km <==> 2.0 <= d < 5.0
    ensures b == MoreThan5km <==> 5.0 <= d
  {
    if d < 1.0 then LessThan1km
    else if d < 2.0 then Between1And2km
    else if d < 5.0 then Between2And5km
    else MoreThan5km
  }

  /** A mandal's `distanceStats` record. */
  datatype BandStats = BandStats(lessThan1km: nat, between1to2km: nat, between2to5km: nat, moreThan5km: nat) {

    function Count(b: Band): nat {
      match b
      case LessThan1km => lessThan1km
      case Between1And2km => between1to2km
      case Between2And5km => between2to5km
      case MoreThan5km => moreThan5km
    }

    function Total(): nat {
      lessThan1km + between1to2km + between2to5km + moreThan5km
    }
  }

  /** The counters of a freshly created mandal. */
  const NoBands := BandStats(0, 0, 0, 0)

  /** One more school counted in band b. */
  function Bump(s: BandStats, b: Band): (r: BandStats)
    ensures r.Count(b) == s.Count(b) + 1
    ensures forall c :: c != b ==> r.Count(c) == s.Count(c)
    ensures r.Total() == s.Total() + 1
  {
    match b
    case LessThan1km => s.(lessThan1km := s.lessThan1km + 1)
    case Between1And2km => s.(between1to2km := s.between1to2km + 1)
    case Between2And5km => s.(between2to5km := s.between2to5km + 1)
    case MoreThan5km => s.(moreThan5km := s.moreThan5km + 1)
  }

  /** Counter-wise sum, as `combinedStats.distanceStats` accumulates. */
  function Plus(a: BandStats, b: BandStats): (r: BandStats)
    ensures forall c :: r.Count(c) == a.Count(c) + b.Count(c)
    ensures r.Total() == a.Total() + b.Total()
  {
    BandStats(a.lessThan1km + b.lessThan1km, a.between1to2km + b.between1to2km,
              a.between2to5km + b.between2to5km, a.moreThan5km + b.moreThan5km)
  }
}
