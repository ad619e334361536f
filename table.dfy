/** The distance table and the 1 km export: the pair list is sorted in place
    by distance before it is shown, and the export keeps the pairs closer
    than 1 km. */
module DistanceTable {
  import opened DistanceMatrix

  predicate SortedByDistance(s: seq<PairDistance>) {
    forall p, q :: 0 <= p < q < |s| ==> s[p].distance <= s[q].distance
  }

  /** perm lists each of 0 .. n-1 once. */
  ghost predicate IsPermutation(perm: seq<nat>, n: nat) {
    && |perm| == n
    && (forall k :: 0 <= k < n ==> perm[k] < n)
    && (forall p, q :: 0 <= p < q < n ==> perm[p] != perm[q])
  }

  /** `distances.sort((a, b) => a.distance - b.distance)`: afterwards the
      array holds the same pairs in ascending distance, and pairs of equal
      distance keep their relative order, as the stable `Array.prototype.sort`
      does. Position k now holds the pair that was at perm[k]. */
  method SortByDistance(a: array<PairDistance>) returns (ghost perm: seq<nat>)
    modifies a
    ensures SortedByDistance(a[..])
    ensures IsPermutation(perm, a.Length)
    ensures forall k :: 0 <= k < a.Length ==> a[k] == old(a[..])[perm[k]]
    ensures forall p, q :: 0 <= p < q < a.Length && a[p].distance == a[q].distance ==> perm[p] < perm[q]
  {
    ghost var original := a[..];
    perm := seq(a.Length, k => k);
    NothingSorted(original, perm);
    var i := 0;
    while i < a.Length
      invariant 0 <= i <= a.Length
      invariant Prefix(a[..], original, perm, i)
    {
      perm := InsertAt(a, i, original, perm);
      i := i + 1;
    }
    SortedPrefix(a[..], original, perm);
  }

  /** Moves a[i] left past every larger element of the sorted prefix a[..i],
      stopping at an equal one, so equal distances keep their order. */
  method InsertAt(a: array<PairDistance>, i: nat, ghost original: seq<PairDistance>, ghost perm: seq<nat>)
    returns (ghost perm': seq<nat>)
    requires i < a.Length && Prefix(a[..], original, perm, i)
    modifies a
    ensures Prefix(a[..], original, perm', i + 1)
  {
    perm' := perm;
    var j := i;
    StartMoving(a[..], original, perm, i);
    while j > 0 && a[j - 1].distance > a[j].distance
      invariant 0 <= j <= i
      invariant Moving(a[..], original, perm', i, j)
    {
      MoveLeft(a[..], original, perm', i, j);
      Swap(a, j - 1, j);
      perm' := Swapped(perm', j - 1, j);
      j := j - 1;
    }
    StopMoving(a[..], original, perm', i, j);
  }

  /** Exchanges two elements, leaving the others as they were. */
  method Swap(a: array<PairDistance>, p: nat, q: nat)
    requires p < q < a.Length
    modifies a
    ensures a[..] == Swapped(old(a[..]), p, q)
  {
    a[p], a[q] := a[q], a[p];
  }

  function Swapped<T>(s: seq<T>, p: nat, q: nat): (r: seq<T>)
    requires p < q < |s|
    ensures |r| == |s| && r[p] == s[q] && r[q] == s[p]
    ensures forall k :: 0 <= k < |s| && k != p && k != q ==> r[k] == s[k]
  {
    s[p := s[q]][q := s[p]]
  }

  /** Between two insertions: s[..i] is sorted, and stable with respect to
      original; position k holds original[perm[k]], perm is one-to-one, the
      first i positions hold the first i pairs, and s[i..] has not moved. */
  ghost predicate Prefix(s: seq<PairDistance>, original: seq<PairDistance>, perm: seq<nat>, i: nat) {
    && i <= |s| && |perm| == |s| && |original| == |s|
    && (forall p, q :: 0 <= p < q < i ==> s[p].distance <= s[q].distance)
    && (forall k :: 0 <= k < |s| ==> perm[k] < |s| && s[k] == original[perm[k]])
    && (forall k :: 0 <= k < i ==> perm[k] < i)
    && (forall k :: i <= k < |s| ==> perm[k] == k)
    && (forall p, q :: 0 <= p < q < |s| ==> perm[p] != perm[q])
    && (forall p, q :: 0 <= p < q < i && s[p].distance == s[q].distance ==> perm[p] < perm[q])
  }

  /** While the pair that was at i moves left: it is now at j, ahead of
      strictly larger pairs only, and the others keep the order of Prefix. */
  ghost predicate Moving(s: seq<PairDistance>, original: seq<PairDistance>, perm: seq<nat>, i: nat, j: nat) {
    && j <= i < |s| && |perm| == |s| && |original| == |s|
    && (forall p, q :: 0 <= p < q <= i && p != j && q != j ==> s[p].distance <= s[q].distance)
    && (forall q :: j < q <= i ==> s[j].distance < s[q].distance)
    && (forall k :: 0 <= k < |s| ==> perm[k] < |s| && s[k] == original[perm[k]])
    && perm[j] == i
    && (forall k :: 0 <= k <= i && k != j ==> perm[k] < i)
    && (forall k :: i < k < |s| ==> perm[k] == k)
    && (forall p, q :: 0 <= p < q < |s| ==> perm[p] != perm[q])
    && (forall p, q :: 0 <= p < q <= i && p != j && q != j && s[p].distance == s[q].distance ==> perm[p] < perm[q])
  }

  /** Before the first insertion nothing has moved. */
  lemma NothingSorted(s: seq<PairDistance>, perm: seq<nat>)
    requires |perm| == |s| && forall k :: 0 <= k < |s| ==> perm[k] == k
    ensures Prefix(s, s, perm, 0)
  {
  }

  lemma StartMoving(s: seq<PairDistance>, original: seq<PairDistance>, perm: seq<nat>, i: nat)
    requires i < |s| && Prefix(s, original, perm, i)
    ensures Moving(s, original, perm, i, i)
  {
  }

  /** One exchange with a strictly larger left neighbour keeps Moving. */
  lemma MoveLeft(s: seq<PairDistance>, original: seq<PairDistance>, perm: seq<nat>, i: nat, j: nat)
    requires Moving(s, original, perm, i, j) && 0 < j && s[j - 1].distance > s[j].distance
    ensures Moving(Swapped(s, j - 1, j), original, Swapped(perm, j - 1, j), i, j - 1)
  {
  }

  /** Stopping next to a smaller or equal neighbour, or at the front, gives a
      sorted and stable prefix one longer. */
  lemma StopMoving(s: seq<PairDistance>, original: seq<PairDistance>, perm: seq<nat>, i: nat, j: nat)
    requires Moving(s, original, perm, i, j) && (j == 0 || s[j - 1].distance <= s[j].distance)
    ensures Prefix(s, original, perm, i + 1)
  {
  }

  /** The whole array done: sorted, a permutation, and stable. */
  lemma SortedPrefix(s: seq<PairDistance>, original: seq<PairDistance>, perm: seq<nat>)
    requires Prefix(s, original, perm, |s|)
    ensures SortedByDistance(s) && IsPermutation(perm, |s|)
    ensures forall k :: 0 <= k < |s| ==> s[k] == original[perm[k]]
    ensures forall p, q :: 0 <= p < q < |s| && s[p].distance == s[q].distance ==> perm[p] < perm[q]
  {
  }

  /** `distanceData.filter(item => item.distance < 1)` */
  function NearbyPairs(ds: seq<PairDistance>): (r: seq<PairDistance>)
    ensures |r| <= |ds|
  {
    if ds == [] then []
    else NearbyPairs(ds[..|ds| - 1]) + if ds[|ds| - 1].distance < 1.0 then [ds[|ds| - 1]] else []
  }

  /** A pair is exported exactly when it is in the list and closer than 1 km. */
  lemma {:induction false} NearbyMembers(ds: seq<PairDistance>, x: PairDistance)
    ensures x in NearbyPairs(ds) <==> x in ds && x.distance < 1.0
  {
    if ds != [] {
      var init := ds[..|ds| - 1];
      NearbyMembers(init, x);
      assert ds == init + [ds[|ds| - 1]];
    }
  }

  /** The filter keeps the pairs' order: filtering a concatenation filters
      each part. */
  lemma {:induction false} NearbyPairsOfAppend(a: seq<PairDistance>, b: seq<PairDistance>)
    ensures NearbyPairs(a + b) == NearbyPairs(a) + NearbyPairs(b)
    decreases |b|
  {
    if b == [] {
      assert a + b == a;
    } else {
      var b' := b[..|b| - 1];
      assert (a + b)[..|a + b| - 1] == a + b';
      assert (a + b)[|a + b| - 1] == b[|b| - 1];
      NearbyPairsOfAppend(a, b');
    }
  }

  /** A list whose every pair is within 1 km passes the filter unchanged. */
  lemma {:induction false} AllNearbyKept(ds: seq<PairDistance>)
    requires forall p :: 0 <= p < |ds| ==> ds[p].distance < 1.0
    ensures NearbyPairs(ds) == ds
  {
    if ds != [] {
      var init := ds[..|ds| - 1];
      AllNearbyKept(init);
      assert ds == init + [ds[|ds| - 1]];
    }
  }

  /** Once the list is sorted, the pairs within 1 km are a prefix of it: the
      export lists the first rows of the table, in the table's order. */
  lemma {:induction false} SortedNearbyIsPrefix(ds: seq<PairDistance>)
    requires SortedByDistance(ds)
    ensures NearbyPairs(ds) == ds[..|NearbyPairs(ds)|]
  {
    if ds != [] {
      var init := ds[..|ds| - 1];
      if ds[|ds| - 1].distance < 1.0 {
        AllNearbyKept(ds);
      } else {
        assert SortedByDistance(init);
        SortedNearbyIsPrefix(init);
        var k := |NearbyPairs(init)|;
        assert ds[..k] == init[..k];
      }
    }
  }

  /** What the export button leads to: an alert for a missing list, an alert
      when nothing is within 1 km, or the rows written to the file. */
  datatype ExportOutcome = NoData | NoneNearby | Export(rows: seq<PairDistance>)

  function ExportNearby(distanceData: seq<PairDistance>): ExportOutcome {
    if distanceData == [] then NoData
    else
      var nearbyData := NearbyPairs(distanceData);
      if nearbyData == [] then NoneNearby else Export(nearbyData)
  }

  /** The three outcomes of the export and when each happens. */
  lemma ExportOutcomes(distanceData: seq<PairDistance>)
    ensures ExportNearby(distanceData) == NoData <==> distanceData == []
    ensures ExportNearby(distanceData) == NoneNearby <==>
              distanceData != [] && forall p :: 0 <= p < |distanceData| ==> distanceData[p].distance >= 1.0
    ensures ExportNearby(distanceData).Export? ==>
              ExportNearby(distanceData).rows != [] &&
              forall x :: x in ExportNearby(distanceData).rows <==> x in distanceData && x.distance < 1.0
  {
    var r := NearbyPairs(distanceData);
    forall x
      ensures x in r <==> x in distanceData && x.distance < 1.0
    {
      NearbyMembers(distanceData, x);
    }
    if r != [] {
      assert r[0] in r;
    }
  }
}
