/**
  Donor search in src/context/BloodContext.tsx:
  - the available donors of a blood type (`getCompatibleDonors` and the exact-type filter);
  - their road routes from the hospital;
  - the ranking by distance (`findAllDonorsSorted`, `findNearestDonor`);
  - the nearest-donor scan inside `processRequest`.

  The pure functions take the routing as a parameter `routeTo`, which stands for
  `area => dijkstra(hospital, area)`. `RoutesFrom` says that it answers the way
  the router does. The methods at the end compute it with the router.
 */
module DonorRanking {
  import opened Optional
  import opened Collections
  import opened BloodTypes
  import opened Graphs
  import opened Router
  import opened LahoreRoads
  import opened Sorting

  datatype Donor = Donor(id: string, name: string, bloodType: BloodType, area: Area, phone: string, isAvailable: bool)

  /** A donor with the route (area names) and road distance from the hospital. */
  datatype DonorWithDistance = DonorWithDistance(donor: Donor, route: seq<string>, distance: int)

  /** `routeTo(a)` is a route answer of the router from `hospital` to `a`, for every area. */
  ghost predicate RoutesFrom(hospital: Area, routeTo: Area -> Route<Area>) {
    forall a :: RouteSpec(RoadNetwork, hospital, a, routeTo(a))
  }

  /** The exact-type pool: available donors of type `t`, in list order. */
  function ExactDonors(donors: seq<Donor>, t: BloodType): (r: seq<Donor>)
    ensures forall d :: d in r <==> d in donors && d.bloodType == t && d.isAvailable
    ensures forall d :: multiset(r)[d] == if d.bloodType == t && d.isAvailable then multiset(donors)[d] else 0
  {
    var p := (d: Donor) => d.bloodType == t && d.isAvailable;
    FilterMembers(donors, p);
    FilterCounts(donors, p);
    Filter(donors, p)
  }

  /** `getCompatibleDonors`: available donors whose type the recipient's table row lists. */
  function CompatibleDonors(donors: seq<Donor>, recipient: BloodType): (r: seq<Donor>)
    ensures forall d :: d in r <==> d in donors && d.isAvailable && Transfusable(d.bloodType, recipient)
    ensures forall d :: multiset(r)[d] == if d.isAvailable && Transfusable(d.bloodType, recipient) then multiset(donors)[d] else 0
  {
    forall d: Donor ensures d.bloodType in BloodCompatibility(recipient) <==> Transfusable(d.bloodType, recipient) {
      BloodCompatibilityIsTransfusable(d.bloodType, recipient);
    }
    var p := (d: Donor) => d.bloodType in BloodCompatibility(recipient) && d.isAvailable;
    FilterMembers(donors, p);
    FilterCounts(donors, p);
    Filter(donors, p)
  }

  /** The exact-type pool used for matching is part of the compatible pool. */
  lemma ExactDonorsAreCompatible(donors: seq<Donor>, t: BloodType)
    ensures forall d :: d in ExactDonors(donors, t) ==> d in CompatibleDonors(donors, t)
  {
    BloodCompatibilityFacts(t);
    BloodCompatibilityIsTransfusable(t, t);
  }

  /** `updateDonorAvailability`: every donor with the id gets the flag; nothing else changes. */
  function UpdateDonorAvailability(donors: seq<Donor>, id: string, isAvailable: bool): (r: seq<Donor>)
    ensures |r| == |donors|
    ensures forall i :: 0 <= i < |donors| ==> r[i].(isAvailable := donors[i].isAvailable) == donors[i]
    ensures forall i :: 0 <= i < |donors| ==>
              r[i].isAvailable == if donors[i].id == id then isAvailable else donors[i].isAvailable
  {
    seq(|donors|, i requires 0 <= i < |donors| =>
      if donors[i].id == id then donors[i].(isAvailable := isAvailable) else donors[i])
  }

  /** Setting a donor unavailable removes exactly the donors with that id from every pool. */
  lemma WithdrawnDonorLeavesPool(donors: seq<Donor>, id: string, t: BloodType)
    ensures forall d :: d in ExactDonors(UpdateDonorAvailability(donors, id, false), t) <==>
                        d in ExactDonors(donors, t) && d.id != id
  {
    var u := UpdateDonorAvailability(donors, id, false);
    forall d ensures d in u && d.bloodType == t && d.isAvailable <==> d in donors && d.bloodType == t && d.isAvailable && d.id != id {
      if d in u && d.isAvailable {
        var i :| 0 <= i < |u| && u[i] == d;
        assert donors[i] == d;
      }
      if d in donors && d.isAvailable && d.id != id {
        var i :| 0 <= i < |donors| && donors[i] == d;
        assert u[i] == d;
      }
    }
  }

  /** Setting the same flag twice is the same as setting it once. */
  lemma UpdateDonorAvailabilityIdempotent(donors: seq<Donor>, id: string, isAvailable: bool)
    ensures UpdateDonorAvailability(UpdateDonorAvailability(donors, id, isAvailable), id, isAvailable)
            == UpdateDonorAvailability(donors, id, isAvailable)
  {
  }

  /** `path.map(getAreaName)` on a router path: the display name of every area on it. */
  function RouteNames(path: seq<Area>): (names: seq<string>)
    ensures |names| == |path|
    ensures forall i :: 0 <= i < |path| ==> names[i] == AreaName(path[i])
  {
    seq(|path|, i requires 0 <= i < |path| => GetAreaName(AreaId(path[i])))
  }

  /** The sort key of the ranking. */
  function DistanceOf(e: DonorWithDistance): int {
    e.distance
  }

  /** The entry pushed for a donor with a route answer. */
  function Entry(d: Donor, r: Route<Area>): DonorWithDistance {
    DonorWithDistance(d, RouteNames(r.path), r.distance)
  }

  /** The loop of `findAllDonorsSorted`: candidates with a route (distance >= 0), in candidate order. */
  function Reachables(cands: seq<Donor>, routeTo: Area -> Route<Area>): (r: seq<DonorWithDistance>)
    ensures |r| <= |cands|
  {
    if |cands| == 0 then []
    else
      var rt := routeTo(cands[0].area);
      (if rt.distance >= 0 then [Entry(cands[0], rt)] else []) + Reachables(cands[1..], routeTo)
  }

  /** The entries kept are exactly the candidates' own entries with a route. */
  lemma {:induction false} ReachablesMembers(cands: seq<Donor>, routeTo: Area -> Route<Area>)
    ensures forall e :: e in Reachables(cands, routeTo) <==>
              e.donor in cands && e == Entry(e.donor, routeTo(e.donor.area)) && e.distance >= 0
    decreases |cands|
  {
    if |cands| > 0 {
      ReachablesMembers(cands[1..], routeTo);
      assert forall d :: d in cands <==> d == cands[0] || d in cands[1..];
    }
  }

  /** `findAllDonorsSorted` given the routing: the reachable exact-type donors, nearest first, stably. */
  function RankDonors(donors: seq<Donor>, t: BloodType, routeTo: Area -> Route<Area>): (r: seq<DonorWithDistance>)
    ensures forall e :: e in r <==>
              && e.donor in donors && e.donor.bloodType == t && e.donor.isAvailable
              && e == Entry(e.donor, routeTo(e.donor.area)) && e.distance >= 0
    ensures SortedBy(r, DistanceOf)
    ensures multiset(r) == multiset(Reachables(ExactDonors(donors, t), routeTo))
    ensures forall k :: WithKey(r, DistanceOf, k) == WithKey(Reachables(ExactDonors(donors, t), routeTo), DistanceOf, k)
  {
    var s := Reachables(ExactDonors(donors, t), routeTo);
    ReachablesMembers(ExactDonors(donors, t), routeTo);
    SortByKeepsElements(s, DistanceOf);
    SortBy(s, DistanceOf)
  }

  /** `findNearestDonor` given the routing: the head of the ranking, if any. */
  function NearestDonor(donors: seq<Donor>, t: BloodType, routeTo: Area -> Route<Area>): (r: Option<DonorWithDistance>)
    ensures r.None? <==> forall d :: d in donors && d.bloodType == t && d.isAvailable ==> routeTo(d.area).distance < 0
    ensures r.Some? ==> r.value in RankDonors(donors, t, routeTo)
    ensures r.Some? ==> forall e :: e in RankDonors(donors, t, routeTo) ==> r.value.distance <= e.distance
  {
    var ranked := RankDonors(donors, t, routeTo);
    if |ranked| > 0 then
      SortedHeadIsLeast(ranked, DistanceOf);
      SomethingRanked(donors, t, routeTo);
      Some(ranked[0])
    else
      NothingRanked(donors, t, routeTo);
      None
  }

  /** A non-empty ranking has an available donor of the type with a route. */
  lemma SomethingRanked(donors: seq<Donor>, t: BloodType, routeTo: Area -> Route<Area>)
    requires RankDonors(donors, t, routeTo) != []
    ensures exists d :: d in donors && d.bloodType == t && d.isAvailable && routeTo(d.area).distance >= 0
  {
    var e := RankDonors(donors, t, routeTo)[0];
    assert e in RankDonors(donors, t, routeTo);
    assert e.donor in donors && routeTo(e.donor.area).distance >= 0;
  }

  /** An empty ranking means no available donor of the type has a route. */
  lemma NothingRanked(donors: seq<Donor>, t: BloodType, routeTo: Area -> Route<Area>)
    requires RankDonors(donors, t, routeTo) == []
    ensures forall d :: d in donors && d.bloodType == t && d.isAvailable ==> routeTo(d.area).distance < 0
  {
    forall d | d in donors && d.bloodType == t && d.isAvailable ensures routeTo(d.area).distance < 0 {
      assert Entry(d, routeTo(d.area)) !in RankDonors(donors, t, routeTo);
    }
  }

  // ---------------------------------------------------------------------------
  // The scan of `processRequest`, which keeps the first strictly shorter route.

  /**
    The candidates' loop of `processRequest`, from a best-so-far `best`
    (`None` stands for the initial `Infinity`).
   */
  function NearestScan(cands: seq<Donor>, routeTo: Area -> Route<Area>, best: Option<DonorWithDistance>): Option<DonorWithDistance>
    decreases |cands|
  {
    if |cands| == 0 then best
    else
      var rt := routeTo(cands[0].area);
      var best' := if rt.distance >= 0 && (best.None? || rt.distance < best.value.distance)
                   then Some(Entry(cands[0], rt)) else best;
      NearestScan(cands[1..], routeTo, best')
  }

  function Front(best: Option<DonorWithDistance>): seq<DonorWithDistance> {
    if best.Some? then [best.value] else []
  }

  /** `r` is the first entry of least distance in `s`, or nothing when `s` is empty. */
  ghost predicate FirstNearest(s: seq<DonorWithDistance>, r: Option<DonorWithDistance>) {
    && (r.None? <==> s == [])
    && (s != [] ==> exists i :: IsFirstMin(s, DistanceOf, i) && r == Some(s[i]))
  }

  lemma FirstNearestSingle(b: DonorWithDistance)
    ensures FirstNearest([b], Some(b))
  {
    assert IsFirstMin([b], DistanceOf, 0);
  }

  /** A farther entry in front does not change the first nearest one. */
  lemma FirstNearestBehindFarther(b: DonorWithDistance, s: seq<DonorWithDistance>, r: Option<DonorWithDistance>)
    requires FirstNearest(s, r) && s != [] && s[0].distance < b.distance
    ensures FirstNearest([b] + s, r)
  {
    var i :| IsFirstMin(s, DistanceOf, i) && r == Some(s[i]);
    assert DistanceOf(s[i]) <= DistanceOf(s[0]);
    FirstMinBehindLarger(b, s, DistanceOf, i);
  }

  /** An entry no nearer than the front one, slipped in behind it, does not change the first nearest one. */
  lemma FirstNearestPastFront(b: DonorWithDistance, e: DonorWithDistance, s: seq<DonorWithDistance>, r: Option<DonorWithDistance>)
    requires FirstNearest([b] + s, r) && b.distance <= e.distance
    ensures FirstNearest([b, e] + s, r)
  {
    var i :| IsFirstMin([b] + s, DistanceOf, i) && r == Some(([b] + s)[i]);
    FirstMinPastFront(b, e, s, DistanceOf, i);
  }

  /** The scan returns the first entry of least distance among the best-so-far and the reachable candidates. */
  lemma {:induction false} ScanFindsFirstMin(cands: seq<Donor>, routeTo: Area -> Route<Area>, best: Option<DonorWithDistance>)
    ensures FirstNearest(Front(best) + Reachables(cands, routeTo), NearestScan(cands, routeTo, best))
    decreases |cands|
  {
    var s := Front(best) + Reachables(cands, routeTo);
    var r := NearestScan(cands, routeTo, best);
    if |cands| == 0 {
      assert s == Front(best);
      if best.Some? {
        FirstNearestSingle(best.value);
      }
    } else {
      var rt := routeTo(cands[0].area);
      var rest := Reachables(cands[1..], routeTo);
      var best' := if rt.distance >= 0 && (best.None? || rt.distance < best.value.distance)
                   then Some(Entry(cands[0], rt)) else best;
      assert r == NearestScan(cands[1..], routeTo, best');
      ScanFindsFirstMin(cands[1..], routeTo, best');
      var s' := Front(best') + rest;
      if rt.distance < 0 {
        assert s == s';
      } else if best.None? {
        assert s == s';
      } else {
        var e, b := Entry(cands[0], rt), best.value;
        assert s == [b, e] + rest;
        assert s' == if e.distance < b.distance then [e] + rest else [b] + rest;
        FirstNearestStep(b, e, rest, r);
      }
    }
  }

  /** One step of the scan with a best-so-far `b` and a reachable candidate entry `e`. */
  lemma FirstNearestStep(b: DonorWithDistance, e: DonorWithDistance, rest: seq<DonorWithDistance>, r: Option<DonorWithDistance>)
    requires e.distance < b.distance ==> FirstNearest([e] + rest, r)
    requires b.distance <= e.distance ==> FirstNearest([b] + rest, r)
    ensures FirstNearest([b, e] + rest, r)
  {
    if e.distance < b.distance {
      assert [b, e] + rest == [b] + ([e] + rest);
      FirstNearestBehindFarther(b, [e] + rest, r);
    } else {
      FirstNearestPastFront(b, e, rest, r);
    }
  }

  /** `processRequest` picks the same donor, route and distance as `findNearestDonor`. */
  lemma ScanAgreesWithRanking(donors: seq<Donor>, t: BloodType, routeTo: Area -> Route<Area>)
    ensures NearestScan(ExactDonors(donors, t), routeTo, None) == NearestDonor(donors, t, routeTo)
  {
    var s := Reachables(ExactDonors(donors, t), routeTo);
    ScanFindsFirstMin(ExactDonors(donors, t), routeTo, None);
    assert Front(None) + s == s;
    assert FirstNearest(s, NearestScan(ExactDonors(donors, t), routeTo, None));
    if s != [] {
      var i :| IsFirstMin(s, DistanceOf, i) && NearestScan(ExactDonors(donors, t), routeTo, None) == Some(s[i]);
      SortedHead(s, DistanceOf, i);
    } else {
      assert |RankDonors(donors, t, routeTo)| == |s|;
    }
  }

  // ---------------------------------------------------------------------------
  // Ranking under the router's answers.

  /** What `RoutesFrom` says about one area. */
  lemma RouteAnswer(hospital: Area, routeTo: Area -> Route<Area>, a: Area)
    requires RoutesFrom(hospital, routeTo)
    ensures routeTo(a).distance == ShortestDistance(RoadNetwork, hospital, a)
    ensures routeTo(a).distance >= 0 <==> Reachable(RoadNetwork, hospital, a)
  {
    assert RouteSpec(RoadNetwork, hospital, a, routeTo(a));
  }

  /** With the router's answers, every ranked distance is the road distance to the donor's area. */
  lemma RankedAreRoadDistances(donors: seq<Donor>, t: BloodType, hospital: Area, routeTo: Area -> Route<Area>)
    requires RoutesFrom(hospital, routeTo)
    ensures forall e :: e in RankDonors(donors, t, routeTo) ==> e.distance == ShortestDistance(RoadNetwork, hospital, e.donor.area)
  {
    forall e | e in RankDonors(donors, t, routeTo) ensures e.distance == ShortestDistance(RoadNetwork, hospital, e.donor.area) {
      RouteAnswer(hospital, routeTo, e.donor.area);
    }
  }

  /** With the router's answers, every reachable available donor of the type is ranked. */
  lemma ReachableDonorsAreRanked(donors: seq<Donor>, t: BloodType, hospital: Area, routeTo: Area -> Route<Area>)
    requires RoutesFrom(hospital, routeTo)
    ensures forall d :: d in donors && d.bloodType == t && d.isAvailable && Reachable(RoadNetwork, hospital, d.area) ==>
              Entry(d, routeTo(d.area)) in RankDonors(donors, t, routeTo)
  {
    forall d | d in donors && d.bloodType == t && d.isAvailable && Reachable(RoadNetwork, hospital, d.area)
      ensures Entry(d, routeTo(d.area)) in RankDonors(donors, t, routeTo)
    {
      RouteAnswer(hospital, routeTo, d.area);
    }
  }

  /** The router's answer for the hospital's own area: distance 0 and an empty route. */
  lemma OwnAreaRoute(hospital: Area, routeTo: Area -> Route<Area>)
    requires RoutesFrom(hospital, routeTo)
    ensures routeTo(hospital) == Route([], 0)
  {
    SelfDistance(RoadNetwork, hospital);
    assert RouteSpec(RoadNetwork, hospital, hospital, routeTo(hospital));
  }

  /** A donor of the right type in the hospital's own area makes the nearest match 0 km away. */
  lemma SameAreaDonorIsNearest(donors: seq<Donor>, t: BloodType, hospital: Area, routeTo: Area -> Route<Area>, d: Donor)
    requires RoutesFrom(hospital, routeTo)
    requires d in donors && d.bloodType == t && d.isAvailable && d.area == hospital
    ensures Entry(d, routeTo(d.area)) == DonorWithDistance(d, [], 0)
    ensures NearestDonor(donors, t, routeTo).Some? && NearestDonor(donors, t, routeTo).value.distance == 0
  {
    OwnAreaRoute(hospital, routeTo);
    assert Entry(d, routeTo(d.area)) in RankDonors(donors, t, routeTo);
    var n := NearestDonor(donors, t, routeTo).value;
    assert n in RankDonors(donors, t, routeTo);
  }

  // ---------------------------------------------------------------------------
  // Running the router.

  /** Runs the router from `hospital` to every area. */
  method RouteTable(hospital: Area) returns (table: map<Area, Route<Area>>)
    ensures forall a :: a in AreaSet ==> a in table
    ensures forall a :: a in table ==> RouteSpec(RoadNetwork, hospital, a, table[a])
  {
    RoadNetworkWellFormed();
    table := map[];
    var todo := AreaSet;
    while todo != {}
      invariant todo <= AreaSet
      invariant forall a :: a in AreaSet && a !in todo ==> a in table
      invariant forall a :: a in table ==> RouteSpec(RoadNetwork, hospital, a, table[a])
      decreases todo
    {
      var a :| a in todo;
      var r := Dijkstra(RoadNetwork, AreaSet, hospital, a);
      table := table[a := r];
      todo := todo - {a};
    }
  }

  /** The routing `area => dijkstra(hospital, area)`, answered from a table of the router's results. */
  method RoutesFromHospital(hospital: Area) returns (routeTo: Area -> Route<Area>)
    ensures RoutesFrom(hospital, routeTo)
  {
    var table := RouteTable(hospital);
    routeTo := (a: Area) => if a in table then table[a] else Route([], -1);
    forall a ensures RouteSpec(RoadNetwork, hospital, a, routeTo(a)) {
      AllAreasListed(a);
    }
  }

  /** `findAllDonorsSorted(bloodType, hospitalArea)`. */
  method FindAllDonorsSorted(donors: seq<Donor>, t: BloodType, hospital: Area)
      returns (ranked: seq<DonorWithDistance>, routeTo: Area -> Route<Area>)
    ensures RoutesFrom(hospital, routeTo) && ranked == RankDonors(donors, t, routeTo)
    ensures forall e :: e in ranked ==> e.donor in donors && e.donor.bloodType == t && e.donor.isAvailable
    ensures forall e :: e in ranked ==> e.distance >= 0 && e.distance == ShortestDistance(RoadNetwork, hospital, e.donor.area)
    ensures forall d :: d in donors && d.bloodType == t && d.isAvailable && Reachable(RoadNetwork, hospital, d.area) ==>
              exists e :: e in ranked && e.donor == d
    ensures SortedBy(ranked, DistanceOf)
  {
    routeTo := RoutesFromHospital(hospital);
    ranked := RankDonors(donors, t, routeTo);
    RankedAreRoadDistances(donors, t, hospital, routeTo);
    ReachableDonorsAreRanked(donors, t, hospital, routeTo);
    forall d | d in donors && d.bloodType == t && d.isAvailable && Reachable(RoadNetwork, hospital, d.area)
      ensures exists e :: e in ranked && e.donor == d
    {
      assert Entry(d, routeTo(d.area)) in ranked;
    }
  }

  /** `findNearestDonor(bloodType, hospitalArea)`. */
  method FindNearestDonor(donors: seq<Donor>, t: BloodType, hospital: Area) returns (r: Option<DonorWithDistance>)
    ensures r.None? <==> forall d :: d in donors && d.bloodType == t && d.isAvailable ==> !Reachable(RoadNetwork, hospital, d.area)
    ensures r.Some? ==> && r.value.donor in donors && r.value.donor.bloodType == t && r.value.donor.isAvailable
                        && r.value.distance == ShortestDistance(RoadNetwork, hospital, r.value.donor.area)
    ensures r.Some? ==> forall d :: d in donors && d.bloodType == t && d.isAvailable && Reachable(RoadNetwork, hospital, d.area) ==>
              r.value.distance <= ShortestDistance(RoadNetwork, hospital, d.area)
  {
    var ranked, routeTo := FindAllDonorsSorted(donors, t, hospital);
    r := if |ranked| > 0 then Some(ranked[0]) else None;
    assert r == NearestDonor(donors, t, routeTo);
    RankedAreRoadDistances(donors, t, hospital, routeTo);
    ReachableDonorsAreRanked(donors, t, hospital, routeTo);
    forall d | d in donors && d.bloodType == t && d.isAvailable
      ensures routeTo(d.area).distance < 0 <==> !Reachable(RoadNetwork, hospital, d.area)
    {
      assert RouteSpec(RoadNetwork, hospital, d.area, routeTo(d.area));
    }
    if r.Some? {
      forall d | d in donors && d.bloodType == t && d.isAvailable && Reachable(RoadNetwork, hospital, d.area)
        ensures r.value.distance <= ShortestDistance(RoadNetwork, hospital, d.area)
      {
        assert Entry(d, routeTo(d.area)) in ranked;
      }
    }
  }
}
