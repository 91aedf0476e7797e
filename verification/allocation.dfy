/**
  The request state machine of src/context/BloodContext.tsx, over an explicit
  snapshot of the provider's state: donors, requests and blood bank. It covers:
  - creating requests and adding or deleting donors;
  - `processRequest`, which tries the nearest exact-type donor, then the bank,
    and otherwise leaves the request pending;
  - the status changes of `confirmMatch`, `markRequestComplete` and `deleteRequest`.

  `processRequest` is modelled by `Allocate`, which takes the routing from the
  request's hospital as a parameter. The method `ProcessRequest` computes that
  routing with the router.
 */
module Allocation {
  import opened Optional
  import opened Collections
  import opened BloodTypes
  import opened Graphs
  import opened Router
  import opened LahoreRoads
  import opened Inventory
  import opened DonorRanking

  datatype Priority = Emergency | Urgent | Scheduled

  datatype Status = Pending | Matched | Fulfilled | Cancelled

  /** Where the blood came from: `'Blood Bank'` or `'Donor'`. */
  datatype Source = BloodBankSource | DonorSource

  /** What the request form supplies (the requester's contact fields are not modelled). */
  datatype RequestForm = RequestForm(
    patientName: string, bloodType: BloodType, units: int,
    hospital: string, hospitalArea: Area, priority: Priority)

  datatype Request = Request(
    id: string, form: RequestForm, createdAt: int, status: Status,
    source: Option<Source>, matchedDonor: Option<Donor>, route: Option<seq<string>>, distance: Option<int>)

  /** The provider's state. */
  datatype Snapshot = Snapshot(donors: seq<Donor>, requests: seq<Request>, bank: Bank)

  /** A new state and the value handed back to the caller (`null` is `None`). */
  datatype Processed = Processed(state: Snapshot, result: Option<Request>)

  /** No two requests share an id. */
  ghost predicate UniqueIds(requests: seq<Request>) {
    forall i, j :: 0 <= i < j < |requests| ==> requests[i].id != requests[j].id
  }

  /** Position of the first request with the id (`requests.find`). */
  function FindRequest(requests: seq<Request>, id: string): (r: Option<nat>)
    ensures r.Some? ==> r.value < |requests| && requests[r.value].id == id
    ensures r.Some? ==> forall j :: 0 <= j < r.value ==> requests[j].id != id
    ensures r.None? <==> forall j :: 0 <= j < |requests| ==> requests[j].id != id
  {
    FindFirst(requests, (q: Request) => q.id == id)
  }

  /** `prev.map(r => r.id === id ? f(r) : r)`. */
  function UpdateRequests(requests: seq<Request>, id: string, f: Request -> Request): (r: seq<Request>)
    ensures |r| == |requests|
    ensures forall i :: 0 <= i < |requests| ==> r[i] == if requests[i].id == id then f(requests[i]) else requests[i]
  {
    seq(|requests|, i requires 0 <= i < |requests| => if requests[i].id == id then f(requests[i]) else requests[i])
  }

  /** Every request with the id becomes `req`. */
  function ReplaceRequest(requests: seq<Request>, id: string, req: Request): seq<Request> {
    UpdateRequests(requests, id, (_: Request) => req)
  }

  /** Every request with the id gets status `st`. */
  function SetStatus(requests: seq<Request>, id: string, st: Status): seq<Request> {
    UpdateRequests(requests, id, (q: Request) => q.(status := st))
  }

  /** After a replacement by a request carrying the id, the lookup finds that request. */
  lemma FindReplaced(requests: seq<Request>, id: string, req: Request)
    requires req.id == id && FindRequest(requests, id).Some?
    ensures var r := ReplaceRequest(requests, id, req);
            FindRequest(r, id).Some? && r[FindRequest(r, id).value] == req
  {
    var r := ReplaceRequest(requests, id, req);
    var i := FindRequest(requests, id).value;
    assert r[i].id == id;
  }

  /** With unique ids, putting back the request found under the id changes nothing. */
  lemma ReplaceWithItself(requests: seq<Request>, id: string)
    requires UniqueIds(requests) && FindRequest(requests, id).Some?
    ensures ReplaceRequest(requests, id, requests[FindRequest(requests, id).value]) == requests
  {
    var i := FindRequest(requests, id).value;
    var r := ReplaceRequest(requests, id, requests[i]);
    forall j | 0 <= j < |requests| ensures r[j] == requests[j] {
    }
  }

  // ---------------------------------------------------------------------------
  // processRequest

  /**
    `processRequest(id)` given the routing `routeTo` from the request's hospital:
    an unknown or non-pending request is refused and nothing changes. Otherwise
    the nearest reachable available donor of the exact type is matched and made
    unavailable; failing that, the bank pays out when its unreserved units
    cover the request; failing that, the request stays pending.
   */
  function Allocate(s: Snapshot, id: string, routeTo: Area -> Route<Area>): (p: Processed)
    ensures p.result.None? <==> FindRequest(s.requests, id).None? || s.requests[FindRequest(s.requests, id).value].status != Pending
    ensures p.result.None? ==> p.state == s
    ensures p.result.Some? ==> p.result.value.id == id && p.state.requests == ReplaceRequest(s.requests, id, p.result.value)
    ensures p.result.Some? && p.result.value.status == Matched ==> p.state.bank == s.bank
    ensures p.result.Some? && p.result.value.status != Matched ==> p.state.donors == s.donors
    ensures p.result.Some? && p.result.value.status == Matched ==>
              && p.result.value.matchedDonor.Some?
              && p.result.value.matchedDonor.value in ExactDonors(s.donors, p.result.value.form.bloodType)
  {
    match FindRequest(s.requests, id)
    case None => Processed(s, None)
    case Some(i) =>
      var req := s.requests[i];
      if req.status != Pending then Processed(s, None)
      else Respond(s, id, req, routeTo)
  }

  /**
    The answer to the pending request `req` found under `id`: only its status,
    source, matched donor, route and distance change, and every request with
    the id is replaced by the answer.
   */
  function Respond(s: Snapshot, id: string, req: Request, routeTo: Area -> Route<Area>): (p: Processed)
    requires req.status == Pending
    ensures p.result.Some?
    ensures p.result.value.id == req.id && p.result.value.form == req.form && p.result.value.createdAt == req.createdAt
    ensures p.state.requests == ReplaceRequest(s.requests, id, p.result.value)
    ensures p.result.value.status == Matched ==> p.state.bank == s.bank
    ensures p.result.value.status != Matched ==> p.state.donors == s.donors
    ensures p.result.value.status == Matched ==>
              p.result.value.matchedDonor.Some? && p.result.value.matchedDonor.value in ExactDonors(s.donors, req.form.bloodType)
  {
    match NearestScan(ExactDonors(s.donors, req.form.bloodType), routeTo, None)
    case Some(n) =>
      ScanAgreesWithRanking(s.donors, req.form.bloodType, routeTo);
      var matched := req.(status := Matched, source := Some(DonorSource), matchedDonor := Some(n.donor),
                          route := Some(n.route), distance := Some(n.distance));
      Processed(Snapshot(UpdateDonorAvailability(s.donors, n.donor.id, false),
                         ReplaceRequest(s.requests, id, matched), s.bank), Some(matched))
    case None =>
      if AvailableFor(s.bank, req.form.bloodType) >= req.form.units then
        var fulfilled := req.(status := Fulfilled, source := Some(BloodBankSource));
        Processed(Snapshot(s.donors, ReplaceRequest(s.requests, id, fulfilled),
                           DeductUnits(s.bank, req.form.bloodType, req.form.units)), Some(fulfilled))
      else
        Processed(s.(requests := ReplaceRequest(s.requests, id, req)), Some(req))
  }

  /** The pending request that `Allocate` works on. */
  ghost predicate PendingAt(s: Snapshot, id: string, i: nat) {
    FindRequest(s.requests, id) == Some(i) && s.requests[i].status == Pending
  }

  /**
    Donor path: when an available donor of the exact type has a route, the
    request is matched to the donor `findNearestDonor` reports. That donor is
    the nearest by road. Every donor record with the matched donor's id is
    made unavailable, since the update maps over the donors by id.
   */
  lemma DonorPath(s: Snapshot, id: string, i: nat, routeTo: Area -> Route<Area>)
    requires PendingAt(s, id, i)
    requires NearestDonor(s.donors, s.requests[i].form.bloodType, routeTo).Some?
    ensures var req, n := s.requests[i], NearestDonor(s.donors, s.requests[i].form.bloodType, routeTo).value;
            var matched := req.(status := Matched, source := Some(DonorSource), matchedDonor := Some(n.donor),
                                route := Some(n.route), distance := Some(n.distance));
            && Allocate(s, id, routeTo).result == Some(matched)
            && Allocate(s, id, routeTo).state ==
                 Snapshot(UpdateDonorAvailability(s.donors, n.donor.id, false), ReplaceRequest(s.requests, id, matched), s.bank)
            && n.donor in s.donors && n.donor.bloodType == req.form.bloodType && n.donor.isAvailable
  {
    ScanAgreesWithRanking(s.donors, s.requests[i].form.bloodType, routeTo);
  }

  /** On the donor path the distance is the road distance, and no reachable candidate is nearer. */
  lemma DonorPathIsNearest(s: Snapshot, id: string, i: nat, routeTo: Area -> Route<Area>)
    requires PendingAt(s, id, i) && RoutesFrom(s.requests[i].form.hospitalArea, routeTo)
    requires NearestDonor(s.donors, s.requests[i].form.bloodType, routeTo).Some?
    ensures var req, n := s.requests[i], NearestDonor(s.donors, s.requests[i].form.bloodType, routeTo).value;
            && n.distance == ShortestDistance(RoadNetwork, req.form.hospitalArea, n.donor.area)
            && forall d :: d in s.donors && d.bloodType == req.form.bloodType && d.isAvailable && Reachable(RoadNetwork, req.form.hospitalArea, d.area) ==>
                 n.distance <= ShortestDistance(RoadNetwork, req.form.hospitalArea, d.area)
  {
    var req := s.requests[i];
    RankedAreRoadDistances(s.donors, req.form.bloodType, req.form.hospitalArea, routeTo);
    ReachableDonorsAreRanked(s.donors, req.form.bloodType, req.form.hospitalArea, routeTo);
  }

  /**
    Bank path: with no reachable donor and enough unreserved units, every entry
    of the type loses exactly the requested units, the reserve is kept and the
    request is fulfilled from the bank.
   */
  lemma BankPath(s: Snapshot, id: string, i: nat, routeTo: Area -> Route<Area>)
    requires PendingAt(s, id, i)
    requires NearestDonor(s.donors, s.requests[i].form.bloodType, routeTo).None?
    requires AvailableFor(s.bank, s.requests[i].form.bloodType) >= s.requests[i].form.units
    ensures var req := s.requests[i];
            var fulfilled := req.(status := Fulfilled, source := Some(BloodBankSource));
            && Allocate(s, id, routeTo).result == Some(fulfilled)
            && Allocate(s, id, routeTo).state ==
                 Snapshot(s.donors, ReplaceRequest(s.requests, id, fulfilled), DeductUnits(s.bank, req.form.bloodType, req.form.units))
  {
    ScanAgreesWithRanking(s.donors, s.requests[i].form.bloodType, routeTo);
  }

  /** With one entry per type, the bank path leaves that entry's units no lower than its reserve. */
  lemma BankPathKeepsReserve(bank: Bank, t: BloodType, units: int)
    requires OneEntryPerType(bank) && AvailableFor(bank, t) >= units
    ensures FindStock(bank, t).Some? ==>
              var j := FindStock(bank, t).value;
              var after := DeductUnits(bank, t, units)[j];
              after.units == bank[j].units - units && after.reserved == bank[j].reserved && after.units >= after.reserved
  {
  }

  /** If every reserve was within its stock, the bank path keeps it so for a request of at least zero units. */
  lemma BankPathKeepsAllReserves(bank: Bank, t: BloodType, units: int)
    requires OneEntryPerType(bank) && AllReservesWithinStock(bank)
    requires units >= 0 && AvailableFor(bank, t) >= units
    ensures AllReservesWithinStock(DeductUnits(bank, t, units))
  {
    var r := DeductUnits(bank, t, units);
    forall j | 0 <= j < |bank| ensures ReserveWithinStock(r[j]) {
      assert ReserveWithinStock(bank[j]);
      if bank[j].bloodType == t {
        FindStockUnique(bank, j);
      }
    }
  }

  /**
    Pending path: with neither a reachable donor nor enough unreserved units,
    the request is handed back unchanged; with unique ids nothing changes.
   */
  lemma PendingPath(s: Snapshot, id: string, i: nat, routeTo: Area -> Route<Area>)
    requires PendingAt(s, id, i)
    requires NearestDonor(s.donors, s.requests[i].form.bloodType, routeTo).None?
    requires AvailableFor(s.bank, s.requests[i].form.bloodType) < s.requests[i].form.units
    ensures Allocate(s, id, routeTo).result == Some(s.requests[i])
    ensures Allocate(s, id, routeTo).state.donors == s.donors && Allocate(s, id, routeTo).state.bank == s.bank
    ensures UniqueIds(s.requests) ==> Allocate(s, id, routeTo).state == s
  {
    ScanAgreesWithRanking(s.donors, s.requests[i].form.bloodType, routeTo);
    if UniqueIds(s.requests) {
      ReplaceWithItself(s.requests, id);
    }
  }

  /** A request with its priority blanked out. */
  function WithoutPriority(r: Request): Request {
    r.(form := r.form.(priority := Emergency))
  }

  /** Two request lists that differ at most in priorities. */
  ghost predicate SameButPriority(a: seq<Request>, b: seq<Request>) {
    |a| == |b| && forall i :: 0 <= i < |a| ==> WithoutPriority(a[i]) == WithoutPriority(b[i])
  }

  /** Lists that differ only in priorities replace the same positions. */
  lemma ReplaceSameButPriority(a: seq<Request>, b: seq<Request>, id: string, x: Request, y: Request)
    requires SameButPriority(a, b) && WithoutPriority(x) == WithoutPriority(y)
    ensures SameButPriority(ReplaceRequest(a, id, x), ReplaceRequest(b, id, y))
  {
  }

  /** Lists that differ only in priorities have their first request with an id at the same place. */
  lemma FindSameButPriority(a: seq<Request>, b: seq<Request>, id: string)
    requires SameButPriority(a, b)
    ensures FindRequest(a, id) == FindRequest(b, id)
  {
    assert forall j :: 0 <= j < |a| ==> a[j].id == b[j].id;
  }

  /** Two outcomes that differ at most in the priorities of requests. */
  ghost predicate SameOutcomeButPriority(p': Processed, p: Processed) {
    && p'.state.donors == p.state.donors && p'.state.bank == p.state.bank
    && SameButPriority(p'.state.requests, p.state.requests)
    && (p'.result.Some? <==> p.result.Some?)
    && (p'.result.Some? ==> WithoutPriority(p'.result.value) == WithoutPriority(p.result.value))
  }

  /** The priority of requests is never consulted: changing it changes nothing else in the outcome. */
  lemma AllocateIgnoresPriority(s: Snapshot, s': Snapshot, id: string, routeTo: Area -> Route<Area>)
    requires s'.donors == s.donors && s'.bank == s.bank && SameButPriority(s'.requests, s.requests)
    ensures SameOutcomeButPriority(Allocate(s', id, routeTo), Allocate(s, id, routeTo))
  {
    FindSameButPriority(s'.requests, s.requests, id);
    match FindRequest(s.requests, id)
    case None =>
    case Some(i) =>
      if s.requests[i].status == Pending {
        PendingIgnoresPriority(s, s', id, i, routeTo);
      }
  }

  lemma PendingIgnoresPriority(s: Snapshot, s': Snapshot, id: string, i: nat, routeTo: Area -> Route<Area>)
    requires s'.donors == s.donors && s'.bank == s.bank && SameButPriority(s'.requests, s.requests)
    requires PendingAt(s, id, i) && FindRequest(s'.requests, id) == Some(i)
    ensures SameOutcomeButPriority(Allocate(s', id, routeTo), Allocate(s, id, routeTo))
  {
    var req, req' := s.requests[i], s'.requests[i];
    assert WithoutPriority(req') == WithoutPriority(req);
    RespondIgnoresPriority(s, s', id, req, req', routeTo);
  }

  lemma RespondIgnoresPriority(s: Snapshot, s': Snapshot, id: string, req: Request, req': Request, routeTo: Area -> Route<Area>)
    requires s'.donors == s.donors && s'.bank == s.bank && SameButPriority(s'.requests, s.requests)
    requires WithoutPriority(req') == WithoutPriority(req) && req.status == Pending
    ensures SameOutcomeButPriority(Respond(s', id, req', routeTo), Respond(s, id, req, routeTo))
  {
    var x, x' := Respond(s, id, req, routeTo).result.value, Respond(s', id, req', routeTo).result.value;
    AnswerIgnoresPriority(s, s', id, req, req', routeTo);
    ReplaceSameButPriority(s'.requests, s.requests, id, x', x);
  }

  /** The answer itself and the donors and bank after it do not depend on the priority. */
  lemma AnswerIgnoresPriority(s: Snapshot, s': Snapshot, id: string, req: Request, req': Request, routeTo: Area -> Route<Area>)
    requires s'.donors == s.donors && s'.bank == s.bank
    requires WithoutPriority(req') == WithoutPriority(req) && req.status == Pending
    ensures var p, p' := Respond(s, id, req, routeTo), Respond(s', id, req', routeTo);
            && WithoutPriority(p'.result.value) == WithoutPriority(p.result.value)
            && p'.state.donors == p.state.donors && p'.state.bank == p.state.bank
  {
    assert req'.form.(priority := Emergency) == req.form.(priority := Emergency);
    assert req'.form.bloodType == req.form.bloodType && req'.form.units == req.form.units;
  }

  /** Once `processRequest` has matched or fulfilled a request, calling it again is refused and changes nothing. */
  lemma AllocateIdempotent(s: Snapshot, id: string, routeTo: Area -> Route<Area>, routeTo': Area -> Route<Area>)
    requires Allocate(s, id, routeTo).result.Some? && Allocate(s, id, routeTo).result.value.status != Pending
    ensures var p := Allocate(s, id, routeTo); Allocate(p.state, id, routeTo') == Processed(p.state, None)
  {
    var p := Allocate(s, id, routeTo);
    FindReplaced(s.requests, id, p.result.value);
  }

  /**
    `processRequest(requestId)`. An unknown or non-pending request is refused.
    Otherwise the router is run from the request's hospital and the request is
    allocated with its answers.
   */
  method ProcessRequest(s: Snapshot, id: string) returns (p: Processed, routeTo: Area -> Route<Area>)
    ensures FindRequest(s.requests, id).None? ==> p == Processed(s, None)
    ensures FindRequest(s.requests, id).Some? ==>
              && RoutesFrom(s.requests[FindRequest(s.requests, id).value].form.hospitalArea, routeTo)
              && p == Allocate(s, id, routeTo)
    ensures p.result.Some? && p.result.value.status == Matched ==>
              && p.result.value.matchedDonor.Some? && p.result.value.distance.Some?
              && p.result.value.distance.value ==
                   ShortestDistance(RoadNetwork, p.result.value.form.hospitalArea, p.result.value.matchedDonor.value.area)
  {
    match FindRequest(s.requests, id)
    case None =>
      routeTo := (a: Area) => Route([], -1);
      p := Processed(s, None);
    case Some(i) =>
      routeTo := RoutesFromHospital(s.requests[i].form.hospitalArea);
      p := Allocate(s, id, routeTo);
      var req := s.requests[i];
      if p.result.Some? && p.result.value.status == Matched {
        assert NearestScan(ExactDonors(s.donors, req.form.bloodType), routeTo, None).Some?;
        ScanAgreesWithRanking(s.donors, req.form.bloodType, routeTo);
        DonorPathIsNearest(s, id, i, routeTo);
      }
  }

  // ---------------------------------------------------------------------------
  // The other transitions.

  /** A new request and the list it was appended to. */
  datatype Created = Created(requests: seq<Request>, request: Request)

  /** `createRequest`: the form gets the id and time it is given, starts Pending with no answer yet, and is appended. */
  function CreateRequest(requests: seq<Request>, form: RequestForm, id: string, createdAt: int): (c: Created)
    ensures c.request.id == id && c.request.form == form && c.request.createdAt == createdAt
    ensures c.request.status == Pending && c.request.source.None? && c.request.matchedDonor.None?
    ensures c.request.route.None? && c.request.distance.None?
    ensures c.requests == requests + [c.request]
  {
    var req := Request(id, form, createdAt, Pending, None, None, None, None);
    Created(requests + [req], req)
  }

  /** A request created under a fresh id is found and processed (the result is not `null`). */
  lemma CreatedRequestIsProcessed(s: Snapshot, form: RequestForm, id: string, createdAt: int, routeTo: Area -> Route<Area>)
    requires forall j :: 0 <= j < |s.requests| ==> s.requests[j].id != id
    ensures var c := CreateRequest(s.requests, form, id, createdAt);
            && FindRequest(c.requests, id) == Some(|s.requests|)
            && Allocate(s.(requests := c.requests), id, routeTo).result.Some?
  {
    var c := CreateRequest(s.requests, form, id, createdAt);
    assert c.requests[|s.requests|].id == id;
  }

  /** `addDonor`: the new donor, under the id it is given, goes to the end of the list. */
  function AddDonor(donors: seq<Donor>, form: Donor, id: string): (r: seq<Donor>)
    ensures |r| == |donors| + 1 && r[..|donors|] == donors && r[|donors|] == form.(id := id)
  {
    donors + [form.(id := id)]
  }

  /** `deleteDonor`: drops every donor with the id and keeps the rest in order. */
  function DeleteDonor(donors: seq<Donor>, id: string): (r: seq<Donor>)
    ensures forall d :: d in r <==> d in donors && d.id != id
    ensures forall d: Donor :: d.id != id ==> multiset(r)[d] == multiset(donors)[d]
  {
    var p := (d: Donor) => d.id != id;
    FilterMembers(donors, p);
    FilterCounts(donors, p);
    Filter(donors, p)
  }

  /** A deleted donor is never matched again. */
  lemma DeletedDonorNotMatched(s: Snapshot, id: string, donorId: string, routeTo: Area -> Route<Area>)
    ensures var p := Allocate(s.(donors := DeleteDonor(s.donors, donorId)), id, routeTo);
            p.result.Some? && p.result.value.status == Matched ==> p.result.value.matchedDonor.value.id != donorId
  {
  }

  /** The outcome of `confirmMatch`: the new list, and whether the call rejected. */
  datatype Confirmation = Confirmation(requests: seq<Request>, failed: bool)

  /**
    `confirmMatch(id)`. `recorded` is whether `recordDonation` succeeded. A
    failure rejects the call before the status changes. The outcome of the
    notification does not matter, because its failure is caught.
   */
  function ConfirmMatch(requests: seq<Request>, id: string, recorded: bool): (c: Confirmation)
    ensures var f := FindRequest(requests, id);
            var confirmable := f.Some? && requests[f.value].matchedDonor.Some?;
            && (c.failed <==> confirmable && !recorded)
            && (confirmable && recorded ==> c.requests == SetStatus(requests, id, Fulfilled))
            && (!(confirmable && recorded) ==> c.requests == requests)
  {
    match FindRequest(requests, id)
    case None => Confirmation(requests, false)
    case Some(i) =>
      if requests[i].matchedDonor.None? then Confirmation(requests, false)
      else if !recorded then Confirmation(requests, true)
      else Confirmation(SetStatus(requests, id, Fulfilled), false)
  }

  /** `markRequestComplete(id)`: whatever their status, the requests with the id become Fulfilled. */
  function MarkRequestComplete(requests: seq<Request>, id: string): (r: seq<Request>)
    ensures |r| == |requests|
    ensures forall i :: 0 <= i < |requests| ==> r[i].status == if requests[i].id == id then Fulfilled else requests[i].status
    ensures forall i :: 0 <= i < |requests| ==> r[i].(status := requests[i].status) == requests[i]
  {
    SetStatus(requests, id, Fulfilled)
  }

  /** Completing twice is completing once, and a completed request is refused by `processRequest`. */
  lemma CompletedIsFinal(s: Snapshot, id: string, routeTo: Area -> Route<Area>)
    ensures MarkRequestComplete(MarkRequestComplete(s.requests, id), id) == MarkRequestComplete(s.requests, id)
    ensures var s' := s.(requests := MarkRequestComplete(s.requests, id));
            Allocate(s', id, routeTo) == Processed(s', None)
  {
    var r := MarkRequestComplete(s.requests, id);
    assert forall j :: 0 <= j < |r| ==> r[j].id == s.requests[j].id;
  }

  /**
    A confirmed match is final in the same way: after a successful
    confirmation the request found under the id is Fulfilled (or nothing
    changed), and once a matched request is confirmed `processRequest`
    refuses it and changes nothing.
   */
  lemma ConfirmedIsFinal(s: Snapshot, id: string, routeTo: Area -> Route<Area>)
    ensures var c := ConfirmMatch(s.requests, id, true);
            var f := FindRequest(c.requests, id);
            f.Some? && !c.failed ==> c.requests[f.value].status == Fulfilled || c.requests == s.requests
    ensures var f := FindRequest(s.requests, id);
            f.Some? && s.requests[f.value].matchedDonor.Some? ==>
              var s' := s.(requests := ConfirmMatch(s.requests, id, true).requests);
              Allocate(s', id, routeTo) == Processed(s', None)
  {
    var f := FindRequest(s.requests, id);
    if f.Some? && s.requests[f.value].matchedDonor.Some? {
      CompletedIsFinal(s, id, routeTo);
    }
  }

  /** `deleteRequest(id)`: drops exactly the requests with the id. */
  function DeleteRequest(requests: seq<Request>, id: string): (r: seq<Request>)
    ensures forall q :: q in r <==> q in requests && q.id != id
    ensures forall q: Request :: q.id != id ==> multiset(r)[q] == multiset(requests)[q]
  {
    var p := (q: Request) => q.id != id;
    FilterMembers(requests, p);
    FilterCounts(requests, p);
    Filter(requests, p)
  }

  /** After deletion the id is unknown: `processRequest` is refused and `confirmMatch` changes nothing. */
  lemma DeletedIsUnknown(s: Snapshot, id: string, routeTo: Area -> Route<Area>, recorded: bool)
    ensures FindRequest(DeleteRequest(s.requests, id), id).None?
    ensures var s' := s.(requests := DeleteRequest(s.requests, id));
            Allocate(s', id, routeTo) == Processed(s', None)
    ensures ConfirmMatch(DeleteRequest(s.requests, id), id, recorded) == Confirmation(DeleteRequest(s.requests, id), false)
  {
    var r := DeleteRequest(s.requests, id);
    forall j | 0 <= j < |r| ensures r[j].id != id {
      assert r[j] in r;
    }
  }
}
