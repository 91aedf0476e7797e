# Blood Lifeline — a verified model of donor routing and allocation

Blood Lifeline is a web application for a blood-donation network in Lahore.
A hospital files a request for a number of units of one blood type. The
application then looks for the nearest available donor of exactly that type,
measured by road distance over a fixed network of city areas. When there is no
such donor, it takes the units from the blood bank, provided enough of them are
not held in reserve. Otherwise the request stays pending.

This project models that core in Dafny and proves what it does:

- **Router** (`graphs.dfy`, `router.dfy`). `dijkstra` is modelled as a method
  over a directed adjacency map. Its loop invariants show that it returns a
  shortest path and its exact length, or -1 when the target cannot be reached.
- **Road network** (`lahore_roads.dfy`). It holds the 24 areas, their ids and
  display names, and the table of road distances. Five entries exist in one
  direction only. So travel distance is not symmetric, and the model proves it
  for one pair.
- **Compatibility tables** (`blood_types.dfy`, `compatibility_chart.dfy`).
  There are three tables: the recipient table `bloodCompatibility`, and the
  `canDonateTo` / `canReceiveFrom` tables of the compatibility page. Each is
  checked against the ABO/RhD antigen rule. The checks also cover the page's
  edge list, its matrix cells and its info text.
- **Donor ranking** (`donor_ranking.dfy`). `findAllDonorsSorted` returns the
  available donors of the exact type who have a route, sorted stably by
  distance. `findNearestDonor` returns the head of that list. The
  nearest-donor scan inside `processRequest` picks the same donor.
- **Allocation** (`allocation.dfy`). `processRequest` is a transition over a
  snapshot `(donors, requests, bank)`. It takes the donor path, the bank path
  or the pending path. The later status changes are `confirmMatch`,
  `markRequestComplete` and `deleteRequest`.
- **Inventory** (`inventory.dfy`, `inventory_card.dfy`). This covers the three
  bank adjusters, the initial bank, and the helpers of the inventory card: its
  classification, its removal guard and its input fallbacks.
- **Leaderboard** (`leaderboard.dfy`). Donation rows are grouped by donor. The
  groups are ordered by total units and cut at ten.

`optional.dfy`, `collections.dfy` and `sorting.dfy` hold shared definitions:
- an option type;
- filtering and sums;
- a stable insertion sort. Its contract says the output is sorted, is a
  permutation of the input, and keeps the input order among equal keys.
  JavaScript's `Array.prototype.sort` is stable, so this is the behaviour the
  application relies on.

The pure functions take routing as a parameter `routeTo: Area -> Route<Area>`,
which stands for `area => dijkstra(hospital, area)`. The predicate
`DonorRanking.RoutesFrom` says that `routeTo` answers as the router does. The
methods `DonorRanking.RoutesFromHospital` and `Allocation.ProcessRequest`
build such a `routeTo` by running the router.

Where the design description and the code disagree, the model follows the code:

- The road graph is described as undirected with symmetric distances. The
  stored network is directed, and `LahoreRoads.DistanceNotSymmetric` shows the
  difference: DHA → Valencia Town is at most 10 km, while the way back is 13 km.
- `reserved ≤ units` is described as an invariant of every inventory
  operation. In the code it is not: `Inventory.RemoveCanBreakReserve` and
  `Inventory.UpdateReservedCanBreakReserve` break it. Only the bank path of
  `processRequest` keeps it (`Allocation.BankPathKeepsAllReserves`).
- Persistence failures are described as never affecting the state. In
  `confirmMatch`, a failed `recordDonation` rethrows before the status changes
  (`Allocation.ConfirmMatch`).
- `dijkstra(a, a)` gives distance 0 and an empty path, so a donor in the
  hospital's own area ranks first with distance 0 (`DonorRanking.SameAreaDonorIsNearest`).

## Model

| member | source | states |
|---|---|---|
| Router.Dijkstra | src/lib/bloodData.ts:149-197 | For a known target area, the answer's distance is the shortest directed-path distance, and -1 exactly when the target is unreachable. A reachable target other than the start gets a path that runs from start to target along stored road entries and weighs exactly the distance. An unreachable target and the start itself get an empty path; the start gets distance 0. Termination follows from the loop's decrease over the unsettled nodes, each settled once. |
| Router.PickMin | src/lib/bloodData.ts:164-165 | The node taken from the queue is unsettled and has the least tentative distance among the unsettled nodes. |
| Router.RelaxNeighbours | src/lib/bloodData.ts:172-181 | Relaxing the settled node's outgoing entries skips settled neighbours and leaves their distances alone. Afterwards every neighbour's tentative distance is at most the settled node's distance plus the road length, and the search invariant still holds. |
| Router.Reconstruct | src/lib/bloodData.ts:185-191 | Following the predecessor links back from the target gives a path from the start that weighs the target's distance. It is a single node exactly when the target is the start. |
| Graphs.ShortestDistance | src/lib/bloodData.ts:193-196 | The reference distance: non-negative exactly when a path exists, and then the weight of a lightest path; otherwise -1. |
| Graphs.SelfDistance | src/lib/bloodData.ts:160 | Every area is at distance 0 from itself. |
| LahoreRoads.AllAreasListed | src/lib/bloodData.ts:9-34 | Every area appears in the list of areas. |
| LahoreRoads.AreaIdInjective | src/lib/bloodData.ts:9-34 | No two areas share an id. |
| LahoreRoads.FindArea | src/lib/bloodData.ts:200-202 | The lookup returns a listed area with the given id, or reports that no listed area has it. |
| LahoreRoads.GetAreaName | src/lib/bloodData.ts:200-202 | For a known id the result is that area's display name; for an unknown id it is the id itself. |
| LahoreRoads.RoadEntry | src/lib/bloodData.ts:37-62 | The network stores an entry u → v exactly when the road table gives it a distance, and it stores that distance. |
| LahoreRoads.RoadNetworkWellFormed | src/lib/bloodData.ts:37-62 | Every stored distance is positive, and every id in the network is a listed area. |
| LahoreRoads.RoadsReversed | src/lib/bloodData.ts:37-62 | Where a road is stored both ways it has one length. Exactly the five one-way pairs lack their reverse. |
| LahoreRoads.RoadNetworkNearlySymmetric | src/lib/bloodData.ts:40-57 | The same for the network map. The one-way entries are garden_town → model_town, dha → valencia, sabzazar → township, cavalry_ground → cantt and old_lahore → shadman. |
| LahoreRoads.FromValenciaIsPotential | src/lib/bloodData.ts:37-62 | No road shortens a hand-computed table of distances from Valencia Town, so the table bounds the true distances from below. |
| LahoreRoads.DistanceNotSymmetric | src/lib/bloodData.ts:40 | Road distance is not symmetric. DHA reaches Valencia Town in at most 10 km; the shortest way back is exactly 13 km. |
| BloodTypes.AllBloodTypesListed | src/lib/bloodData.ts:65 | `bloodTypes` lists each of the eight types once, under distinct labels. |
| BloodTypes.BloodCompatibilityIsTransfusable | src/lib/bloodData.ts:68-77 | A donor type appears in a recipient's list exactly when the donor's red cells carry no antigen (A, B, RhD) that the recipient's own cells lack. |
| BloodTypes.BloodCompatibilityFacts | src/lib/bloodData.ts:68-77 | Every recipient accepts its own type and O-. No list repeats a type. AB+ accepts all eight types. |
| BloodTypes.BloodCompatibilityTransitive | src/lib/bloodData.ts:68-77 | If a is acceptable to b and b is acceptable to c, then a is acceptable to c. |
| CompatibilityChart.ChartOrderComplete | src/pages/Compatibility.tsx:34 | The page's type order contains every type. |
| CompatibilityChart.ChartOrderDistinct | src/pages/Compatibility.tsx:34 | The page's type order names no type twice. |
| CompatibilityChart.CanDonateToIsTransfusable | src/pages/Compatibility.tsx:11-20 | The donor-side table lists exactly the recipients the antigen rule allows. |
| CompatibilityChart.CanReceiveFromIsTransfusable | src/pages/Compatibility.tsx:23-32 | The recipient-side table lists exactly the donors the antigen rule allows. |
| CompatibilityChart.DonateReceiveDual | src/pages/Compatibility.tsx:11-32 | r is in `canDonateTo[d]` exactly when d is in `canReceiveFrom[r]`. |
| CompatibilityChart.ReceiveMatchesBloodCompatibility | src/pages/Compatibility.tsx:23-32 | The page's recipient table and `bloodCompatibility` hold the same donor types for every recipient. |
| CompatibilityChart.TablesReflexive | src/pages/Compatibility.tsx:11-32 | Every type appears in its own row of both tables. |
| CompatibilityChart.TablesDuplicateFree | src/pages/Compatibility.tsx:11-32 | No row of either table repeats a type. |
| CompatibilityChart.InfoTextAgrees | src/pages/Compatibility.tsx:523-530 | The info panel's claims hold in the tables. O- donates to all types and receives only from O-. AB+ receives from all types and donates only to AB+. O+ donates to every positive type and receives only from O- and O+. AB- receives from exactly the negative types and donates to AB- and AB+. |
| CompatibilityChart.EdgesFrom | src/pages/Compatibility.tsx:208-212 | One donor's edges go to exactly its listed recipients other than itself. |
| CompatibilityChart.EdgesFromDistinct | src/pages/Compatibility.tsx:208-212 | A duplicate-free recipient list gives distinct edges. |
| CompatibilityChart.DeriveEdges | src/pages/Compatibility.tsx:205-215 | The derived edge list holds (from, to) exactly when `from` is among the visited donors, `to` is in its row, and the two differ. |
| CompatibilityChart.DeriveEdgesDistinct | src/pages/Compatibility.tsx:205-215 | Distinct donors with duplicate-free rows give an edge list without duplicates. |
| CompatibilityChart.FullGraphEdges | src/pages/Compatibility.tsx:205-215 | The full graph's edges are exactly the compatible pairs of distinct types (no self-loops), each drawn once. |
| CompatibilityChart.FullGraphEdgesAreTransfusions | src/pages/Compatibility.tsx:205-215 | An arrow from one type to another is drawn exactly when the types differ and the transfusion is allowed by the antigen rule. |
| CompatibilityChart.MatrixCell | src/pages/Compatibility.tsx:306-307 | A matrix cell shows a check exactly when the antigen rule allows the transfusion. This is also exactly when the recipient-side table lists the donor, and, for distinct types, exactly when the full graph draws that edge. |
| Inventory.FindStock | src/context/BloodContext.tsx:203 | The lookup returns the first entry of the type, or reports that the bank has none. |
| Inventory.AvailableFor | src/context/BloodContext.tsx:203-204 | The units the bank may hand out are the found entry's units minus its reserve, and 0 when the type has no entry. |
| Inventory.AddBloodUnits | src/context/BloodContext.tsx:68-74 | Every entry of the type gains exactly n units, whatever n's sign. Its reserve and all other entries are unchanged. |
| Inventory.RemoveBloodUnits | src/context/BloodContext.tsx:76-82 | Every entry of the type loses n units but never goes below 0. Its reserve and all other entries are unchanged. |
| Inventory.UpdateReservedUnits | src/context/BloodContext.tsx:84-90 | Every entry of the type reserves the given amount, or 0 if the amount is negative. Units and all other entries are unchanged. |
| Inventory.DeductUnits | src/context/BloodContext.tsx:208-214 | The bank path takes exactly n units off every entry of the type, without clamping, and keeps its reserve. Other entries are unchanged. |
| Inventory.InitialBloodBankWellFormed | src/lib/bloodData.ts:98-107 | The initial bank has one entry per type, and every reserve is within its stock. |
| Inventory.FindStockUnique | src/context/BloodContext.tsx:203 | In a bank with one entry per type, the lookup finds that entry. |
| Inventory.InitialBloodBankCoversAllTypes | src/lib/bloodData.ts:98-107 | Every type has an entry in the initial bank. |
| Inventory.InitialONegAvailable | src/lib/bloodData.ts:106 | Of O-'s 5 initial units, 3 are reserved, so 2 can be handed out. |
| Inventory.AddThenRemove | src/context/BloodContext.tsx:68-82 | On a bank without negative stock, removing what was just added restores the bank. |
| Inventory.AddTwice | src/context/BloodContext.tsx:68-74 | Two additions to one type are one addition of their sum. |
| Inventory.AdjustersKeepOneEntryPerType | src/context/BloodContext.tsx:68-90 | No adjuster creates a second entry for a type. |
| Inventory.AddKeepsReserve | src/context/BloodContext.tsx:68-74 | Adding a non-negative amount never breaks `reserved ≤ units`. |
| Inventory.RemoveAvailableKeepsReserve | src/context/BloodContext.tsx:76-82 | Removing no more than the unreserved units keeps `reserved ≤ units`. |
| Inventory.RemoveCanBreakReserve | src/context/BloodContext.tsx:76-82 | Removing 4 O- units from the initial bank leaves 1 unit against a reserve of 3. |
| Inventory.UpdateReservedCanBreakReserve | src/context/BloodContext.tsx:84-90 | Reserving 10 O- units in the initial bank exceeds its 5 units. |
| InventoryCard.View | src/components/BloodInventoryCard.tsx:31-33 | The card shows units minus reserve as available. It is low exactly when at most 5 are available and critical exactly when at most 2 are. |
| InventoryCard.CriticalIsLow | src/components/BloodInventoryCard.tsx:32-33 | A critical entry is always low. |
| InventoryCard.CardShowsBankAvailability | src/components/BloodInventoryCard.tsx:31 | The card's available figure is what the bank path of `processRequest` may take for that type. |
| InventoryCard.InitialCards | src/components/BloodInventoryCard.tsx:31-33 | In the initial bank, O- is critical and shows its reserve. AB- is low but not critical. The first five types are not low. |
| InventoryCard.HandleAddUnits | src/components/BloodInventoryCard.tsx:35-42 | Adding always passes the typed amount to `addBloodUnits`, shows "Units Added" and resets the amount to 1. |
| InventoryCard.HandleRemoveUnits | src/components/BloodInventoryCard.tsx:44-59 | Removal is refused exactly when the amount exceeds the card's total units. A refusal leaves the bank and the amount alone; otherwise the amount is removed and the input resets to 1. |
| InventoryCard.AcceptedRemovalIsExact | src/components/BloodInventoryCard.tsx:53 | An accepted amount from 1 up to the units comes off exactly and never reaches the clamp at zero. |
| InventoryCard.GuardIgnoresReserve | src/components/BloodInventoryCard.tsx:45-52 | The guard compares against the total, not the unreserved units. Taking 4 of the initial 5 O- units is accepted and breaks the reserve. |
| InventoryCard.HandleUpdateReserved | src/components/BloodInventoryCard.tsx:61-68 | Only the reserve of the card's type changes, to the typed amount or 0 if that is negative. |
| InventoryCard.ReserveAboveStockAccepted | src/components/BloodInventoryCard.tsx:61-68 | A reserve above the entry's units is stored as typed. |
| InventoryCard.ParseUnitAmount | src/components/BloodInventoryCard.tsx:142 | NaN and 0 fall back to 1, and every other number, negative ones included, is kept. So the amount is never 0. |
| InventoryCard.ParseReserved | src/components/BloodInventoryCard.tsx:174 | NaN falls back to 0, and every number is kept. |
| InventoryCard.NegativeAmountRemoveAdds | src/components/BloodInventoryCard.tsx:142 | A typed -3 passes parsing and the guard, and "remove" then adds 3 units. |
| InventoryCard.NegativeAmountAddRemoves | src/components/BloodInventoryCard.tsx:142 | A typed -10 makes "add" drive AB- from 4 units to -6. |
| InventoryCard.ParseUnitAmountAtLeastOne | src/components/BloodInventoryCard.tsx:140-142 | The parse the input's `min={1}` evidently intends: the amount is at least 1, and a typed amount of at least 1 is kept. |
| InventoryCard.AtLeastOneKeepsDirections | src/components/BloodInventoryCard.tsx:35-59 | With that parse, "add" never lowers any entry's units, and "remove" never raises a non-negative one. |
| DonorRanking.ExactDonors | src/context/BloodContext.tsx:105-107 | The exact-type pool holds exactly the available donors of the type, each as often as in the donor list. |
| DonorRanking.CompatibleDonors | src/context/BloodContext.tsx:92-97 | `getCompatibleDonors` returns exactly the available donors whose type the antigen rule allows for the recipient, each as often as in the donor list. |
| DonorRanking.ExactDonorsAreCompatible | src/context/BloodContext.tsx:92-107 | Every exact-type candidate is also a compatible donor. |
| DonorRanking.UpdateDonorAvailability | src/context/BloodContext.tsx:62-66 | Donors with the id get the new flag. No other field and no other donor changes. |
| DonorRanking.WithdrawnDonorLeavesPool | src/context/BloodContext.tsx:62-66 | Marking a donor unavailable removes exactly the donors with that id from the exact-type pool. |
| DonorRanking.UpdateDonorAvailabilityIdempotent | src/context/BloodContext.tsx:62-66 | Setting the same flag twice is setting it once. |
| DonorRanking.RouteNames | src/context/BloodContext.tsx:118 | The route shown is the display name of every area on the path, in order. |
| DonorRanking.ReachablesMembers | src/context/BloodContext.tsx:113-122 | The loop keeps exactly the candidates whose route answer has distance ≥ 0, each with its own route and distance. |
| DonorRanking.RankDonors | src/context/BloodContext.tsx:103-126 | The ranking holds exactly the available donors of the exact type that have a route, each with that route and distance. It is sorted by distance and is a permutation of the loop's output. Donors at equal distance keep their list order. |
| DonorRanking.NearestDonor | src/context/BloodContext.tsx:128-131 | `findNearestDonor` returns nothing exactly when no available donor of the type has a route. Otherwise it returns a ranked entry no farther than any other. |
| DonorRanking.SomethingRanked | src/context/BloodContext.tsx:128-131 | A non-empty ranking has an available donor of the type with a route. |
| DonorRanking.NothingRanked | src/context/BloodContext.tsx:109 | An empty ranking means no available donor of the type has a route. |
| DonorRanking.ScanFindsFirstMin | src/context/BloodContext.tsx:178-185 | The `processRequest` loop, which keeps only strictly shorter routes, ends with the first entry of least distance among the reachable candidates. |
| DonorRanking.ScanAgreesWithRanking | src/context/BloodContext.tsx:172-185 | The donor, route and distance picked by `processRequest` are those `findNearestDonor` returns. |
| DonorRanking.RouteAnswer | src/lib/bloodData.ts:193-196 | Under the router's answers, an area's distance is its road distance, and it is non-negative exactly when the area is reachable. |
| DonorRanking.RankedAreRoadDistances | src/context/BloodContext.tsx:114-119 | Under the router's answers, every ranked distance is the road distance to the donor's area. |
| DonorRanking.ReachableDonorsAreRanked | src/context/BloodContext.tsx:113-122 | Under the router's answers, every available exact-type donor whose area is reachable is ranked. |
| DonorRanking.OwnAreaRoute | src/lib/bloodData.ts:160 | The route to the hospital's own area has distance 0 and an empty path. |
| DonorRanking.SameAreaDonorIsNearest | src/context/BloodContext.tsx:113-131 | An available donor of the type in the hospital's own area ranks with distance 0 and an empty route, so the nearest match is 0 km away. |
| DonorRanking.RouteTable | src/context/BloodContext.tsx:114 | Running the router from the hospital to every area gives a correct route answer for each. |
| DonorRanking.RoutesFromHospital | src/context/BloodContext.tsx:114 | The routing built from that table answers as the router does for every area. |
| DonorRanking.FindAllDonorsSorted | src/context/BloodContext.tsx:103-126 | Every result is an available donor of the exact type at its road distance (≥ 0). Every such donor with a reachable area appears. The list is sorted by distance. |
| DonorRanking.FindNearestDonor | src/context/BloodContext.tsx:128-131 | The result is null exactly when no available exact-type donor is reachable. Otherwise it is such a donor at its road distance, no farther than any other reachable one. |
| Allocation.FindRequest | src/context/BloodContext.tsx:164 | The lookup returns the first request with the id, or reports that none has it. |
| Allocation.UpdateRequests | src/context/BloodContext.tsx:197 | Requests with the id are rewritten; the others are unchanged. |
| Allocation.FindReplaced | src/context/BloodContext.tsx:197 | After a replacement by a request carrying the id, the lookup finds that request. |
| Allocation.ReplaceWithItself | src/context/BloodContext.tsx:229 | With unique ids, writing back the request found under the id changes nothing. |
| Allocation.Allocate | src/context/BloodContext.tsx:163-231 | An unknown or non-pending request gives null and no change. Otherwise only requests with the id are rewritten, to the returned answer. A match leaves the bank alone and names an available donor of the exact type. Any other answer leaves the donors alone. |
| Allocation.Respond | src/context/BloodContext.tsx:172-230 | The answer keeps the request's id, form and creation time. Every request with the id becomes the answer. A match leaves the bank alone, and other answers leave the donors alone. |
| Allocation.DonorPath | src/context/BloodContext.tsx:187-199 | When a reachable exact-type donor exists, the request is matched with the donor, route and distance `findNearestDonor` reports. Every donor record with the matched donor's id is made unavailable (donor ids are not assumed unique), the other donors are unchanged, and the bank is unchanged. |
| Allocation.DonorPathIsNearest | src/context/BloodContext.tsx:178-195 | Under the router's answers, the matched distance is the road distance to the donor, and no reachable candidate is nearer. |
| Allocation.BankPath | src/context/BloodContext.tsx:203-221 | With no reachable donor and enough unreserved units, the units of the type drop by exactly the request, and the request becomes Fulfilled from the bank. Donors are unchanged. |
| Allocation.BankPathKeepsReserve | src/context/BloodContext.tsx:204-214 | On the bank path, the entry keeps its reserve and ends with units ≥ reserved. |
| Allocation.BankPathKeepsAllReserves | src/context/BloodContext.tsx:204-214 | The bank path keeps `reserved ≤ units` for every entry whenever it held before. |
| Allocation.PendingPath | src/context/BloodContext.tsx:224-230 | With neither a reachable donor nor enough unreserved units, the request comes back unchanged. Donors and bank are unchanged, and with unique ids so is the whole state. |
| Allocation.ReplaceSameButPriority | src/context/BloodContext.tsx:197 | Request lists that differ only in priorities still do after the same replacement. |
| Allocation.FindSameButPriority | src/context/BloodContext.tsx:164 | Request lists that differ only in priorities find an id at the same place. |
| Allocation.AllocateIgnoresPriority | src/context/BloodContext.tsx:163-231 | `processRequest` never reads priority. States that differ only in priorities give the same outcome up to priorities. |
| Allocation.PendingIgnoresPriority | src/context/BloodContext.tsx:167-230 | The same, for a pending request. |
| Allocation.RespondIgnoresPriority | src/context/BloodContext.tsx:167-230 | The same, for the answer and the rewritten request list. |
| Allocation.AnswerIgnoresPriority | src/context/BloodContext.tsx:167-222 | The answer, donors and bank do not depend on the request's priority. |
| Allocation.AllocateIdempotent | src/context/BloodContext.tsx:165 | Once a request is matched or fulfilled, processing it again is refused and changes nothing. |
| Allocation.ProcessRequest | src/context/BloodContext.tsx:163-231 | Running the router from the request's hospital and allocating gives null with no change for an unknown id. Otherwise it is the allocation under the router's answers, and a match reports the road distance to the matched donor. |
| Allocation.CreateRequest | src/context/BloodContext.tsx:133-141 | The new request gets the supplied id and time and is appended. It starts Pending with no source, matched donor, route or distance. |
| Allocation.CreatedRequestIsProcessed | src/context/BloodContext.tsx:133-165 | A request created under a fresh id is found, and processing it is not refused. |
| Allocation.AddDonor | src/context/BloodContext.tsx:50-56 | The new donor, under its id, is appended; the others are unchanged. |
| Allocation.DeleteDonor | src/context/BloodContext.tsx:58-60 | Exactly the donors with the id are dropped; the others keep their multiplicity. |
| Allocation.DeletedDonorNotMatched | src/context/BloodContext.tsx:58-60 | After deletion, no request is matched to a donor with that id. |
| Allocation.ConfirmMatch | src/context/BloodContext.tsx:262-300 | Only a found request with a matched donor can be confirmed. If recording the donation fails, the call rejects and nothing changes. Otherwise the requests with the id become Fulfilled. Any other call changes nothing. |
| Allocation.MarkRequestComplete | src/context/BloodContext.tsx:302-320 | Requests with the id become Fulfilled from any status; nothing else changes. |
| Allocation.CompletedIsFinal | src/context/BloodContext.tsx:302-320 | Completing twice is completing once, and a completed request is refused by `processRequest`. |
| Allocation.ConfirmedIsFinal | src/context/BloodContext.tsx:279-283 | After a successful confirmation, the request found under the id is Fulfilled, or nothing changed. Once a matched request is confirmed, `processRequest` refuses it and changes nothing, as after `markRequestComplete`. |
| Allocation.DeleteRequest | src/context/BloodContext.tsx:322-336 | Exactly the requests with the id are dropped; the others keep their multiplicity. |
| Allocation.DeletedIsUnknown | src/context/BloodContext.tsx:322-336 | After deletion the id is unknown: `processRequest` is refused and `confirmMatch` changes nothing. |
| Sorting.SortBy | src/context/BloodContext.tsx:125 | The stable sort output is sorted, is a permutation of its input, and keeps input order among equal keys. |
| Sorting.SortedHead | src/context/BloodContext.tsx:125 | The head of the stable sort is the first element of least key. |
| Leaderboard.AddRow | src/components/DonorLeaderboard.tsx:31-45 | When the row's donor already has an entry, that entry alone gains the row's units and one donation; every other entry is unchanged. Otherwise no entry has the donor's id, and a new entry with the row's name, id, blood type and units and one donation is appended. |
| Leaderboard.AggregateSummarises | src/components/DonorLeaderboard.tsx:31-45 | There is exactly one entry per donor id among the rows. Each entry's total is the sum of that donor's row units and its count is the number of rows. Its name and blood type come from the donor's first row. |
| Leaderboard.AddRowSummarises | src/components/DonorLeaderboard.tsx:32-44 | One step of the loop keeps the aggregation a summary of the rows seen so far. |
| Leaderboard.AggregateConserves | src/components/DonorLeaderboard.tsx:32-45 | Before the cut, the donation counts add up to the number of rows, and the totals to the sum of all units. |
| Leaderboard.AddRowConserves | src/components/DonorLeaderboard.tsx:43-44 | One row adds one donation and its units to the sums over the entries. |
| Leaderboard.Leaderboard | src/components/DonorLeaderboard.tsx:47-49 | The board shows the first ten entries, or all if there are fewer, in non-increasing order of total units. Every shown entry is an aggregated one, and every omitted entry has a total no larger than any shown one. |
| Leaderboard.LeaderboardSummarises | src/components/DonorLeaderboard.tsx:31-49 | Every shown entry sums up its donor's rows. |
| Leaderboard.LeaderboardDistinct | src/components/DonorLeaderboard.tsx:47-49 | No donor is shown twice. |

## Left out

- Database and network I/O is not modelled. This covers the inserts, updates and deletes, the donations query of the leaderboard, and the match-notification call. A `recordDonation` failure is an input flag of `ConfirmMatch`, the notification's outcome is ignored, and the leaderboard's rows are an input sequence.
- The user interface is not modelled: rendering, animation, maps, dialogs and toasts. The toasts appear only as the `Toast` result of the card handlers.
- Authentication and route protection are not modelled.
- Area coordinates are not modelled. They are floating-point values used only for drawing maps.
- Timestamps are parameters. The `Date.now()` ids and the `createdAt` time are passed in by the caller.
- JavaScript `number` is modelled as an unbounded `int`. Floating-point rounding and the 2^53 limit are not modelled. Nothing is lost by this: units, amounts and reserves come from `parseInt`, and road lengths are small integer literals, so all sums and differences stay far inside the exact-integer range.
- Text parsing is not modelled. A number input's text reaches the model already converted by `parseInt`, with NaN as `None`.
- The requester's contact fields (`requesterName`, `requesterPhone`, `relationWithPatient`) and optional donor fields (`email`, `lastDonation`) are not modelled, because no modelled operation reads them.
- Route tables are computed per area, not per donor. `dijkstra` is a pure function of its two arguments, so it answers a donor's area the same way for every donor there.
- Router.Dijkstra: the queue order among nodes at equal distance is not modelled. Which shortest path is returned on a tie may differ from the original, but the distance does not.
- Router.Dijkstra: area ids are an enumeration. An unknown target id makes the original's reconstruction loop run forever, so the target must be a listed area. The hospital area and donor areas are listed areas too.
- Leaderboard.Leaderboard: the order among donors with equal totals is not stated. The original's tie order comes from JavaScript's key order for plain objects, which moves integer-like ids to the front. The model keeps first-appearance order, and the contract states only sortedness, membership and the cut.
- `getCompatibleBloodTypes` returns the `bloodCompatibility` row itself, so it is `BloodTypes.BloodCompatibility`. Its `|| []` fallback cannot be reached for a blood type.
- `getArea` is an `Array.find` over the areas. `LahoreRoads.FindArea` models it.
- React state mechanics (batched updates, stale closures) are not modelled. Every operation is a transition on an explicit snapshot.
- The search filters of the dashboard and the donation history are not modelled. They depend on JavaScript's Unicode case conversion.

## Findings

| source | as written | input that shows it | evidently intended | confidence | as-written member | corrected member |
|---|---|---|---|---|---|---|
| src/components/BloodInventoryCard.tsx:142 with :45-53 | The unit amount is `parseInt(value) \|\| 1`. A typed negative number is kept, passes the removal guard (`unitAmount > units` is false) and reaches the adjusters. | Typing -3 and pressing remove adds 3 units. Typing -10 and pressing add on AB- (4 units) leaves -6 units. | The input's `min={1}` intends an amount of at least 1, so add never lowers stock and remove never raises it. | not executed | InventoryCard.NegativeAmountRemoveAdds, InventoryCard.NegativeAmountAddRemoves | InventoryCard.ParseUnitAmountAtLeastOne, InventoryCard.AtLeastOneKeepsDirections |
