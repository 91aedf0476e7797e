/**
  The fixed city data of src/lib/bloodData.ts: the 24 Lahore areas with their ids
  and display names, and the road network as an adjacency map of kilometre
  distances. Coordinates are only used for drawing maps and are not modelled.
 */
module LahoreRoads {
  import opened Optional
  import opened Graphs

  /** The areas, in the order they are listed in `lahoreAreas`. */
  datatype Area =
    | Gulberg | Dha | JoharTown | ModelTown | AllamaIqbalTown | GardenTown
    | Cantt | Township | WapdaTown | BahriaTown | IqbalTown | Sabzazar
    | FaisalTown | CavalryGround | DefenceRaya | Valencia | ParagonCity | LakeCity
    | MallRoad | OldLahore | Shadman | Liberty | PecoRoad | Raiwind

  const LahoreAreas: seq<Area> := [
    Gulberg, Dha, JoharTown, ModelTown, AllamaIqbalTown, GardenTown,
    Cantt, Township, WapdaTown, BahriaTown, IqbalTown, Sabzazar,
    FaisalTown, CavalryGround, DefenceRaya, Valencia, ParagonCity, LakeCity,
    MallRoad, OldLahore, Shadman, Liberty, PecoRoad, Raiwind
  ]

  /** The same areas as a set. */
  const AreaSet: set<Area> := {
    Gulberg, Dha, JoharTown, ModelTown, AllamaIqbalTown, GardenTown,
    Cantt, Township, WapdaTown, BahriaTown, IqbalTown, Sabzazar,
    FaisalTown, CavalryGround, DefenceRaya, Valencia, ParagonCity, LakeCity,
    MallRoad, OldLahore, Shadman, Liberty, PecoRoad, Raiwind
  }

  lemma AllAreasListed(a: Area)
    ensures a in LahoreAreas && a in AreaSet
  {
  }

  /** The string id an area is stored under. */
  function AreaId(a: Area): string {
    match a
    case Gulberg => "gulberg"
    case Dha => "dha"
    case JoharTown => "johar_town"
    case ModelTown => "model_town"
    case AllamaIqbalTown => "allama_iqbal_town"
    case GardenTown => "garden_town"
    case Cantt => "cantt"
    case Township => "township"
    case WapdaTown => "wapda_town"
    case BahriaTown => "bahria_town"
    case IqbalTown => "iqbal_town"
    case Sabzazar => "sabzazar"
    case FaisalTown => "faisal_town"
    case CavalryGround => "cavalry_ground"
    case DefenceRaya => "defence_raya"
    case Valencia => "valencia"
    case ParagonCity => "paragon_city"
    case LakeCity => "lake_city"
    case MallRoad => "mall_road"
    case OldLahore => "old_lahore"
    case Shadman => "shadman"
    case Liberty => "liberty"
    case PecoRoad => "peco_road"
    case Raiwind => "raiwind"
  }

  /** The display name of an area. */
  function AreaName(a: Area): string {
    match a
    case Gulberg => "Gulberg"
    case Dha => "DHA"
    case JoharTown => "Johar Town"
    case ModelTown => "Model Town"
    case AllamaIqbalTown => "Allama Iqbal Town"
    case GardenTown => "Garden Town"
    case Cantt => "Cantt"
    case Township => "Township"
    case WapdaTown => "Wapda Town"
    case BahriaTown => "Bahria Town"
    case IqbalTown => "Iqbal Town"
    case Sabzazar => "Sabzazar"
    case FaisalTown => "Faisal Town"
    case CavalryGround => "Cavalry Ground"
    case DefenceRaya => "Defence Raya"
    case Valencia => "Valencia Town"
    case ParagonCity => "Paragon City"
    case LakeCity => "Lake City"
    case MallRoad => "Mall Road"
    case OldLahore => "Old Lahore (Walled City)"
    case Shadman => "Shadman"
    case Liberty => "Liberty Market Area"
    case PecoRoad => "PECO Road"
    case Raiwind => "Raiwind"
  }

  /** No two areas share an id, so an id names at most one area. */
  lemma AreaIdInjective(a: Area, b: Area)
    requires AreaId(a) == AreaId(b)
    ensures a == b
  {
  }

  /** The first listed area with the given id (`lahoreAreas.find`). */
  function FindArea(areas: seq<Area>, id: string): (r: Option<Area>)
    ensures r.Some? ==> r.value in areas && AreaId(r.value) == id
    ensures r.None? ==> forall a :: a in areas ==> AreaId(a) != id
  {
    if |areas| == 0 then None
    else if AreaId(areas[0]) == id then Some(areas[0])
    else FindArea(areas[1..], id)
  }

  /** The display name for an area id; an unknown id is shown as itself. */
  function GetAreaName(id: string): (r: string)
    ensures forall a :: AreaId(a) == id ==> r == AreaName(a)
    ensures (forall a :: AreaId(a) != id) ==> r == id
  {
    match FindArea(LahoreAreas, id)
    case Some(a) =>
      assert forall b :: AreaId(b) == id ==> b == a by {
        forall b | AreaId(b) == id ensures b == a { AreaIdInjective(a, b); }
      }
      AreaName(a)
    case None =>
      assert forall b :: AreaId(b) != id by {
        forall b ensures AreaId(b) != id { AllAreasListed(b); }
      }
      id
  }

  /** The kilometre distance stored under `roadNetwork[u][v]`, 0 when there is no such entry. */
  function Road(u: Area, v: Area): nat {
    match u
    case Gulberg => (match v case ModelTown => 4 case GardenTown => 3 case Cantt => 5 case Dha => 7 case Liberty => 2 case Shadman => 3 case CavalryGround => 4 case _ => 0)
    case ModelTown => (match v case Gulberg => 4 case Township => 6 case AllamaIqbalTown => 5 case JoharTown => 7 case FaisalTown => 5 case _ => 0)
    case Dha => (match v case JoharTown => 8 case Cantt => 9 case BahriaTown => 12 case Gulberg => 7 case DefenceRaya => 5 case Valencia => 10 case _ => 0)
    case JoharTown => (match v case ModelTown => 7 case WapdaTown => 4 case Dha => 8 case AllamaIqbalTown => 6 case FaisalTown => 4 case _ => 0)
    case AllamaIqbalTown => (match v case ModelTown => 5 case Township => 4 case JoharTown => 6 case Sabzazar => 3 case IqbalTown => 4 case _ => 0)
    case GardenTown => (match v case Gulberg => 3 case ModelTown => 5 case Cantt => 4 case Liberty => 2 case _ => 0)
    case Cantt => (match v case Gulberg => 5 case GardenTown => 4 case Dha => 9 case MallRoad => 3 case Shadman => 4 case _ => 0)
    case Township => (match v case ModelTown => 6 case AllamaIqbalTown => 4 case WapdaTown => 5 case PecoRoad => 4 case _ => 0)
    case WapdaTown => (match v case JoharTown => 4 case Township => 5 case BahriaTown => 15 case Valencia => 8 case _ => 0)
    case BahriaTown => (match v case Dha => 12 case WapdaTown => 15 case ParagonCity => 6 case LakeCity => 8 case Raiwind => 10 case _ => 0)
    case IqbalTown => (match v case AllamaIqbalTown => 4 case Sabzazar => 3 case PecoRoad => 5 case _ => 0)
    case Sabzazar => (match v case AllamaIqbalTown => 3 case IqbalTown => 3 case Township => 5 case _ => 0)
    case FaisalTown => (match v case ModelTown => 5 case JoharTown => 4 case Valencia => 7 case _ => 0)
    case CavalryGround => (match v case Gulberg => 4 case Cantt => 5 case Shadman => 3 case _ => 0)
    case DefenceRaya => (match v case Dha => 5 case Valencia => 8 case _ => 0)
    case Valencia => (match v case WapdaTown => 8 case DefenceRaya => 8 case FaisalTown => 7 case ParagonCity => 10 case _ => 0)
    case ParagonCity => (match v case BahriaTown => 6 case LakeCity => 5 case Valencia => 10 case _ => 0)
    case LakeCity => (match v case BahriaTown => 8 case ParagonCity => 5 case Raiwind => 8 case _ => 0)
    case MallRoad => (match v case Cantt => 3 case OldLahore => 4 case Shadman => 3 case _ => 0)
    case OldLahore => (match v case MallRoad => 4 case Shadman => 5 case _ => 0)
    case Shadman => (match v case Gulberg => 3 case Cantt => 4 case CavalryGround => 3 case MallRoad => 3 case Liberty => 2 case _ => 0)
    case Liberty => (match v case Gulberg => 2 case GardenTown => 2 case Shadman => 2 case _ => 0)
    case PecoRoad => (match v case Township => 4 case IqbalTown => 5 case Raiwind => 12 case _ => 0)
    case Raiwind => (match v case BahriaTown => 10 case LakeCity => 8 case PecoRoad => 12 case _ => 0)
  }

  /** The outgoing entries of one area: its neighbours with their distances. */
  function Neighbours(u: Area): map<Area, nat> {
    map v | v in AreaSet && Road(u, v) > 0 :: Road(u, v)
  }

  /** `roadNetwork`: the outgoing entries of every listed area, keyed by area. */
  const RoadNetwork: Graph<Area> := map u | u in AreaSet :: Neighbours(u)

  /** The network stores `u -> v` exactly when `Road` gives it a distance, and stores that distance. */
  lemma RoadEntry(u: Area, v: Area)
    ensures Edge(RoadNetwork, u, v) <==> Road(u, v) > 0
    ensures Edge(RoadNetwork, u, v) ==> RoadNetwork[u][v] == Road(u, v)
  {
    NetworkRow(u);
    NeighbourEntry(u, v);
  }

  lemma NetworkRow(u: Area)
    ensures u in RoadNetwork && RoadNetwork[u] == Neighbours(u)
  {
    AllAreasListed(u);
  }

  lemma NeighbourEntry(u: Area, v: Area)
    ensures v in Neighbours(u) <==> Road(u, v) > 0
    ensures v in Neighbours(u) ==> Neighbours(u)[v] == Road(u, v)
  {
    AllAreasListed(v);
  }

  /** Weights are positive and every id in the network is a listed area. */
  lemma RoadNetworkWellFormed()
    ensures WellFormed(RoadNetwork, AreaSet)
  {
    forall u, v | Edge(RoadNetwork, u, v)
      ensures u in AreaSet && v in AreaSet && RoadNetwork[u][v] > 0
    {
      RoadEntry(u, v);
      AllAreasListed(u);
      AllAreasListed(v);
    }
  }

  /** The entries stored in one direction only. */
  predicate OneWay(u: Area, v: Area) {
    || (u == GardenTown && v == ModelTown)
    || (u == Dha && v == Valencia)
    || (u == Sabzazar && v == Township)
    || (u == CavalryGround && v == Cantt)
    || (u == OldLahore && v == Shadman)
  }

  lemma RoadsReversed()
    ensures forall u, v :: Road(u, v) > 0 && Road(v, u) > 0 ==> Road(u, v) == Road(v, u)
    ensures forall u, v :: Road(u, v) > 0 && Road(v, u) == 0 <==> OneWay(u, v)
  {
  }

  /**
    Where both directions are stored they carry the same distance; exactly the
    five `OneWay` entries lack their reverse.
   */
  lemma RoadNetworkNearlySymmetric()
    ensures forall u, v :: Edge(RoadNetwork, u, v) && Edge(RoadNetwork, v, u) ==> RoadNetwork[u][v] == RoadNetwork[v][u]
    ensures forall u, v :: Edge(RoadNetwork, u, v) && !Edge(RoadNetwork, v, u) <==> OneWay(u, v)
  {
    RoadsReversed();
    forall u, v
      ensures Edge(RoadNetwork, u, v) && Edge(RoadNetwork, v, u) ==> RoadNetwork[u][v] == RoadNetwork[v][u]
      ensures Edge(RoadNetwork, u, v) && !Edge(RoadNetwork, v, u) <==> OneWay(u, v)
    {
      RoadEntry(u, v);
      RoadEntry(v, u);
    }
  }

  /** Shortest distances from Valencia Town, worked out by hand; checked edge by edge below. */
  function FromValencia(a: Area): int {
    match a
    case Valencia => 0
    case FaisalTown => 7
    case WapdaTown => 8
    case DefenceRaya => 8
    case ParagonCity => 10
    case JoharTown => 11
    case ModelTown => 12
    case Dha => 13
    case Township => 13
    case LakeCity => 15
    case Gulberg => 16
    case BahriaTown => 16
    case AllamaIqbalTown => 17
    case PecoRoad => 17
    case Liberty => 18
    case GardenTown => 19
    case Shadman => 19
    case Sabzazar => 20
    case CavalryGround => 20
    case Cantt => 21
    case IqbalTown => 21
    case MallRoad => 22
    case Raiwind => 23
    case OldLahore => 26
  }

  /** No road shortens the hand-computed distances, so they are lower bounds. */
  lemma FromValenciaIsPotential()
    ensures forall u, v :: Edge(RoadNetwork, u, v) ==> FromValencia(v) <= FromValencia(u) + RoadNetwork[u][v]
  {
    assert forall u, v :: Road(u, v) > 0 ==> FromValencia(v) <= FromValencia(u) + Road(u, v);
    forall u, v | Edge(RoadNetwork, u, v)
      ensures FromValencia(v) <= FromValencia(u) + RoadNetwork[u][v]
    {
      RoadEntry(u, v);
    }
  }

  /** DHA's direct one-way road to Valencia Town bounds that trip by 10 km. */
  lemma DhaToValencia()
    ensures 0 <= ShortestDistance(RoadNetwork, Dha, Valencia) <= 10
  {
    RoadEntry(Dha, Valencia);
    EdgePath(RoadNetwork, Dha, Valencia);
    PathBoundsDistance(RoadNetwork, [Dha, Valencia], Dha, Valencia);
  }

  /** Going back through Defence Raya takes 8 + 5 km. */
  lemma ValenciaToDhaVia()
    ensures 0 <= ShortestDistance(RoadNetwork, Valencia, Dha) <= 13
  {
    RoadEntry(Valencia, DefenceRaya);
    RoadEntry(DefenceRaya, Dha);
    TwoEdgePath(RoadNetwork, Valencia, DefenceRaya, Dha);
    PathBoundsDistance(RoadNetwork, [Valencia, DefenceRaya, Dha], Valencia, Dha);
  }

  /** No way back from Valencia Town to DHA is shorter than 13 km. */
  lemma ValenciaToDhaAtLeast()
    requires Reachable(RoadNetwork, Valencia, Dha)
    ensures ShortestDistance(RoadNetwork, Valencia, Dha) >= 13
  {
    FromValenciaIsPotential();
    PotentialBoundsDistance(RoadNetwork, FromValencia, Valencia, Dha);
  }

  /**
    Travel distance is not symmetric: DHA reaches Valencia Town over its direct
    one-way road (10 km), while the way back needs 13 km via Defence Raya.
   */
  lemma DistanceNotSymmetric()
    ensures ShortestDistance(RoadNetwork, Dha, Valencia) <= 10
    ensures ShortestDistance(RoadNetwork, Valencia, Dha) == 13
  {
    DhaToValencia();
    ValenciaToDhaVia();
    ValenciaToDhaAtLeast();
  }
}
