/**
  The compatibility page (src/pages/Compatibility.tsx): the donor-side table
  `canDonateTo`, the recipient-side table `canReceiveFrom`, the edge list drawn
  by the full compatibility graph, and the cells of the compatibility matrix.
  The page keeps its own tables, independent of `bloodCompatibility`; they are
  proved to describe the same relation.
 */
module CompatibilityChart {
  import opened Collections
  import opened BloodTypes

  /** The page's own `bloodTypes`, which is also the key order of both tables. */
  const ChartOrder: seq<BloodType> := [ONeg, OPos, ANeg, APos, BNeg, BPos, ABNeg, ABPos]

  /** The page's type order lists each type exactly once. */
  lemma ChartOrderComplete(t: BloodType)
    ensures t in ChartOrder
  {
  }

  lemma ChartOrderDistinct()
    ensures NoDuplicates(ChartOrder)
  {
  }

  /** `canDonateTo[donor]`: the recipient types a donor can give to. */
  function CanDonateTo(donor: BloodType): seq<BloodType> {
    match donor
    case ONeg => [ONeg, OPos, ANeg, APos, BNeg, BPos, ABNeg, ABPos]
    case OPos => [OPos, APos, BPos, ABPos]
    case ANeg => [ANeg, APos, ABNeg, ABPos]
    case APos => [APos, ABPos]
    case BNeg => [BNeg, BPos, ABNeg, ABPos]
    case BPos => [BPos, ABPos]
    case ABNeg => [ABNeg, ABPos]
    case ABPos => [ABPos]
  }

  /** `canReceiveFrom[recipient]`: the donor types a recipient can take. */
  function CanReceiveFrom(recipient: BloodType): seq<BloodType> {
    match recipient
    case ONeg => [ONeg]
    case OPos => [ONeg, OPos]
    case ANeg => [ONeg, ANeg]
    case APos => [ONeg, OPos, ANeg, APos]
    case BNeg => [ONeg, BNeg]
    case BPos => [ONeg, OPos, BNeg, BPos]
    case ABNeg => [ONeg, ANeg, BNeg, ABNeg]
    case ABPos => [ONeg, OPos, ANeg, APos, BNeg, BPos, ABNeg, ABPos]
  }

  /** The donor table follows the antigen rule. */
  lemma CanDonateToIsTransfusable(donor: BloodType, recipient: BloodType)
    ensures recipient in CanDonateTo(donor) <==> Transfusable(donor, recipient)
  {
    match donor
    case ONeg =>
    case OPos =>
    case ANeg =>
    case APos =>
    case BNeg =>
    case BPos =>
    case ABNeg =>
    case ABPos =>
  }

  /** The recipient table follows the antigen rule. */
  lemma CanReceiveFromIsTransfusable(donor: BloodType, recipient: BloodType)
    ensures donor in CanReceiveFrom(recipient) <==> Transfusable(donor, recipient)
  {
    match recipient
    case ONeg =>
    case OPos =>
    case ANeg =>
    case APos =>
    case BNeg =>
    case BPos =>
    case ABNeg =>
    case ABPos =>
  }

  /** The two tables are the two directions of one relation. */
  lemma DonateReceiveDual(donor: BloodType, recipient: BloodType)
    ensures recipient in CanDonateTo(donor) <==> donor in CanReceiveFrom(recipient)
  {
    CanDonateToIsTransfusable(donor, recipient);
    CanReceiveFromIsTransfusable(donor, recipient);
  }

  /** The page's recipient table and `bloodCompatibility` hold the same types for every recipient. */
  lemma ReceiveMatchesBloodCompatibility(donor: BloodType, recipient: BloodType)
    ensures donor in CanReceiveFrom(recipient) <==> donor in BloodCompatibility(recipient)
  {
    CanReceiveFromIsTransfusable(donor, recipient);
    BloodCompatibilityIsTransfusable(donor, recipient);
  }

  /** Every type can give to and take from itself. */
  lemma TablesReflexive(t: BloodType)
    ensures t in CanDonateTo(t) && t in CanReceiveFrom(t)
  {
    CanDonateToIsTransfusable(t, t);
    CanReceiveFromIsTransfusable(t, t);
  }

  /** Each list names a type at most once. */
  lemma TablesDuplicateFree(t: BloodType)
    ensures NoDuplicates(CanDonateTo(t)) && NoDuplicates(CanReceiveFrom(t))
  {
  }

  /** The statements of the page's info panel agree with the tables. */
  lemma InfoTextAgrees()
    ensures forall t :: t in CanDonateTo(ONeg) && t in CanReceiveFrom(ABPos)
    ensures CanReceiveFrom(ONeg) == [ONeg] && CanDonateTo(ABPos) == [ABPos]
    ensures forall t :: Carries(t, RhD) ==> t in CanDonateTo(OPos)
    ensures forall t :: t in CanReceiveFrom(OPos) <==> t == ONeg || t == OPos
    ensures forall t :: t in CanReceiveFrom(ABNeg) <==> !Carries(t, RhD)
    ensures forall t :: t in CanDonateTo(ABNeg) <==> t == ABNeg || t == ABPos
  {
    forall t
      ensures t in CanDonateTo(ONeg) && t in CanReceiveFrom(ABPos)
      ensures Carries(t, RhD) ==> t in CanDonateTo(OPos)
      ensures t in CanReceiveFrom(OPos) <==> t == ONeg || t == OPos
      ensures t in CanReceiveFrom(ABNeg) <==> !Carries(t, RhD)
      ensures t in CanDonateTo(ABNeg) <==> t == ABNeg || t == ABPos
    {
      match t
      case ONeg =>
      case OPos =>
      case ANeg =>
      case APos =>
      case BNeg =>
      case BPos =>
      case ABNeg =>
      case ABPos =>
    }
  }

  // ---------------------------------------------------------------------------
  // The full compatibility graph.

  datatype GraphEdge = GraphEdge(from: BloodType, to: BloodType)

  /** The edges contributed by one donor: its recipients other than itself, in list order. */
  function EdgesFrom(from: BloodType, tos: seq<BloodType>): (r: seq<GraphEdge>)
    ensures forall e :: e in r <==> e.from == from && e.to in tos && e.to != from
  {
    if |tos| == 0 then []
    else if tos[0] != from then [GraphEdge(from, tos[0])] + EdgesFrom(from, tos[1..])
    else EdgesFrom(from, tos[1..])
  }

  /** A donor's edges are distinct when its recipient list is. */
  lemma {:induction false} EdgesFromDistinct(from: BloodType, tos: seq<BloodType>)
    requires NoDuplicates(tos)
    ensures NoDuplicates(EdgesFrom(from, tos))
    decreases |tos|
  {
    if |tos| > 0 {
      NoDuplicatesTail(tos);
      EdgesFromDistinct(from, tos[1..]);
      if tos[0] != from {
        DisjointConcat([GraphEdge(from, tos[0])], EdgesFrom(from, tos[1..]));
      }
    }
  }

  /** The edges of every donor in `froms`, one donor after another, each with its recipients in `table`. */
  function DeriveEdges(froms: seq<BloodType>, table: BloodType -> seq<BloodType>): (r: seq<GraphEdge>)
    ensures forall e :: e in r <==> e.from in froms && e.to in table(e.from) && e.from != e.to
  {
    if |froms| == 0 then []
    else
      assert froms == [froms[0]] + froms[1..];
      EdgesFrom(froms[0], table(froms[0])) + DeriveEdges(froms[1..], table)
  }

  /** Distinct donors with duplicate-free recipient lists give distinct edges. */
  lemma {:induction false} DeriveEdgesDistinct(froms: seq<BloodType>, table: BloodType -> seq<BloodType>)
    requires NoDuplicates(froms)
    requires forall t :: NoDuplicates(table(t))
    ensures NoDuplicates(DeriveEdges(froms, table))
    decreases |froms|
  {
    if |froms| > 0 {
      var head := EdgesFrom(froms[0], table(froms[0]));
      var tail := DeriveEdges(froms[1..], table);
      NoDuplicatesTail(froms);
      DeriveEdgesDistinct(froms[1..], table);
      EdgesFromDistinct(froms[0], table(froms[0]));
      assert forall e :: e in tail ==> e !in head;
      DisjointConcat(head, tail);
    }
  }

  /** The `edges` of the full graph: the keys of `canDonateTo` are visited in the page's type order. */
  function FullGraphEdges(): (r: seq<GraphEdge>)
    ensures forall e :: e in r <==> e.to in CanDonateTo(e.from) && e.from != e.to
    ensures NoDuplicates(r)
  {
    ChartOrderDistinct();
    forall t ensures NoDuplicates(CanDonateTo(t)) { TablesDuplicateFree(t); }
    DeriveEdgesDistinct(ChartOrder, CanDonateTo);
    forall t ensures t in ChartOrder { ChartOrderComplete(t); }
    DeriveEdges(ChartOrder, CanDonateTo)
  }

  /** The graph draws an arrow exactly for a compatible pair of distinct types. */
  lemma FullGraphEdgesAreTransfusions(from: BloodType, to: BloodType)
    ensures GraphEdge(from, to) in FullGraphEdges() <==> from != to && Transfusable(from, to)
  {
    CanDonateToIsTransfusable(from, to);
  }

  /** A matrix cell (row = donor, column = recipient) shows a check mark. */
  function MatrixCell(fromType: BloodType, toType: BloodType): (check: bool)
    ensures check <==> Transfusable(fromType, toType)
    ensures check <==> fromType in CanReceiveFrom(toType)
    ensures check && fromType != toType <==> GraphEdge(fromType, toType) in FullGraphEdges()
  {
    CanDonateToIsTransfusable(fromType, toType);
    DonateReceiveDual(fromType, toType);
    toType in CanDonateTo(fromType)
  }
}
