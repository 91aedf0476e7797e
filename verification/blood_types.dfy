/**
  The eight ABO/Rh blood types of src/lib/bloodData.ts and the recipient table
  `bloodCompatibility`, which lists for each recipient type the donor types it
  may receive. The table is checked against the textbook rule it encodes: a
  donor is acceptable when the donor's red cells carry no antigen (A, B or RhD)
  that the recipient's own cells lack.
 */
module BloodTypes {
  import opened Collections

  datatype BloodType = APos | ANeg | BPos | BNeg | ABPos | ABNeg | OPos | ONeg

  /** `bloodTypes`, in its listed order. */
  const AllBloodTypes: seq<BloodType> := [APos, ANeg, BPos, BNeg, ABPos, ABNeg, OPos, ONeg]

  /** The label the application shows and stores for a type. */
  function Label(t: BloodType): string {
    match t
    case APos => "A+"
    case ANeg => "A-"
    case BPos => "B+"
    case BNeg => "B-"
    case ABPos => "AB+"
    case ABNeg => "AB-"
    case OPos => "O+"
    case ONeg => "O-"
  }

  /** `bloodTypes` lists every type exactly once, under distinct labels. */
  lemma AllBloodTypesListed(t: BloodType, u: BloodType)
    ensures t in AllBloodTypes && NoDuplicates(AllBloodTypes)
    ensures Label(t) == Label(u) ==> t == u
  {
  }

  // ---------------------------------------------------------------------------
  // The reference rule.

  datatype Antigen = AntigenA | AntigenB | RhD

  /** Red cells of type `t` carry antigen `a`. */
  predicate Carries(t: BloodType, a: Antigen) {
    match t
    case APos => a == AntigenA || a == RhD
    case ANeg => a == AntigenA
    case BPos => a == AntigenB || a == RhD
    case BNeg => a == AntigenB
    case ABPos => true
    case ABNeg => a != RhD
    case OPos => a == RhD
    case ONeg => false
  }

  /** Red cells of type `donor` may be given to a patient of type `recipient`. */
  predicate Transfusable(donor: BloodType, recipient: BloodType) {
    && (Carries(donor, AntigenA) ==> Carries(recipient, AntigenA))
    && (Carries(donor, AntigenB) ==> Carries(recipient, AntigenB))
    && (Carries(donor, RhD) ==> Carries(recipient, RhD))
  }

  // ---------------------------------------------------------------------------

  /** `bloodCompatibility[recipient]`: the donor types a recipient accepts, in the order the table lists them. */
  function BloodCompatibility(recipient: BloodType): seq<BloodType> {
    match recipient
    case APos => [APos, ANeg, OPos, ONeg]
    case ANeg => [ANeg, ONeg]
    case BPos => [BPos, BNeg, OPos, ONeg]
    case BNeg => [BNeg, ONeg]
    case ABPos => [APos, ANeg, BPos, BNeg, ABPos, ABNeg, OPos, ONeg]
    case ABNeg => [ANeg, BNeg, ABNeg, ONeg]
    case OPos => [OPos, ONeg]
    case ONeg => [ONeg]
  }

  /** The table lists exactly the donors the antigen rule allows. */
  lemma BloodCompatibilityIsTransfusable(donor: BloodType, recipient: BloodType)
    ensures donor in BloodCompatibility(recipient) <==> Transfusable(donor, recipient)
  {
    match recipient
    case APos =>
    case ANeg =>
    case BPos =>
    case BNeg =>
    case ABPos =>
    case ABNeg =>
    case OPos =>
    case ONeg =>
  }

  /**
    Every recipient accepts its own type and O-, no list names a type twice,
    and AB+ accepts all eight types.
   */
  lemma BloodCompatibilityFacts(recipient: BloodType)
    ensures recipient in BloodCompatibility(recipient) && ONeg in BloodCompatibility(recipient)
    ensures NoDuplicates(BloodCompatibility(recipient))
    ensures forall t :: t in AllBloodTypes ==> t in BloodCompatibility(ABPos)
  {
  }

  /** Compatibility is transitive: a donor acceptable to an acceptable donor is acceptable. */
  lemma BloodCompatibilityTransitive(a: BloodType, b: BloodType, c: BloodType)
    requires a in BloodCompatibility(b) && b in BloodCompatibility(c)
    ensures a in BloodCompatibility(c)
  {
    BloodCompatibilityIsTransfusable(a, b);
    BloodCompatibilityIsTransfusable(b, c);
    BloodCompatibilityIsTransfusable(a, c);
  }
}
