/**
  The blood bank: one stock entry per blood type with its total and reserved
  units (`initialBloodBank` in src/lib/bloodData.ts), and the three adjusters
  of src/context/BloodContext.tsx that rewrite every entry of a given type.
  None of the adjusters keeps `reserved <= units`; the lemmas at the end show
  which operations keep it and exhibit the ones that break it.
 */
module Inventory {
  import opened Optional
  import opened BloodTypes

  datatype Stock = Stock(bloodType: BloodType, units: int, reserved: int)

  type Bank = seq<Stock>

  /** `initialBloodBank`: O- starts with 3 of its 5 units held back. */
  const InitialBloodBank: Bank := [
    Stock(APos, 15, 0), Stock(ANeg, 8, 0), Stock(BPos, 12, 0), Stock(BNeg, 6, 0),
    Stock(ABPos, 10, 0), Stock(ABNeg, 4, 0), Stock(OPos, 20, 0), Stock(ONeg, 5, 3)
  ]

  /** No type has two entries. */
  ghost predicate OneEntryPerType(bank: Bank) {
    forall i, j :: 0 <= i < j < |bank| ==> bank[i].bloodType != bank[j].bloodType
  }

  /** The reserve is non-negative and never exceeds the stock. */
  ghost predicate ReserveWithinStock(s: Stock) {
    0 <= s.reserved <= s.units
  }

  ghost predicate AllReservesWithinStock(bank: Bank) {
    forall i :: 0 <= i < |bank| ==> ReserveWithinStock(bank[i])
  }

  /** Position of the first entry of type `t` (`bloodBank.find`). */
  function FindStock(bank: Bank, t: BloodType): (r: Option<nat>)
    ensures r.Some? ==> r.value < |bank| && bank[r.value].bloodType == t
    ensures r.Some? ==> forall j :: 0 <= j < r.value ==> bank[j].bloodType != t
    ensures r.None? <==> forall j :: 0 <= j < |bank| ==> bank[j].bloodType != t
  {
    if |bank| == 0 then None
    else if bank[0].bloodType == t then Some(0)
    else match FindStock(bank[1..], t)
      case None => None
      case Some(i) => Some(i + 1)
  }

  /**
    The units that may be handed out for `t` without touching the reserve;
    a type without an entry has none.
   */
  function AvailableFor(bank: Bank, t: BloodType): (n: int)
    ensures FindStock(bank, t).None? ==> n == 0
    ensures FindStock(bank, t).Some? ==>
              var s := bank[FindStock(bank, t).value]; n == s.units - s.reserved
  {
    match FindStock(bank, t)
    case None => 0
    case Some(i) => bank[i].units - bank[i].reserved
  }

  /** Rewrites every entry of type `t` with `f`, leaving the others alone. */
  function MapType(bank: Bank, t: BloodType, f: Stock -> Stock): (r: Bank)
    ensures |r| == |bank|
    ensures forall i :: 0 <= i < |bank| ==> r[i] == if bank[i].bloodType == t then f(bank[i]) else bank[i]
  {
    seq(|bank|, i requires 0 <= i < |bank| => if bank[i].bloodType == t then f(bank[i]) else bank[i])
  }

  /** `addBloodUnits`: every entry of type `t` gains `n` units (any sign); the reserve is kept. */
  function AddBloodUnits(bank: Bank, t: BloodType, n: int): (r: Bank)
    ensures |r| == |bank|
    ensures forall i :: 0 <= i < |bank| ==>
              && r[i].bloodType == bank[i].bloodType && r[i].reserved == bank[i].reserved
              && r[i].units == bank[i].units + (if bank[i].bloodType == t then n else 0)
  {
    MapType(bank, t, (s: Stock) => s.(units := s.units + n))
  }

  /** `removeBloodUnits`: every entry of type `t` loses `n` units, never going below zero. */
  function RemoveBloodUnits(bank: Bank, t: BloodType, n: int): (r: Bank)
    ensures |r| == |bank|
    ensures forall i :: 0 <= i < |bank| ==>
              && r[i].bloodType == bank[i].bloodType && r[i].reserved == bank[i].reserved
              && (bank[i].bloodType != t ==> r[i].units == bank[i].units)
              && (bank[i].bloodType == t ==> r[i].units >= 0 && r[i].units >= bank[i].units - n)
              && (bank[i].bloodType == t && bank[i].units - n > 0 ==> r[i].units == bank[i].units - n)
              && (bank[i].bloodType == t && bank[i].units - n <= 0 ==> r[i].units == 0)
  {
    MapType(bank, t, (s: Stock) => s.(units := if s.units - n > 0 then s.units - n else 0))
  }

  /** `updateReservedUnits`: every entry of type `t` reserves `max(0, reserved)` units. */
  function UpdateReservedUnits(bank: Bank, t: BloodType, reserved: int): (r: Bank)
    ensures |r| == |bank|
    ensures forall i :: 0 <= i < |bank| ==>
              && r[i].bloodType == bank[i].bloodType && r[i].units == bank[i].units
              && (bank[i].bloodType != t ==> r[i].reserved == bank[i].reserved)
              && (bank[i].bloodType == t ==> r[i].reserved == if reserved > 0 then reserved else 0)
  {
    MapType(bank, t, (s: Stock) => s.(reserved := if reserved > 0 then reserved else 0))
  }

  /** The deduction of the bank path of `processRequest`: no clamping at zero. */
  function DeductUnits(bank: Bank, t: BloodType, n: int): (r: Bank)
    ensures |r| == |bank|
    ensures forall i :: 0 <= i < |bank| ==>
              && r[i].bloodType == bank[i].bloodType && r[i].reserved == bank[i].reserved
              && r[i].units == bank[i].units - (if bank[i].bloodType == t then n else 0)
  {
    MapType(bank, t, (s: Stock) => s.(units := s.units - n))
  }

  // ---------------------------------------------------------------------------

  /** The initial bank has one entry per type, each within its reserve bound. */
  lemma InitialBloodBankWellFormed()
    ensures OneEntryPerType(InitialBloodBank) && AllReservesWithinStock(InitialBloodBank)
  {
    var b := InitialBloodBank;
    forall i, j | 0 <= i < j < |b| ensures b[i].bloodType != b[j].bloodType {
      assert b[i].bloodType == AllBloodTypes[i] && b[j].bloodType == AllBloodTypes[j];
      AllBloodTypesListed(b[i].bloodType, b[j].bloodType);
    }
  }

  /** In a bank with one entry per type, the lookup finds that entry. */
  lemma FindStockUnique(bank: Bank, i: nat)
    requires OneEntryPerType(bank) && i < |bank|
    ensures FindStock(bank, bank[i].bloodType) == Some(i)
  {
  }

  /** Every type has an entry in the initial bank. */
  lemma InitialBloodBankCoversAllTypes(t: BloodType)
    ensures FindStock(InitialBloodBank, t).Some?
  {
    assert forall i :: 0 <= i < 8 ==> InitialBloodBank[i].bloodType == AllBloodTypes[i];
    AllBloodTypesListed(t, t);
  }

  /** Of the initial 5 O- units, 3 are held back, leaving 2 to hand out. */
  lemma InitialONegAvailable()
    ensures AvailableFor(InitialBloodBank, ONeg) == 2
  {
    InitialBloodBankWellFormed();
    FindStockUnique(InitialBloodBank, 7);
  }

  /** Removing what was just added restores a bank whose stocks are not negative. */
  lemma {:induction false} AddThenRemove(bank: Bank, t: BloodType, n: int)
    requires n >= 0
    requires forall i :: 0 <= i < |bank| ==> bank[i].units >= 0
    ensures RemoveBloodUnits(AddBloodUnits(bank, t, n), t, n) == bank
  {
    var r := RemoveBloodUnits(AddBloodUnits(bank, t, n), t, n);
    forall i | 0 <= i < |bank| ensures r[i] == bank[i] {
      if bank[i].bloodType == t && bank[i].units == 0 {
        assert r[i].units == 0;
      }
    }
  }

  /** Two additions of the same type combine into one. */
  lemma {:induction false} AddTwice(bank: Bank, t: BloodType, m: int, n: int)
    ensures AddBloodUnits(AddBloodUnits(bank, t, m), t, n) == AddBloodUnits(bank, t, m + n)
  {
    var a := AddBloodUnits(AddBloodUnits(bank, t, m), t, n);
    var b := AddBloodUnits(bank, t, m + n);
    forall i | 0 <= i < |bank| ensures a[i] == b[i] {
    }
  }

  /** The adjusters rewrite entries in place, so distinct types stay distinct. */
  lemma AdjustersKeepOneEntryPerType(bank: Bank, t: BloodType, n: int)
    requires OneEntryPerType(bank)
    ensures OneEntryPerType(AddBloodUnits(bank, t, n))
    ensures OneEntryPerType(RemoveBloodUnits(bank, t, n))
    ensures OneEntryPerType(UpdateReservedUnits(bank, t, n))
    ensures OneEntryPerType(DeductUnits(bank, t, n))
  {
  }

  /** Adding stock never breaks the reserve bound. */
  lemma AddKeepsReserve(bank: Bank, t: BloodType, n: int)
    requires AllReservesWithinStock(bank) && n >= 0
    ensures AllReservesWithinStock(AddBloodUnits(bank, t, n))
  {
    var r := AddBloodUnits(bank, t, n);
    forall i | 0 <= i < |bank| ensures ReserveWithinStock(r[i]) {
      assert ReserveWithinStock(bank[i]);
    }
  }

  /** Removing at most the unreserved units keeps the reserve bound. */
  lemma RemoveAvailableKeepsReserve(bank: Bank, t: BloodType, n: int)
    requires AllReservesWithinStock(bank)
    requires forall i :: 0 <= i < |bank| && bank[i].bloodType == t ==> n <= bank[i].units - bank[i].reserved
    ensures AllReservesWithinStock(RemoveBloodUnits(bank, t, n))
  {
    var r := RemoveBloodUnits(bank, t, n);
    forall i | 0 <= i < |bank| ensures ReserveWithinStock(r[i]) {
      assert ReserveWithinStock(bank[i]);
    }
  }

  /** Removing four O- units from the initial bank leaves 1 unit against a reserve of 3. */
  lemma RemoveCanBreakReserve()
    ensures AllReservesWithinStock(InitialBloodBank)
    ensures !ReserveWithinStock(RemoveBloodUnits(InitialBloodBank, ONeg, 4)[7])
  {
  }

  /** Reserving 10 O- units in the initial bank exceeds its 5 units. */
  lemma UpdateReservedCanBreakReserve()
    ensures AllReservesWithinStock(InitialBloodBank)
    ensures !ReserveWithinStock(UpdateReservedUnits(InitialBloodBank, ONeg, 10)[7])
  {
  }
}
