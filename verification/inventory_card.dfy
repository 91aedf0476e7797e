/**
  The blood-bank card of src/components/BloodInventoryCard.tsx. It covers:
  - how an entry is classified (available, low, critical);
  - whether the reserve line is shown;
  - the add, remove and reserve handlers;
  - the fallbacks of its two number inputs.

  A number input's text is taken as already parsed by `parseInt`: `None` is NaN.
 */
module InventoryCard {
  import opened Optional
  import opened BloodTypes
  import opened Inventory

  /** What the card shows about its entry. */
  datatype CardView = CardView(available: int, isLow: bool, isCritical: bool, showsReserved: bool)

  function View(s: Stock): (v: CardView)
    ensures v.available == s.units - s.reserved
    ensures v.isLow <==> v.available <= 5
    ensures v.isCritical <==> v.available <= 2
    ensures v.showsReserved <==> s.reserved > 0
  {
    var available := s.units - s.reserved;
    CardView(available, available <= 5, available <= 2, s.reserved > 0)
  }

  /** A critical entry is always low, so the warning icon appears exactly for low entries. */
  lemma CriticalIsLow(s: Stock)
    ensures View(s).isCritical ==> View(s).isLow
    ensures (View(s).isLow || View(s).isCritical) <==> View(s).isLow
  {
  }

  /** The card's "available" figure is what `processRequest` may take from the bank for that type. */
  lemma CardShowsBankAvailability(bank: Bank, i: nat)
    requires OneEntryPerType(bank) && i < |bank|
    ensures View(bank[i]).available == AvailableFor(bank, bank[i].bloodType)
  {
    FindStockUnique(bank, i);
  }

  /** In the initial bank, O- is critical and shows its reserve; AB- is low but not critical. */
  lemma InitialCards()
    ensures View(InitialBloodBank[7]) == CardView(2, true, true, true)
    ensures View(InitialBloodBank[5]) == CardView(4, true, false, false)
    ensures forall i :: 0 <= i < 5 ==> !View(InitialBloodBank[i]).isLow
  {
  }

  // ---------------------------------------------------------------------------
  // Handlers.

  datatype Toast = UnitsAdded | UnitsRemoved | CannotRemove

  /** The bank after a handler, the amount left in the input, and the toast shown. */
  datatype Handled = Handled(bank: Bank, unitAmount: int, toast: Toast)

  /** `handleAddUnits`: adds the amount in the input, whatever it is, then resets the input to 1. */
  function HandleAddUnits(bank: Bank, s: Stock, unitAmount: int): (h: Handled)
    ensures h.toast == UnitsAdded && h.unitAmount == 1 && |h.bank| == |bank|
    ensures forall i :: 0 <= i < |bank| ==>
              h.bank[i] == bank[i].(units := bank[i].units + if bank[i].bloodType == s.bloodType then unitAmount else 0)
  {
    Handled(AddBloodUnits(bank, s.bloodType, unitAmount), 1, UnitsAdded)
  }

  /**
    `handleRemoveUnits`: refuses an amount above the card's total units and
    leaves bank and input alone; otherwise it removes the amount and resets the input.
   */
  function HandleRemoveUnits(bank: Bank, s: Stock, unitAmount: int): (h: Handled)
    ensures h.toast == CannotRemove <==> unitAmount > s.units
    ensures h.toast == CannotRemove ==> h.bank == bank && h.unitAmount == unitAmount
    ensures h.toast != CannotRemove ==> h.bank == RemoveBloodUnits(bank, s.bloodType, unitAmount) && h.unitAmount == 1
  {
    if unitAmount > s.units then Handled(bank, unitAmount, CannotRemove)
    else Handled(RemoveBloodUnits(bank, s.bloodType, unitAmount), 1, UnitsRemoved)
  }

  /** An accepted amount from 1 up to the card's units comes off exactly: the clamp at zero never applies. */
  lemma AcceptedRemovalIsExact(bank: Bank, i: nat, unitAmount: int)
    requires i < |bank| && 1 <= unitAmount <= bank[i].units
    ensures HandleRemoveUnits(bank, bank[i], unitAmount).toast == UnitsRemoved
    ensures HandleRemoveUnits(bank, bank[i], unitAmount).bank[i].units == bank[i].units - unitAmount
    ensures HandleRemoveUnits(bank, bank[i], unitAmount).bank[i].reserved == bank[i].reserved
  {
  }

  /**
    The guard compares with the total, not with the unreserved units: taking 4
    of the initial 5 O- units is accepted and leaves 1 unit against a reserve of 3.
   */
  lemma GuardIgnoresReserve()
    ensures var h := HandleRemoveUnits(InitialBloodBank, InitialBloodBank[7], 4);
            && h.toast == UnitsRemoved
            && h.bank[7].units == 1 && h.bank[7].reserved == 3
            && !ReserveWithinStock(h.bank[7])
  {
  }

  /** `handleUpdateReserved`: every entry of the card's type reserves the typed amount, a negative one counting as 0. */
  function HandleUpdateReserved(bank: Bank, s: Stock, newReserved: int): (r: Bank)
    ensures |r| == |bank|
    ensures forall i :: 0 <= i < |bank| ==>
              r[i].(reserved := bank[i].reserved) == bank[i]
              && r[i].reserved == if bank[i].bloodType != s.bloodType then bank[i].reserved
                                  else if newReserved < 0 then 0 else newReserved
  {
    UpdateReservedUnits(bank, s.bloodType, newReserved)
  }

  /** A reserve above the entry's units is stored as typed, breaking the bound. */
  lemma ReserveAboveStockAccepted(bank: Bank, i: nat, newReserved: int)
    requires i < |bank| && newReserved > bank[i].units && bank[i].units >= 0
    ensures HandleUpdateReserved(bank, bank[i], newReserved)[i].reserved == newReserved
    ensures !ReserveWithinStock(HandleUpdateReserved(bank, bank[i], newReserved)[i])
  {
  }

  // ---------------------------------------------------------------------------
  // Input parsing.

  /** `parseInt(value) || 1`: NaN and 0 fall back to 1; every other number, negative ones included, is kept. */
  function ParseUnitAmount(input: Option<int>): (n: int)
    ensures n != 0
    ensures input.None? ==> n == 1
    ensures input.Some? ==> n == if input.value == 0 then 1 else input.value
  {
    match input
    case None => 1
    case Some(v) => if v == 0 then 1 else v
  }

  /** `parseInt(value) || 0`: NaN falls back to 0; a parsed 0 stays 0, so every number is kept. */
  function ParseReserved(input: Option<int>): (n: int)
    ensures input.None? ==> n == 0
    ensures input.Some? ==> n == input.value
  {
    match input
    case None => 0
    case Some(v) => v
  }

  /**
    A typed negative amount gets through parsing and the guard, so "remove"
    adds units: with -3 typed, the entry gains 3.
   */
  lemma NegativeAmountRemoveAdds(bank: Bank, i: nat)
    requires i < |bank| && bank[i].units >= 0
    ensures var h := HandleRemoveUnits(bank, bank[i], ParseUnitAmount(Some(-3)));
            h.toast == UnitsRemoved && h.bank[i].units == bank[i].units + 3
  {
  }

  /** The same input makes "add" take units away, down to a negative stock. */
  lemma NegativeAmountAddRemoves()
    ensures var h := HandleAddUnits(InitialBloodBank, InitialBloodBank[5], ParseUnitAmount(Some(-10)));
            h.toast == UnitsAdded && h.bank[5].units == -6
  {
  }

  /** The parse the input's `min={1}` evidently intends: anything below 1 falls back to 1. */
  function ParseUnitAmountAtLeastOne(input: Option<int>): (n: int)
    ensures n >= 1
    ensures input.Some? && input.value >= 1 ==> n == input.value
  {
    match input
    case None => 1
    case Some(v) => if v < 1 then 1 else v
  }

  /** With that parse, "add" never lowers and "remove" never raises any entry's units. */
  lemma AtLeastOneKeepsDirections(bank: Bank, s: Stock, input: Option<int>)
    ensures var n := ParseUnitAmountAtLeastOne(input);
            var added, removed := HandleAddUnits(bank, s, n).bank, HandleRemoveUnits(bank, s, n).bank;
            && (forall i :: 0 <= i < |bank| ==> added[i].units >= bank[i].units)
            && (forall i :: 0 <= i < |bank| && bank[i].units >= 0 ==> removed[i].units <= bank[i].units)
  {
  }
}
