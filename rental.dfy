/** A rental of one unit of an item by a customer (`Rental`, table
    `rentals`). Dates are whole day numbers and `today` is a parameter.
    `save` and `mark_as_returned` assign fields of the instance before
    writing it; here each is a function from the instance's fields to the
    fields that get written. */
module Rentals {
  import opened Wrappers

  type Date = int

  /** The rental period used when no due date is set. */
  const RentalPeriodDays: int := 7

  /** `transaction` is absent on rentals brought over from the legacy files
      by the corrected migration (the column as declared is not nullable);
      `dueDate` is absent only before the first save. */
  datatype Rental = Rental(
    transaction: Option<nat>,
    item: nat,
    customer: nat,
    rentalDate: Date,
    dueDate: Option<Date>,
    returnDate: Option<Date>,
    isReturned: bool,
    daysOverdue: Option<int>)

  /** The default order of rental rows as a key on row ids: newest rental
      date first. */
  function NewestFirst(rentals: seq<Rental>): nat -> int
  {
    (k: nat) => if k < |rentals| then -rentals[k].rentalDate else 0
  }

  /** A rental as constructed, before it is saved: not returned, no return
      date and no overdue count. */
  function NewRental(transaction: Option<nat>, item: nat, customer: nat, rentalDate: Date, dueDate: Option<Date>): (r: Rental)
    ensures !r.isReturned && r.returnDate.None? && r.daysOverdue.None?
    ensures r.item == item && r.customer == customer && r.transaction == transaction
    ensures r.rentalDate == rentalDate && r.dueDate == dueDate
  {
    Rental(transaction, item, customer, rentalDate, dueDate, None, false, None)
  }

  /** The due date a save gives a rental. */
  function DueAfterSave(r: Rental): Date
  {
    if r.dueDate.None? then r.rentalDate + RentalPeriodDays else r.dueDate.value
  }

  /** `save()`: fills in a missing due date (rental date plus the rental
      period) and recomputes `days_overdue` as of `today`. */
  function Save(r: Rental, today: Date): (s: Rental)
    ensures s.dueDate == Some(DueAfterSave(r))
    ensures r.dueDate.Some? ==> s.dueDate == r.dueDate
    ensures r.dueDate.None? ==> s.dueDate == Some(r.rentalDate + RentalPeriodDays)
    ensures s == r.(dueDate := s.dueDate, daysOverdue := s.daysOverdue)
    ensures !r.isReturned && DueAfterSave(r) < today ==> s.daysOverdue == Some(today - DueAfterSave(r))
    ensures r.isReturned && r.returnDate.Some? && r.returnDate.value > DueAfterSave(r) ==>
              s.daysOverdue == Some(r.returnDate.value - DueAfterSave(r))
    ensures s.daysOverdue.Some? <==>
              (!r.isReturned && DueAfterSave(r) < today) ||
              (r.isReturned && r.returnDate.Some? && r.returnDate.value > DueAfterSave(r))
    ensures s.daysOverdue.Some? ==> s.daysOverdue.value >= 1
  {
    var due := DueAfterSave(r);
    var overdue :=
      if !r.isReturned && due < today then Some(today - due)
      else if r.isReturned && r.returnDate.Some? && r.returnDate.value > due then Some(r.returnDate.value - due)
      else None;
    r.(dueDate := Some(due), daysOverdue := overdue)
  }

  /** `mark_as_returned(return_date)`: returned on the given date, or on
      `today` when none is given, then saved. */
  function MarkAsReturned(r: Rental, returnDate: Option<Date>, today: Date): (s: Rental)
    ensures s.isReturned
    ensures s.returnDate == Some(if returnDate.Some? then returnDate.value else today)
    ensures s.dueDate == Some(DueAfterSave(r))
    ensures s.item == r.item && s.customer == r.customer && s.transaction == r.transaction && s.rentalDate == r.rentalDate
    ensures s.daysOverdue.Some? <==> s.returnDate.value > DueAfterSave(r)
    ensures s.daysOverdue.Some? ==> s.daysOverdue.value == s.returnDate.value - DueAfterSave(r)
  {
    var on := if returnDate.Some? then returnDate.value else today;
    Save(r.(isReturned := true, returnDate := Some(on)), today)
  }

  /** `is_overdue()`: not returned and past its due date. A due date that is
      missing compares as not past, as it does in the database query. */
  predicate IsOverdue(r: Rental, today: Date)
  {
    !r.isReturned && r.dueDate.Some? && r.dueDate.value < today
  }

  /** The state every saved rental is in: a due date is set, and any
      overdue count is at least one day. */
  predicate Saved(r: Rental)
  {
    r.dueDate.Some? && (r.daysOverdue.Some? ==> r.daysOverdue.value >= 1)
  }

  /** Saving again on the same day changes nothing. */
  lemma SaveIdempotent(r: Rental, today: Date)
    ensures Save(Save(r, today), today) == Save(r, today)
  {
  }

  /** Right after a save on `today`, an unreturned rental carries an overdue
      count exactly when it is overdue, and the count is the days past due. */
  lemma SavedOverdueAgrees(r: Rental, today: Date)
    requires !r.isReturned
    ensures Saved(Save(r, today))
    ensures Save(r, today).daysOverdue.Some? <==> IsOverdue(Save(r, today), today)
    ensures IsOverdue(Save(r, today), today) ==>
              Save(r, today).daysOverdue.value == today - Save(r, today).dueDate.value
  {
  }

  /** A returned rental is never overdue, and returning on or before the due
      date leaves no overdue count. */
  lemma ReturnedNotOverdue(r: Rental, on: Date, today: Date)
    ensures !IsOverdue(MarkAsReturned(r, Some(on), today), today)
    ensures on <= DueAfterSave(r) ==> MarkAsReturned(r, Some(on), today).daysOverdue.None?
  {
  }

  /** Once overdue, a rental stays overdue on every later day; it is not
      overdue on its due date, and an unreturned one is the day after. */
  lemma OverdueStaysOverdue(r: Rental, today: Date, later: Date)
    ensures IsOverdue(r, today) && today <= later ==> IsOverdue(r, later)
    ensures r.dueDate.Some? ==> !IsOverdue(r, r.dueDate.value)
    ensures !r.isReturned && r.dueDate.Some? ==> IsOverdue(r, r.dueDate.value + 1)
  {
  }
}
