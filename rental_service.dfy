/** The rental queries (`RentalService`): the rentals of the customer with
    a given phone number, filtered and ordered. A phone number no customer
    has is `None` (the lookup raises); `today` is a parameter. */
module RentalService {
  import opened Wrappers
  import Customers
  import Rentals
  import Ordering

  /** Rental `k` is one of `customer`'s. */
  predicate OfCustomer(rentals: seq<Rentals.Rental>, customer: nat, k: nat)
  {
    k < |rentals| && rentals[k].customer == customer
  }

  /** Rental `k` is one of `customer`'s and not returned. */
  predicate ActiveOfCustomer(rentals: seq<Rentals.Rental>, customer: nat, k: nat)
  {
    OfCustomer(rentals, customer, k) && !rentals[k].isReturned
  }

  /** Rental `k` is overdue on `today` and, when a customer is given, is
      theirs. */
  predicate OverdueMatch(rentals: seq<Rentals.Rental>, customer: Option<nat>, today: Rentals.Date, k: nat)
  {
    k < |rentals| && Rentals.IsOverdue(rentals[k], today) &&
    (customer.Some? ==> rentals[k].customer == customer.value)
  }

  /** Due date ascending, as an order key on row ids. */
  function DueFirst(rentals: seq<Rentals.Rental>): nat -> int
  {
    (k: nat) => if k < |rentals| && rentals[k].dueDate.Some? then rentals[k].dueDate.value else 0
  }

  /** `get_customer_rentals`: every rental of the customer, newest rental
      date first. */
  function CustomerRentals(customers: seq<Customers.Customer>, rentals: seq<Rentals.Rental>, phone: string): (r: Option<seq<nat>>)
    ensures r.None? <==> Customers.FindByPhone(customers, phone).None?
    ensures r.Some? ==>
              var c := Customers.FindByPhone(customers, phone).value;
              (forall k: nat :: k in r.value <==> OfCustomer(rentals, c, k)) &&
              Ordering.Distinct(r.value) && Ordering.SortedBy(r.value, Rentals.NewestFirst(rentals))
  {
    match Customers.FindByPhone(customers, phone)
    case None => None
    case Some(c) => Some(Ordering.Query(|rentals|, (k: nat) => OfCustomer(rentals, c, k), Rentals.NewestFirst(rentals)))
  }

  /** `get_active_rentals`: the customer's rentals not yet returned, in the
      rentals' default order (newest rental date first). */
  function ActiveRentals(customers: seq<Customers.Customer>, rentals: seq<Rentals.Rental>, phone: string): (r: Option<seq<nat>>)
    ensures r.None? <==> Customers.FindByPhone(customers, phone).None?
    ensures r.Some? ==>
              var c := Customers.FindByPhone(customers, phone).value;
              (forall k: nat :: k in r.value <==> ActiveOfCustomer(rentals, c, k)) &&
              Ordering.Distinct(r.value) && Ordering.SortedBy(r.value, Rentals.NewestFirst(rentals))
  {
    match Customers.FindByPhone(customers, phone)
    case None => None
    case Some(c) => Some(Ordering.Query(|rentals|, (k: nat) => ActiveOfCustomer(rentals, c, k), Rentals.NewestFirst(rentals)))
  }

  /** `get_overdue_rentals`: the rentals overdue on `today`, restricted to
      the customer with that phone when a non-empty phone is given, by due
      date. An empty phone counts as none given. */
  function OverdueRentals(customers: seq<Customers.Customer>, rentals: seq<Rentals.Rental>, phone: Option<string>, today: Rentals.Date)
    : (r: Option<seq<nat>>)
    ensures r.None? <==> phone.Some? && phone.value != "" && Customers.FindByPhone(customers, phone.value).None?
    ensures r.Some? && (phone.None? || phone.value == "") ==>
              forall k: nat :: k in r.value <==> k < |rentals| && Rentals.IsOverdue(rentals[k], today)
    ensures r.Some? && phone.Some? && phone.value != "" ==>
              var c := Customers.FindByPhone(customers, phone.value).value;
              forall k: nat :: k in r.value <==> OfCustomer(rentals, c, k) && Rentals.IsOverdue(rentals[k], today)
    ensures r.Some? ==> Ordering.Distinct(r.value) && Ordering.SortedBy(r.value, DueFirst(rentals))
  {
    if phone.Some? && phone.value != "" then
      match Customers.FindByPhone(customers, phone.value)
      case None => None
      case Some(c) => Some(Ordering.Query(|rentals|, (k: nat) => OverdueMatch(rentals, Some(c), today, k), DueFirst(rentals)))
    else
      Some(Ordering.Query(|rentals|, (k: nat) => OverdueMatch(rentals, None, today, k), DueFirst(rentals)))
  }

  /** `check_customer_has_outstanding_returns`: the customer has a rental
      not yet returned. */
  function HasOutstandingReturns(customers: seq<Customers.Customer>, rentals: seq<Rentals.Rental>, phone: string): (r: Option<bool>)
    ensures r.None? <==> Customers.FindByPhone(customers, phone).None?
    ensures r.Some? ==>
              (r.value <==> exists k :: 0 <= k < |rentals| && ActiveOfCustomer(rentals, Customers.FindByPhone(customers, phone).value, k))
    ensures r.Some? ==> (r.value <==> ActiveRentals(customers, rentals, phone).value != [])
  {
    match ActiveRentals(customers, rentals, phone)
    case None => None
    case Some(ids) =>
      var c := Customers.FindByPhone(customers, phone).value;
      assert ids != [] ==> ActiveOfCustomer(rentals, c, ids[0]) by {
        if ids != [] {
          assert ids[0] in ids;
        }
      }
      Some(ids != [])
  }

  /** `get_rental_by_id` is `Storage.RowById` on the rentals table. */

  /** For a customer given by a non-empty phone, every overdue rental is
      among the active ones, and every active one is among all of theirs. */
  lemma OverdueWithinActive(customers: seq<Customers.Customer>, rentals: seq<Rentals.Rental>, phone: string, today: Rentals.Date)
    requires phone != "" && Customers.FindByPhone(customers, phone).Some?
    ensures forall k: nat :: k in OverdueRentals(customers, rentals, Some(phone), today).value ==>
              k in ActiveRentals(customers, rentals, phone).value
    ensures forall k: nat :: k in ActiveRentals(customers, rentals, phone).value ==>
              k in CustomerRentals(customers, rentals, phone).value
  {
  }
}
