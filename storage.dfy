/** The database: one table per model, each a sequence whose positions are
    the row ids. The services below read and reassign these tables; a
    failing atomic operation leaves every table as it was. */
module Storage {
  import opened Wrappers
  import Items
  import Customers
  import Coupons
  import Rentals
  import Transactions
  import Employees
  import Audit

  /** `Model.objects.get(id=...)` on one table: the row at that id, none
      when no row has it. */
  function RowById<T>(rows: seq<T>, id: int): (r: Option<T>)
    ensures r.Some? <==> 0 <= id < |rows|
    ensures r.Some? ==> r.value == rows[id]
  {
    if 0 <= id < |rows| then Some(rows[id]) else None
  }

  /** `username` is unique. */
  predicate UniqueUsernames(es: seq<Employees.Employee>)
  {
    forall i, j :: 0 <= i < j < |es| ==> es[i].username != es[j].username
  }

  /** `legacy_item_id` is unique. */
  predicate UniqueLegacyIds(items: seq<Items.Item>)
  {
    forall i, j :: 0 <= i < j < |items| ==> items[i].legacyItemId != items[j].legacyItemId
  }

  /** Coupon `code` is unique. */
  predicate UniqueCodes(cs: seq<Coupons.Coupon>)
  {
    forall i, j :: 0 <= i < j < |cs| ==> cs[i].code != cs[j].code
  }

  /** A stored rental refers to existing rows, has been saved, and is
      returned exactly when it has a return date. Its transaction may be
      absent: the rentals table is modelled with that column nullable, as the
      corrected legacy migration needs (`Migration.InsertDeclared` models the
      column as declared); every rental the engine writes carries one. */
  predicate RentalStored(r: Rentals.Rental, items: nat, customers: nat, transactions: nat)
  {
    r.item < items && r.customer < customers &&
    (r.transaction.Some? ==> r.transaction.value < transactions) &&
    Rentals.Saved(r) && (r.isReturned <==> r.returnDate.Some?)
  }

  /** Every transaction names an existing employee and, when it has one,
      an existing customer. */
  predicate TransactionRefs(ts: seq<Transactions.Transaction>, employees: nat, customers: nat)
  {
    forall t :: t in ts ==> t.employee < employees && (t.customer.Some? ==> t.customer.value < customers)
  }

  /** Every line names an existing transaction and item. */
  predicate LineRefs(ls: seq<Transactions.TransactionItem>, transactions: nat, items: nat)
  {
    forall l :: l in ls ==> l.transaction < transactions && l.item < items
  }

  /** Every rental is stored as `RentalStored` describes. */
  predicate RentalRefs(rs: seq<Rentals.Rental>, items: nat, customers: nat, transactions: nat)
  {
    forall k :: 0 <= k < |rs| ==> RentalStored(rs[k], items, customers, transactions)
  }

  /** Every audit entry names an existing employee. */
  predicate AuditRefs(es: seq<Audit.Entry>, employees: nat)
  {
    forall e :: e in es ==> e.employee < employees
  }

  /** Foreign keys stay valid when the referenced tables grow. */
  lemma RefsGrow(ts: seq<Transactions.Transaction>, ls: seq<Transactions.TransactionItem>, rs: seq<Rentals.Rental>,
                 es: seq<Audit.Entry>, e0: nat, i0: nat, c0: nat, t0: nat, e1: nat, i1: nat, c1: nat, t1: nat)
    requires e0 <= e1 && i0 <= i1 && c0 <= c1 && t0 <= t1
    ensures TransactionRefs(ts, e0, c0) ==> TransactionRefs(ts, e1, c1)
    ensures LineRefs(ls, t0, i0) ==> LineRefs(ls, t1, i1)
    ensures RentalRefs(rs, i0, c0, t0) ==> RentalRefs(rs, i1, c1, t1)
    ensures AuditRefs(es, e0) ==> AuditRefs(es, e1)
  {
  }

  /** Two tables of stored rentals joined are one. */
  lemma RentalRefsAppend(a: seq<Rentals.Rental>, b: seq<Rentals.Rental>, items: nat, customers: nat, transactions: nat)
    requires RentalRefs(a, items, customers, transactions) && RentalRefs(b, items, customers, transactions)
    ensures RentalRefs(a + b, items, customers, transactions)
  {
    forall k | 0 <= k < |a + b| ensures RentalStored((a + b)[k], items, customers, transactions) {
      if k >= |a| {
        assert (a + b)[k] == b[k - |a|];
      }
    }
  }

  class Database {
    var employees: seq<Employees.Employee>
    var items: seq<Items.Item>
    var customers: seq<Customers.Customer>
    var coupons: seq<Coupons.Coupon>
    var transactions: seq<Transactions.Transaction>
    var lines: seq<Transactions.TransactionItem>
    var rentals: seq<Rentals.Rental>
    var auditLog: seq<Audit.Entry>

    /** The unique columns hold, and every foreign key names an existing
        row. */
    ghost predicate Valid()
      reads this
    {
      UniqueUsernames(employees) && UniqueLegacyIds(items) &&
      Customers.UniquePhones(customers) && UniqueCodes(coupons) &&
      TransactionRefs(transactions, |employees|, |customers|) &&
      LineRefs(lines, |transactions|, |items|) &&
      RentalRefs(rentals, |items|, |customers|, |transactions|) &&
      AuditRefs(auditLog, |employees|)
    }

    /** No item has negative stock. The column validator is not enforced on
        every write, so this is kept apart from `Valid`. */
    ghost predicate StockNonNegative()
      reads this
    {
      forall k :: 0 <= k < |items| ==> items[k].quantity >= 0
    }

    /** An empty database. */
    constructor ()
      ensures Valid() && StockNonNegative()
      ensures employees == [] && items == [] && customers == [] && coupons == []
      ensures transactions == [] && lines == [] && rentals == [] && auditLog == []
    {
      employees, items, customers, coupons := [], [], [], [];
      transactions, lines, rentals, auditLog := [], [], [], [];
    }
  }
}
