/** The transaction engine (`TransactionService`): sales, rentals and
    returns. Each operation is atomic: it either succeeds with the new
    state its contract describes or fails with the database unchanged.
    `today` and `now` are parameters. */
module TransactionService {
  import opened Wrappers
  import opened Text
  import Items
  import Coupons
  import Customers
  import Rentals
  import Transactions
  import Audit
  import Employees
  import Ordering
  import opened Storage

  /** `DEFAULT_TAX_RATE`: 6%. */
  const DefaultTaxRate: real := 0.06

  /** One entry of the cart payload: an item id and a quantity. */
  datatype CartEntry = CartEntry(itemId: int, quantity: int)

  /** What the engine raises. */
  datatype Error =
    | EmployeeNotFound
    | ItemNotFound(itemId: int)
    | InsufficientQuantity(itemName: string)
    | CustomerNotFound
    | NoActiveRentals

  // ---------------------------------------------------------------------
  // Checking and pricing a cart

  /** What checking one line raises: an unknown item id, or a quantity the
      item's stock does not cover. */
  function LineError(items: seq<Items.Item>, e: CartEntry): (r: Option<Error>)
    ensures r.None? <==> 0 <= e.itemId < |items| && Items.IsAvailable(items[e.itemId], e.quantity)
    ensures r.Some? && 0 <= e.itemId < |items| ==> r == Some(InsufficientQuantity(items[e.itemId].name))
    ensures !(0 <= e.itemId < |items|) ==> r == Some(ItemNotFound(e.itemId))
  {
    if !(0 <= e.itemId < |items|) then Some(ItemNotFound(e.itemId))
    else if !Items.IsAvailable(items[e.itemId], e.quantity) then Some(InsufficientQuantity(items[e.itemId].name))
    else None
  }

  /** Every line names an existing item with enough stock. */
  predicate CartChecked(items: seq<Items.Item>, cart: seq<CartEntry>)
  {
    forall k :: 0 <= k < |cart| ==> LineError(items, cart[k]).None?
  }

  /** What the checking loop raises: the error of the first failing line. */
  function CartError(items: seq<Items.Item>, cart: seq<CartEntry>): (r: Option<Error>)
    ensures r.None? <==> CartChecked(items, cart)
    ensures r.Some? ==> exists k :: 0 <= k < |cart| && CartChecked(items, cart[..k]) && r == LineError(items, cart[k])
  {
    if cart == [] then None
    else
      var n := |cart| - 1;
      var prev := CartError(items, cart[..n]);
      assert forall k :: 0 <= k < n ==> cart[..n][k] == cart[k];
      if prev.Some? then
        var k :| 0 <= k < n && CartChecked(items, cart[..n][..k]) && prev == LineError(items, cart[..n][k]);
        assert cart[..n][..k] == cart[..k];
        prev
      else
        assert cart[..n] == cart[..n];
        LineError(items, cart[n])
  }

  /** Once a prefix of the cart fails, the whole cart fails the same way. */
  lemma {:induction false} CartErrorPrefix(items: seq<Items.Item>, cart: seq<CartEntry>, m: nat)
    requires m <= |cart|
    requires CartError(items, cart[..m]).Some?
    ensures CartError(items, cart) == CartError(items, cart[..m])
    decreases |cart| - m
  {
    if m < |cart| {
      assert cart[..m + 1][..m] == cart[..m];
      CartErrorPrefix(items, cart, m + 1);
    } else {
      assert cart[..m] == cart;
    }
  }

  /** The first failing line's error is the cart's error. */
  lemma CartErrorAt(items: seq<Items.Item>, cart: seq<CartEntry>, k: nat)
    requires k < |cart| && CartChecked(items, cart[..k]) && LineError(items, cart[k]).Some?
    ensures CartError(items, cart) == LineError(items, cart[k])
  {
    assert cart[..k + 1][..k] == cart[..k];
    assert CartError(items, cart[..k + 1]) == LineError(items, cart[k]);
    CartErrorPrefix(items, cart, k + 1);
  }

  /** The sum of price times quantity over the lines. */
  function Subtotal(items: seq<Items.Item>, cart: seq<CartEntry>): real
    requires CartChecked(items, cart)
  {
    if cart == [] then 0.0
    else
      var e := cart[|cart| - 1];
      Subtotal(items, cart[..|cart| - 1]) + items[e.itemId].price * e.quantity as real
  }

  /** One more passing line: the prefix stays checked and its subtotal
      grows by the line's. */
  lemma CheckedStep(items: seq<Items.Item>, cart: seq<CartEntry>, k: nat)
    requires k < |cart| && CartChecked(items, cart[..k]) && LineError(items, cart[k]).None?
    ensures CartChecked(items, cart[..k + 1])
    ensures Subtotal(items, cart[..k + 1]) ==
            Subtotal(items, cart[..k]) + items[cart[k].itemId].price * cart[k].quantity as real
  {
    assert cart[..k + 1][..k] == cart[..k];
  }

  /** A line as prepared by the checking loop: the item instance loaded for
      it, the quantity, the unit price and the line subtotal. */
  datatype Prepared = Prepared(itemId: nat, item: Items.Item, quantity: int, unitPrice: real, subtotal: real)

  function PrepareLine(items: seq<Items.Item>, e: CartEntry): (p: Prepared)
    requires LineError(items, e).None?
    ensures p.itemId == e.itemId && p.item == items[e.itemId] && p.quantity == e.quantity
    ensures p.unitPrice == items[e.itemId].price && p.subtotal == p.unitPrice * p.quantity as real
  {
    var item := items[e.itemId];
    Prepared(e.itemId, item, e.quantity, item.price, item.price * e.quantity as real)
  }

  /** The line rows written for transaction `tx`, one per cart line, in
      cart order. */
  function Lines(items: seq<Items.Item>, cart: seq<CartEntry>, tx: nat): (ls: seq<Transactions.TransactionItem>)
    requires CartChecked(items, cart)
    ensures |ls| == |cart|
    ensures forall k :: 0 <= k < |cart| ==>
              ls[k].transaction == tx && ls[k].item == cart[k].itemId && ls[k].quantity == cart[k].quantity &&
              ls[k].unitPrice == items[cart[k].itemId].price &&
              ls[k].subtotal == items[cart[k].itemId].price * cart[k].quantity as real
  {
    if cart == [] then [] else Lines(items, cart[..|cart| - 1], tx) + [LineRow(items, cart[|cart| - 1], tx)]
  }

  /** The line row one checked cart line gets. */
  function LineRow(items: seq<Items.Item>, e: CartEntry, tx: nat): Transactions.TransactionItem
    requires LineError(items, e).None?
  {
    var p := PrepareLine(items, e);
    Transactions.SaveLine(Transactions.TransactionItem(tx, p.itemId, p.quantity, p.unitPrice, p.subtotal))
  }

  /** The item table after the writing loop: line by line, the item
      instance loaded while checking (`snap`) is reduced by the line's
      quantity and saved over the current row. Two lines for one item both
      start from the loaded stock, so the later save wins. */
  function ReduceAll(cur: seq<Items.Item>, snap: seq<Items.Item>, cart: seq<CartEntry>): (r: seq<Items.Item>)
    requires |cur| == |snap| && CartChecked(snap, cart)
    ensures |r| == |cur|
    ensures forall i :: 0 <= i < |r| ==>
              r[i].legacyItemId == cur[i].legacyItemId || r[i].legacyItemId == snap[i].legacyItemId
    ensures (forall i :: 0 <= i < |cur| ==> cur[i].quantity >= 0 && snap[i].quantity >= 0) ==>
              forall i :: 0 <= i < |r| ==> r[i].quantity >= 0
  {
    if cart == [] then cur
    else
      var n := |cart| - 1;
      var e := cart[n];
      var prev := ReduceAll(cur, snap, cart[..n]);
      prev[e.itemId := Items.ReduceQuantity(snap[e.itemId], e.quantity).item]
  }

  // ---------------------------------------------------------------------
  // Coupons and totals

  /** `Coupon.objects.get(code=code)`: the id of the coupon with that code. */
  function FindCoupon(coupons: seq<Coupons.Coupon>, code: string): (r: Option<nat>)
    ensures r.Some? ==> r.value < |coupons| && coupons[r.value].code == code
    ensures r.None? <==> forall i :: 0 <= i < |coupons| ==> coupons[i].code != code
  {
    var holds := (i: nat) => i < |coupons| && coupons[i].code == code;
    var r := Ordering.Find(|coupons|, holds);
    assert (forall i :: 0 <= i < |coupons| ==> coupons[i].code != code) ==> r.None? by {
      if forall i :: 0 <= i < |coupons| ==> coupons[i].code != code {
        assert forall k: nat :: k < |coupons| ==> !holds(k);
      }
    }
    assert r.None? ==> forall i :: 0 <= i < |coupons| ==> coupons[i].code != code by {
      if r.None? {
        forall i | 0 <= i < |coupons| ensures coupons[i].code != code {
          assert !holds(i);
        }
      }
    }
    r
  }

  /** The coupon a sale applies: a non-empty code that names a coupon
      valid at `now`. An unknown code is ignored, not an error. */
  function AppliedCoupon(coupons: seq<Coupons.Coupon>, code: Option<string>, now: int): (r: Option<Coupons.Coupon>)
    ensures r.Some? <==>
              code.Some? && code.value != "" && FindCoupon(coupons, code.value).Some? &&
              Coupons.IsValid(coupons[FindCoupon(coupons, code.value).value], now)
    ensures r.Some? ==> r.value.code == code.value && r.value in coupons && Coupons.IsValid(r.value, now)
  {
    if code.Some? && code.value != "" then
      match FindCoupon(coupons, code.value)
      case Some(i) => if Coupons.IsValid(coupons[i], now) then Some(coupons[i]) else None
      case None => None
    else None
  }

  /** The amount after tax at the default rate. */
  function WithTax(amount: real): (r: real)
    ensures r == amount + amount * DefaultTaxRate
  {
    amount * (1.0 + DefaultTaxRate)
  }

  /** The total a sale stores: the subtotal, discounted when a coupon
      applies, plus tax. */
  function SaleTotal(subtotal: real, applied: Option<Coupons.Coupon>, now: int): (r: real)
    ensures applied.None? ==> r == WithTax(subtotal)
    ensures applied.Some? && Coupons.FieldsValid(applied.value) && subtotal >= 0.0 ==> 0.0 <= r <= WithTax(subtotal)
  {
    WithTax(if applied.Some? then Coupons.ApplyDiscount(applied.value, subtotal, now) else subtotal)
  }

  /** The transaction row of a sale. */
  function SaleRecord(employee: nat, subtotal: real, applied: Option<Coupons.Coupon>, code: Option<string>, now: int): (t: Transactions.Transaction)
    ensures t.kind == Transactions.Sale && t.employee == employee && t.customer.None?
    ensures t.taxRate == DefaultTaxRate && t.totalAmount == SaleTotal(subtotal, applied, now)
    ensures t.discountApplied <==> applied.Some?
    ensures t.couponCode == (if applied.Some? then code else None)
  {
    Transactions.Transaction(Transactions.Sale, employee, None, SaleTotal(subtotal, applied, now), DefaultTaxRate,
                             applied.Some?, if applied.Some? then code else None)
  }

  function SaleDetails(tx: nat): string
  {
    "Sale transaction #" + NatToString(tx) + " created"
  }

  function RentalDetails(tx: nat, phone: string): string
  {
    "Rental transaction #" + NatToString(tx) + " created for customer " + phone
  }

  // ---------------------------------------------------------------------
  // Rental records

  /** A rental queued by the checking loop: one physical unit. */
  datatype PendingRental = PendingRental(item: nat, customer: nat, rentalDate: Rentals.Date, dueDate: Rentals.Date)

  /** `n` copies of `x`. */
  function Repeat<T>(x: T, n: nat): (r: seq<T>)
    ensures |r| == n && forall k :: 0 <= k < n ==> r[k] == x
  {
    if n == 0 then [] else Repeat(x, n - 1) + [x]
  }

  /** The number of units a line rents: `range(quantity)` is empty for a
      quantity of 0 or less. */
  function Units(q: int): nat
  {
    if q > 0 then q else 0
  }

  /** The queued rentals: for each line, one per unit, dated `today` and due
      a rental period later. */
  function PendingRentals(cart: seq<CartEntry>, customer: nat, today: Rentals.Date): (ps: seq<PendingRental>)
    requires forall k :: 0 <= k < |cart| ==> cart[k].itemId >= 0
    ensures forall k :: 0 <= k < |ps| ==>
              ps[k].customer == customer && ps[k].rentalDate == today && ps[k].dueDate == today + Rentals.RentalPeriodDays
  {
    if cart == [] then []
    else
      var e := cart[|cart| - 1];
      PendingRentals(cart[..|cart| - 1], customer, today) +
      Repeat(PendingRental(e.itemId, customer, today, today + Rentals.RentalPeriodDays), Units(e.quantity))
  }

  /** One more line queues its units after those of the prefix. */
  lemma PendingStep(cart: seq<CartEntry>, customer: nat, today: Rentals.Date, k: nat)
    requires k < |cart| && forall j :: 0 <= j <= k ==> cart[j].itemId >= 0
    ensures PendingRentals(cart[..k + 1], customer, today) ==
            PendingRentals(cart[..k], customer, today) +
            Repeat(PendingRental(cart[k].itemId, customer, today, today + Rentals.RentalPeriodDays), Units(cart[k].quantity))
  {
    assert cart[..k + 1][..k] == cart[..k];
  }

  /** `Rental.objects.create(transaction=tx, ...)`: the row a queued rental
      becomes, saved on `today`. */
  function CreateRentalRow(p: PendingRental, tx: nat, today: Rentals.Date): Rentals.Rental
  {
    Rentals.Save(Rentals.NewRental(Some(tx), p.item, p.customer, p.rentalDate, Some(p.dueDate)), today)
  }

  /** The rental rows written for transaction `tx`. */
  function RentalRows(ps: seq<PendingRental>, tx: nat, today: Rentals.Date): (rs: seq<Rentals.Rental>)
    ensures |rs| == |ps|
    ensures forall k :: 0 <= k < |ps| ==> rs[k] == CreateRentalRow(ps[k], tx, today)
  {
    if ps == [] then [] else RentalRows(ps[..|ps| - 1], tx, today) + [CreateRentalRow(ps[|ps| - 1], tx, today)]
  }

  /** The transaction row of a rental. */
  function RentalRecord(employee: nat, customer: nat, subtotal: real): (t: Transactions.Transaction)
    ensures t.kind == Transactions.Rental && t.employee == employee && t.customer == Some(customer)
    ensures t.totalAmount == WithTax(subtotal) && t.taxRate == DefaultTaxRate
    ensures !t.discountApplied && t.couponCode.None?
  {
    Transactions.Transaction(Transactions.Rental, employee, Some(customer), WithTax(subtotal), DefaultTaxRate, false, None)
  }

  // ---------------------------------------------------------------------
  // Returns

  /** The condition of the return query: rental `k` is one of
      `customer`'s, not returned, and of one of the items `itemIds`. */
  predicate ReturnMatch(rentals: seq<Rentals.Rental>, customer: nat, itemIds: seq<int>, k: nat)
  {
    k < |rentals| && rentals[k].customer == customer && rentals[k].item in itemIds && !rentals[k].isReturned
  }

  /** The rentals of `customer` that are not returned and whose item is one
      of `itemIds`, newest rental date first (the rentals' default order). */
  function ActiveMatching(rentals: seq<Rentals.Rental>, customer: nat, itemIds: seq<int>): (ids: seq<nat>)
    ensures forall k: nat :: k in ids <==> ReturnMatch(rentals, customer, itemIds, k)
    ensures forall j :: 0 <= j < |ids| ==> ids[j] < |rentals| && ReturnMatch(rentals, customer, itemIds, ids[j])
    ensures Ordering.Distinct(ids)
    ensures Ordering.SortedBy(ids, Rentals.NewestFirst(rentals))
  {
    var ids := Ordering.Query(|rentals|, (k: nat) => ReturnMatch(rentals, customer, itemIds, k), Rentals.NewestFirst(rentals));
    forall j | 0 <= j < |ids| ensures ids[j] < |rentals| && ReturnMatch(rentals, customer, itemIds, ids[j]) {
      assert ids[j] in ids;
    }
    ids
  }

  /** The rental table after the return loop: each listed rental, as loaded
      by the query, is marked returned on `today` and saved. */
  function ReturnAll(rentals: seq<Rentals.Rental>, ids: seq<nat>, today: Rentals.Date): (r: seq<Rentals.Rental>)
    requires forall k :: 0 <= k < |ids| ==> ids[k] < |rentals|
    ensures |r| == |rentals|
    ensures forall i :: 0 <= i < |r| ==>
              r[i] == if i in ids then Rentals.MarkAsReturned(rentals[i], Some(today), today) else rentals[i]
  {
    if ids == [] then rentals
    else
      var n := |ids| - 1;
      ReturnAll(rentals, ids[..n], today)[ids[n] := Rentals.MarkAsReturned(rentals[ids[n]], Some(today), today)]
  }

  /** How many of the listed rentals are of item `i`. */
  function ReturnedUnits(rentals: seq<Rentals.Rental>, ids: seq<nat>, i: nat): nat
    requires forall k :: 0 <= k < |ids| ==> ids[k] < |rentals|
  {
    if ids == [] then 0
    else
      var n := |ids| - 1;
      ReturnedUnits(rentals, ids[..n], i) + (if rentals[ids[n]].item == i then 1 else 0)
  }

  /** The item table after the return loop: for each listed rental its item
      row is loaded afresh and gains one unit. */
  function RestockAll(items: seq<Items.Item>, rentals: seq<Rentals.Rental>, ids: seq<nat>): (r: seq<Items.Item>)
    requires forall k :: 0 <= k < |ids| ==> ids[k] < |rentals| && rentals[ids[k]].item < |items|
    ensures |r| == |items|
    ensures forall i :: 0 <= i < |r| ==> r[i] == items[i].(quantity := items[i].quantity + ReturnedUnits(rentals, ids, i))
  {
    if ids == [] then items
    else
      var n := |ids| - 1;
      var prev := RestockAll(items, rentals, ids[..n]);
      var i := rentals[ids[n]].item;
      prev[i := Items.IncreaseQuantity(prev[i], 1).item]
  }

  // ---------------------------------------------------------------------
  // The operations

  /** What a sale or rental raises before writing anything: an unknown
      employee first, then the first failing cart line. */
  function RequestError(employees: nat, items: seq<Items.Item>, employeeId: int, cart: seq<CartEntry>): (r: Option<Error>)
    ensures r.None? <==> 0 <= employeeId < employees && CartChecked(items, cart)
    ensures !(0 <= employeeId < employees) ==> r == Some(EmployeeNotFound)
    ensures 0 <= employeeId < employees ==> r == CartError(items, cart)
  {
    if !(0 <= employeeId < employees) then Some(EmployeeNotFound) else CartError(items, cart)
  }

  /** The checking loop of `create_sale`: loads each line's item, raises
      on the first line that fails, and otherwise gives the prepared lines
      and the running total. */
  method CheckCart(items: seq<Items.Item>, cart: seq<CartEntry>) returns (r: Result<(seq<Prepared>, real), Error>)
    ensures r.Failure? <==> CartError(items, cart).Some?
    ensures r.Failure? ==> r.error == CartError(items, cart).value
    ensures r.Success? ==>
              CartChecked(items, cart) && |r.value.0| == |cart| &&
              (forall j :: 0 <= j < |cart| ==> r.value.0[j] == PrepareLine(items, cart[j])) &&
              r.value.1 == Subtotal(items, cart)
  {
    var total := 0.0;
    var prepared: seq<Prepared> := [];
    var k := 0;
    while k < |cart|
      invariant 0 <= k <= |cart|
      invariant CartChecked(items, cart[..k])
      invariant total == Subtotal(items, cart[..k])
      invariant |prepared| == k
      invariant forall j :: 0 <= j < k ==> prepared[j] == PrepareLine(items, cart[j])
    {
      var e := cart[k];
      if !(0 <= e.itemId < |items|) {
        CartErrorAt(items, cart, k);
        return Failure(ItemNotFound(e.itemId));
      }
      var item := items[e.itemId];
      if !Items.IsAvailable(item, e.quantity) {
        CartErrorAt(items, cart, k);
        return Failure(InsufficientQuantity(item.name));
      }
      CheckedStep(items, cart, k);
      var subtotal := item.price * e.quantity as real;
      total := total + subtotal;
      prepared := prepared + [Prepared(e.itemId, item, e.quantity, item.price, subtotal)];
      k := k + 1;
    }
    assert cart[..k] == cart;
    return Success((prepared, total));
  }

  /** The writing loop of `create_sale` and `create_rental`: for each
      prepared line, writes its line row and saves its loaded item with the
      line's quantity taken off. */
  method WriteLines(db: Database, loaded: seq<Items.Item>, cart: seq<CartEntry>, prepared: seq<Prepared>, tx: nat)
    requires |loaded| == |db.items| && CartChecked(loaded, cart)
    requires |prepared| == |cart| && forall j :: 0 <= j < |cart| ==> prepared[j] == PrepareLine(loaded, cart[j])
    modifies db
    ensures db.lines == old(db.lines) + Lines(loaded, cart, tx)
    ensures db.items == ReduceAll(old(db.items), loaded, cart)
    ensures db.employees == old(db.employees) && db.customers == old(db.customers) && db.coupons == old(db.coupons)
    ensures db.transactions == old(db.transactions) && db.rentals == old(db.rentals) && db.auditLog == old(db.auditLog)
  {
    var before := db.items;
    var written := db.lines;
    var stock := db.items;
    for j := 0 to |cart|
      invariant written == old(db.lines) + Lines(loaded, cart[..j], tx)
      invariant stock == ReduceAll(before, loaded, cart[..j]) && unchanged(db)
    {
      var p := prepared[j];
      LinesStep(loaded, cart, tx, j);
      ReduceStep(before, loaded, cart, j);
      written := written + [Transactions.SaveLine(Transactions.TransactionItem(tx, p.itemId, p.quantity, p.unitPrice, p.subtotal))];
      var outcome := Items.ReduceQuantity(p.item, p.quantity);
      stock := stock[p.itemId := outcome.item];
    }
    assert cart[..|cart|] == cart;
    db.lines := written;
    db.items := stock;
  }

  /** One more line of the writing loop appends its line row. */
  lemma LinesStep(snap: seq<Items.Item>, cart: seq<CartEntry>, tx: nat, j: nat)
    requires CartChecked(snap, cart) && j < |cart|
    ensures CartChecked(snap, cart[..j]) && CartChecked(snap, cart[..j + 1])
    ensures Lines(snap, cart[..j + 1], tx) == Lines(snap, cart[..j], tx) + [LineRow(snap, cart[j], tx)]
  {
    assert cart[..j + 1][..j] == cart[..j];
  }

  /** One more line of the writing loop saves its loaded item, reduced,
      over the current row. */
  lemma ReduceStep(cur: seq<Items.Item>, snap: seq<Items.Item>, cart: seq<CartEntry>, j: nat)
    requires |cur| == |snap| && CartChecked(snap, cart) && j < |cart|
    ensures CartChecked(snap, cart[..j]) && CartChecked(snap, cart[..j + 1])
    ensures ReduceAll(cur, snap, cart[..j + 1]) ==
            ReduceAll(cur, snap, cart[..j])[cart[j].itemId := Items.ReduceQuantity(snap[cart[j].itemId], cart[j].quantity).item]
  {
    assert cart[..j + 1][..j] == cart[..j];
  }

  /** `create_sale`: checks every line against the stock, totals the cart,
      applies a valid coupon and the tax, then writes the transaction, one
      line row per cart line, the reduced stock and an audit entry. */
  method CreateSale(db: Database, employeeId: int, cart: seq<CartEntry>, couponCode: Option<string>, now: int)
    returns (r: Result<nat, Error>)
    requires db.Valid()
    modifies db
    ensures db.Valid()
    ensures old(db.StockNonNegative()) ==> db.StockNonNegative()
    ensures r.Failure? <==> RequestError(|old(db.employees)|, old(db.items), employeeId, cart).Some?
    ensures r.Failure? ==> r.error == RequestError(|old(db.employees)|, old(db.items), employeeId, cart).value && unchanged(db)
    ensures r.Success? ==>
              CartChecked(old(db.items), cart) && 0 <= employeeId < |old(db.employees)| &&
              r.value == |old(db.transactions)| &&
              db.transactions == old(db.transactions) +
                [SaleRecord(employeeId, Subtotal(old(db.items), cart), AppliedCoupon(old(db.coupons), couponCode, now), couponCode, now)] &&
              db.lines == old(db.lines) + Lines(old(db.items), cart, r.value) &&
              db.items == ReduceAll(old(db.items), old(db.items), cart) &&
              db.auditLog == old(db.auditLog) + [Audit.Entry(employeeId, Audit.TransactionCreated, SaleDetails(r.value))] &&
              db.employees == old(db.employees) && db.customers == old(db.customers) &&
              db.coupons == old(db.coupons) && db.rentals == old(db.rentals)
  {
    if !(0 <= employeeId < |db.employees|) {
      return Failure(EmployeeNotFound);
    }
    var loaded := db.items;
    var checked := CheckCart(loaded, cart);
    if checked.Failure? {
      return Failure(checked.error);
    }
    var (prepared, total) := checked.value;

    var discountApplied := false;
    if couponCode.Some? && couponCode.value != "" {
      var found := FindCoupon(db.coupons, couponCode.value);
      if found.Some? {
        var coupon := db.coupons[found.value];
        if Coupons.IsValid(coupon, now) {
          total := Coupons.ApplyDiscount(coupon, total, now);
          discountApplied := true;
        }
      }
    }
    var totalWithTax := total * (1.0 + DefaultTaxRate);
    var record := Transactions.Transaction(Transactions.Sale, employeeId, None, totalWithTax, DefaultTaxRate,
                                           discountApplied, if discountApplied then couponCode else None);
    assert record == SaleRecord(employeeId, Subtotal(loaded, cart), AppliedCoupon(db.coupons, couponCode, now), couponCode, now);
    var tx := CommitSale(db, record, cart, prepared);
    return Success(tx);
  }

  /** The writing half of `create_sale`, once the cart is checked and the
      transaction row is computed: the transaction, its lines, the reduced
      stock and the audit entry. */
  method CommitSale(db: Database, record: Transactions.Transaction, cart: seq<CartEntry>, prepared: seq<Prepared>)
    returns (tx: nat)
    requires db.Valid() && record.employee < |db.employees| && record.customer.None?
    requires CartChecked(db.items, cart)
    requires |prepared| == |cart| && forall j :: 0 <= j < |cart| ==> prepared[j] == PrepareLine(db.items, cart[j])
    modifies db
    ensures db.Valid()
    ensures old(db.StockNonNegative()) ==> db.StockNonNegative()
    ensures tx == |old(db.transactions)|
    ensures db.transactions == old(db.transactions) + [record]
    ensures db.lines == old(db.lines) + Lines(old(db.items), cart, tx)
    ensures db.items == ReduceAll(old(db.items), old(db.items), cart)
    ensures db.auditLog == old(db.auditLog) + [Audit.Entry(record.employee, Audit.TransactionCreated, SaleDetails(tx))]
    ensures db.employees == old(db.employees) && db.customers == old(db.customers)
    ensures db.coupons == old(db.coupons) && db.rentals == old(db.rentals)
  {
    var loaded := db.items;
    tx := |db.transactions|;
    db.transactions := db.transactions + [record];
    WriteLines(db, loaded, cart, prepared, tx);
    db.auditLog := db.auditLog + [Audit.Entry(record.employee, Audit.TransactionCreated, SaleDetails(tx))];
    SaleKeepsValid(old(db.employees), loaded, old(db.customers), old(db.transactions), old(db.lines), old(db.rentals), old(db.auditLog),
                   cart, record, tx, record.employee);
  }

  /** The tables a sale writes keep the unique columns and foreign keys. */
  lemma SaleKeepsValid(employees: seq<Employees.Employee>, items: seq<Items.Item>, customers: seq<Customers.Customer>,
                       transactions: seq<Transactions.Transaction>, lines: seq<Transactions.TransactionItem>,
                       rentals: seq<Rentals.Rental>, auditLog: seq<Audit.Entry>,
                       cart: seq<CartEntry>, record: Transactions.Transaction, tx: nat, employee: nat)
    requires UniqueLegacyIds(items) && CartChecked(items, cart)
    requires TransactionRefs(transactions, |employees|, |customers|)
    requires LineRefs(lines, |transactions|, |items|)
    requires RentalRefs(rentals, |items|, |customers|, |transactions|)
    requires AuditRefs(auditLog, |employees|)
    requires tx == |transactions| && employee < |employees|
    requires record.employee == employee && (record.customer.Some? ==> record.customer.value < |customers|)
    ensures UniqueLegacyIds(ReduceAll(items, items, cart))
    ensures TransactionRefs(transactions + [record], |employees|, |customers|)
    ensures LineRefs(lines + Lines(items, cart, tx), |transactions| + 1, |items|)
    ensures RentalRefs(rentals, |items|, |customers|, |transactions| + 1)
    ensures AuditRefs(auditLog + [Audit.Entry(employee, Audit.TransactionCreated, SaleDetails(tx))], |employees|)
  {
    RefsGrow(transactions, lines, rentals, auditLog, |employees|, |items|, |customers|, |transactions|,
             |employees|, |items|, |customers|, |transactions| + 1);
    var ls := Lines(items, cart, tx);
    forall l | l in lines + ls ensures l.transaction < |transactions| + 1 && l.item < |items| {
      if l in ls {
        var k :| 0 <= k < |ls| && ls[k] == l;
        assert LineError(items, cart[k]).None?;
      }
    }
  }

  /** The checking loop of `create_rental`: as for a sale, and in addition
      one queued rental per unit of each line. Nothing is written while
      checking, so the queue is built once the whole cart has passed. */
  method CheckRentalCart(items: seq<Items.Item>, cart: seq<CartEntry>, customer: nat, today: Rentals.Date)
    returns (r: Result<(seq<Prepared>, real, seq<PendingRental>), Error>)
    ensures r.Failure? <==> CartError(items, cart).Some?
    ensures r.Failure? ==> r.error == CartError(items, cart).value
    ensures r.Success? ==>
              CartChecked(items, cart) && |r.value.0| == |cart| &&
              (forall j :: 0 <= j < |cart| ==> r.value.0[j] == PrepareLine(items, cart[j])) &&
              r.value.1 == Subtotal(items, cart) &&
              r.value.2 == PendingRentals(cart, customer, today)
  {
    var checked := CheckCart(items, cart);
    if checked.Failure? {
      return Failure(checked.error);
    }
    var (prepared, total) := checked.value;
    var queued := QueueRentals(cart, customer, today);
    return Success((prepared, total, queued));
  }

  /** The queuing half of the rental loop, for a cart already checked: each
      line's units are queued dated `today` and due a rental period later. */
  method QueueRentals(cart: seq<CartEntry>, customer: nat, today: Rentals.Date) returns (queued: seq<PendingRental>)
    requires forall j :: 0 <= j < |cart| ==> cart[j].itemId >= 0
    ensures queued == PendingRentals(cart, customer, today)
  {
    queued := [];
    for k := 0 to |cart|
      invariant queued == PendingRentals(cart[..k], customer, today)
    {
      var e := cart[k];
      var rentalDate := today;
      var dueDate := rentalDate + Rentals.RentalPeriodDays;
      PendingStep(cart, customer, today, k);
      queued := QueueUnits(queued, PendingRental(e.itemId, customer, rentalDate, dueDate), e.quantity);
    }
    assert cart[..|cart|] == cart;
  }

  /** The inner loop of `create_rental`: `for _ in range(quantity)` queues
      one copy of `unit` per pass. */
  method QueueUnits(queued: seq<PendingRental>, unit: PendingRental, quantity: int) returns (r: seq<PendingRental>)
    ensures r == queued + Repeat(unit, Units(quantity))
  {
    r := queued;
    var u := 0;
    while u < quantity
      invariant 0 <= u <= Units(quantity)
      invariant r == queued + Repeat(unit, u)
    {
      r := r + [unit];
      u := u + 1;
    }
  }

  /** The last loop of `create_rental`: one rental row per queued unit. */
  method WriteRentals(db: Database, queued: seq<PendingRental>, tx: nat, today: Rentals.Date)
    modifies db
    ensures db.rentals == old(db.rentals) + RentalRows(queued, tx, today)
    ensures db.employees == old(db.employees) && db.customers == old(db.customers) && db.coupons == old(db.coupons)
    ensures db.transactions == old(db.transactions) && db.items == old(db.items)
    ensures db.lines == old(db.lines) && db.auditLog == old(db.auditLog)
  {
    var k := 0;
    while k < |queued|
      invariant 0 <= k <= |queued|
      invariant db.rentals == old(db.rentals) + RentalRows(queued[..k], tx, today)
      invariant db.employees == old(db.employees) && db.customers == old(db.customers) && db.coupons == old(db.coupons)
      invariant db.transactions == old(db.transactions) && db.items == old(db.items)
      invariant db.lines == old(db.lines) && db.auditLog == old(db.auditLog)
    {
      var p := queued[k];
      assert queued[..k + 1][..k] == queued[..k];
      var row := Rentals.Save(Rentals.NewRental(Some(tx), p.item, p.customer, p.rentalDate, Some(p.dueDate)), today);
      db.rentals := db.rentals + [row];
      k := k + 1;
    }
    assert queued[..k] == queued;
  }

  /** `create_rental`: gets or creates the customer by phone, checks every
      line against the stock, then writes the transaction with the customer,
      one line row per cart line, the reduced stock, one rental per unit and
      an audit entry. A failure also undoes the customer's creation. */
  method CreateRental(db: Database, employeeId: int, phone: string, cart: seq<CartEntry>, today: Rentals.Date)
    returns (r: Result<nat, Error>)
    requires db.Valid()
    modifies db
    ensures db.Valid()
    ensures old(db.StockNonNegative()) ==> db.StockNonNegative()
    ensures r.Failure? <==> RequestError(|old(db.employees)|, old(db.items), employeeId, cart).Some?
    ensures r.Failure? ==> r.error == RequestError(|old(db.employees)|, old(db.items), employeeId, cart).value && unchanged(db)
    ensures r.Success? ==>
              var (customers, customer) := Customers.GetOrCreate(old(db.customers), phone);
              CartChecked(old(db.items), cart) && 0 <= employeeId < |old(db.employees)| &&
              r.value == |old(db.transactions)| &&
              db.customers == customers &&
              db.transactions == old(db.transactions) + [RentalRecord(employeeId, customer, Subtotal(old(db.items), cart))] &&
              db.lines == old(db.lines) + Lines(old(db.items), cart, r.value) &&
              db.items == ReduceAll(old(db.items), old(db.items), cart) &&
              db.rentals == old(db.rentals) + RentalRows(PendingRentals(cart, customer, today), r.value, today) &&
              db.auditLog == old(db.auditLog) + [Audit.Entry(employeeId, Audit.TransactionCreated, RentalDetails(r.value, phone))] &&
              db.employees == old(db.employees) && db.coupons == old(db.coupons)
  {
    if !(0 <= employeeId < |db.employees|) {
      return Failure(EmployeeNotFound);
    }
    var before := db.customers;
    var (customers, customer) := Customers.GetOrCreate(db.customers, phone);
    db.customers := customers;
    RefsGrow(db.transactions, db.lines, db.rentals, db.auditLog,
             |db.employees|, |db.items|, |before|, |db.transactions|,
             |db.employees|, |db.items|, |customers|, |db.transactions|);

    var loaded := db.items;
    var checked := CheckRentalCart(loaded, cart, customer, today);
    if checked.Failure? {
      db.customers := before;
      return Failure(checked.error);
    }
    var (prepared, total, queued) := checked.value;
    var tx := CommitRental(db, employeeId, customer, phone, cart, prepared, total, queued, today);
    return Success(tx);
  }

  /** The writing half of `create_rental`, once the customer is known and
      the cart is checked: the transaction, its lines, the reduced stock,
      the rentals and the audit entry. */
  method CommitRental(db: Database, employeeId: nat, customer: nat, phone: string, cart: seq<CartEntry>,
                      prepared: seq<Prepared>, total: real, queued: seq<PendingRental>, today: Rentals.Date)
    returns (tx: nat)
    requires db.Valid() && employeeId < |db.employees| && customer < |db.customers|
    requires CartChecked(db.items, cart) && total == Subtotal(db.items, cart)
    requires |prepared| == |cart| && forall j :: 0 <= j < |cart| ==> prepared[j] == PrepareLine(db.items, cart[j])
    requires queued == PendingRentals(cart, customer, today)
    modifies db
    ensures db.Valid()
    ensures old(db.StockNonNegative()) ==> db.StockNonNegative()
    ensures tx == |old(db.transactions)|
    ensures db.transactions == old(db.transactions) + [RentalRecord(employeeId, customer, total)]
    ensures db.lines == old(db.lines) + Lines(old(db.items), cart, tx)
    ensures db.items == ReduceAll(old(db.items), old(db.items), cart)
    ensures db.rentals == old(db.rentals) + RentalRows(queued, tx, today)
    ensures db.auditLog == old(db.auditLog) + [Audit.Entry(employeeId, Audit.TransactionCreated, RentalDetails(tx, phone))]
    ensures db.employees == old(db.employees) && db.customers == old(db.customers) && db.coupons == old(db.coupons)
  {
    var loaded := db.items;
    tx := |db.transactions|;
    var record := RentalRecord(employeeId, customer, total);
    var transactions := db.transactions + [record];
    db.transactions := transactions;

    WriteLines(db, loaded, cart, prepared, tx);
    WriteRentals(db, queued, tx, today);
    db.auditLog := db.auditLog + [Audit.Entry(employeeId, Audit.TransactionCreated, RentalDetails(tx, phone))];
    SaleKeepsValid(old(db.employees), loaded, old(db.customers), old(db.transactions), old(db.lines), old(db.rentals), old(db.auditLog),
                   cart, record, tx, employeeId);
    RentalRowsStored(cart, customer, tx, today, |loaded|, |db.customers|, tx + 1);
    RentalRefsAppend(old(db.rentals), RentalRows(queued, tx, today), |loaded|, |db.customers|, tx + 1);
  }

  /** The rental rows of a checked cart are stored rentals. */
  lemma RentalRowsStored(cart: seq<CartEntry>, customer: nat, tx: nat, today: Rentals.Date, items: nat, customers: nat, transactions: nat)
    requires forall k :: 0 <= k < |cart| ==> 0 <= cart[k].itemId < items
    requires customer < customers && tx < transactions
    ensures RentalRefs(RentalRows(PendingRentals(cart, customer, today), tx, today), items, customers, transactions)
  {
    var ps := PendingRentals(cart, customer, today);
    PendingRentalItems(cart, customer, today, items);
    var rs := RentalRows(ps, tx, today);
    forall k | 0 <= k < |rs| ensures RentalStored(rs[k], items, customers, transactions) {
      assert ps[k] in ps;
    }
  }

  lemma {:induction false} PendingRentalItems(cart: seq<CartEntry>, customer: nat, today: Rentals.Date, items: nat)
    requires forall k :: 0 <= k < |cart| ==> 0 <= cart[k].itemId < items
    ensures forall p :: p in PendingRentals(cart, customer, today) ==> p.item < items
  {
    if cart != [] {
      PendingRentalItems(cart[..|cart| - 1], customer, today, items);
    }
  }

  /** `process_return`: finds the customer by phone and every rental of
      theirs, not yet returned, of one of the listed items; raises if there
      is none; otherwise marks each returned on `today` and puts its unit
      back in stock, and gives the rentals it returned. */
  method ProcessReturn(db: Database, phone: string, itemIds: seq<int>, today: Rentals.Date)
    returns (r: Result<seq<nat>, Error>)
    requires db.Valid()
    modifies db
    ensures db.Valid()
    ensures old(db.StockNonNegative()) ==> db.StockNonNegative()
    ensures Customers.FindByPhone(old(db.customers), phone).None? ==> r == Failure(CustomerNotFound) && unchanged(db)
    ensures Customers.FindByPhone(old(db.customers), phone).Some? ==>
              var active := ActiveMatching(old(db.rentals), Customers.FindByPhone(old(db.customers), phone).value, itemIds);
              (active == [] ==> r == Failure(NoActiveRentals) && unchanged(db)) &&
              (active != [] ==>
                 r == Success(active) &&
                 db.rentals == ReturnAll(old(db.rentals), active, today) &&
                 db.items == RestockAll(old(db.items), old(db.rentals), active) &&
                 db.employees == old(db.employees) && db.customers == old(db.customers) && db.coupons == old(db.coupons) &&
                 db.transactions == old(db.transactions) && db.lines == old(db.lines) && db.auditLog == old(db.auditLog))
  {
    var found := Customers.FindByPhone(db.customers, phone);
    if found.None? {
      return Failure(CustomerNotFound);
    }
    var active := ActiveMatching(db.rentals, found.value, itemIds);
    if active == [] {
      return Failure(NoActiveRentals);
    }
    var loaded := db.rentals;
    ActiveStored(loaded, active, |db.items|, |db.customers|, |db.transactions|);
    ReturnEach(db, active, today);
    ReturnKeepsValid(loaded, active, today, |db.items|, |db.customers|, |db.transactions|);
    return Success(active);
  }

  /** The rentals a return names are stored ones, so their items exist. */
  lemma ActiveStored(rentals: seq<Rentals.Rental>, ids: seq<nat>, items: nat, customers: nat, transactions: nat)
    requires RentalRefs(rentals, items, customers, transactions)
    requires forall j :: 0 <= j < |ids| ==> ids[j] < |rentals|
    ensures forall k :: 0 <= k < |ids| ==> ids[k] < |rentals| && rentals[ids[k]].item < items
  {
    forall k | 0 <= k < |ids| ensures rentals[ids[k]].item < items {
      assert RentalStored(rentals[ids[k]], items, customers, transactions);
    }
  }

  /** The loop of `process_return`: each rental the query loaded is marked
      returned and saved, and its item, loaded afresh, gains one unit. */
  method ReturnEach(db: Database, active: seq<nat>, today: Rentals.Date)
    requires forall k :: 0 <= k < |active| ==> active[k] < |db.rentals| && db.rentals[active[k]].item < |db.items|
    modifies db
    ensures db.rentals == ReturnAll(old(db.rentals), active, today)
    ensures db.items == RestockAll(old(db.items), old(db.rentals), active)
    ensures db.employees == old(db.employees) && db.customers == old(db.customers) && db.coupons == old(db.coupons)
    ensures db.transactions == old(db.transactions) && db.lines == old(db.lines) && db.auditLog == old(db.auditLog)
  {
    var loaded := db.rentals;
    var before := db.items;
    var rentals := db.rentals;
    var stock := db.items;
    for k := 0 to |active|
      invariant rentals == ReturnAll(loaded, active[..k], today)
      invariant stock == RestockAll(before, loaded, active[..k]) && unchanged(db)
    {
      var id := active[k];
      assert active[..k + 1][..k] == active[..k];
      var rental := Rentals.MarkAsReturned(loaded[id], Some(today), today);
      rentals := rentals[id := rental];
      var item := stock[rental.item];
      stock := stock[rental.item := Items.IncreaseQuantity(item, 1).item];
    }
    assert active[..|active|] == active;
    db.rentals := rentals;
    db.items := stock;
  }

  /** Marking rentals returned keeps them stored rentals. */
  lemma ReturnKeepsValid(rentals: seq<Rentals.Rental>, ids: seq<nat>, today: Rentals.Date, items: nat, customers: nat, transactions: nat)
    requires forall k :: 0 <= k < |ids| ==> ids[k] < |rentals|
    requires RentalRefs(rentals, items, customers, transactions)
    ensures RentalRefs(ReturnAll(rentals, ids, today), items, customers, transactions)
  {
    var rs := ReturnAll(rentals, ids, today);
    forall i | 0 <= i < |rs| ensures RentalStored(rs[i], items, customers, transactions) {
      assert RentalStored(rentals[i], items, customers, transactions);
    }
  }
}
