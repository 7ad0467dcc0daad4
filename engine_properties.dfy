/** What the transaction engine's operations add up to across calls and
    across the lines of a cart: how stock moves, how many rentals are
    written, and what a return leaves behind. */
module EngineProperties {
  import opened Wrappers
  import Items
  import Coupons
  import Rentals
  import Transactions
  import Ordering
  import opened TransactionService

  // ---------------------------------------------------------------------
  // Stock after a sale or rental

  /** The quantity of the last cart line naming item `i`, if any. */
  function LastQuantity(cart: seq<CartEntry>, i: nat): (r: Option<int>)
    ensures r.None? <==> forall k :: 0 <= k < |cart| ==> cart[k].itemId != i
  {
    if cart == [] then None
    else
      var n := |cart| - 1;
      assert forall k :: 0 <= k < n ==> cart[..n][k] == cart[k];
      if cart[n].itemId == i then Some(cart[n].quantity) else LastQuantity(cart[..n], i)
  }

  /** The quantity the cart asks for of item `i`, over all its lines. */
  function ItemQuantity(cart: seq<CartEntry>, i: nat): int
  {
    if cart == [] then 0
    else
      var n := |cart| - 1;
      ItemQuantity(cart[..n], i) + (if cart[n].itemId == i then cart[n].quantity else 0)
  }

  /** No item id appears on two lines. */
  predicate DistinctItems(cart: seq<CartEntry>)
  {
    forall a, b :: 0 <= a < b < |cart| ==> cart[a].itemId != cart[b].itemId
  }

  /** The writing loop leaves each item row as the LAST line naming it
      left it: that line's quantity taken off the stock loaded while
      checking. An item no line names keeps its current row. */
  lemma {:induction false} ReduceAllLastWins(cur: seq<Items.Item>, snap: seq<Items.Item>, cart: seq<CartEntry>, i: nat)
    requires |cur| == |snap| && CartChecked(snap, cart) && i < |cur|
    ensures ReduceAll(cur, snap, cart)[i] ==
              match LastQuantity(cart, i)
              case None => cur[i]
              case Some(q) => snap[i].(quantity := snap[i].quantity - q)
  {
    if cart != [] {
      var n := |cart| - 1;
      assert CartChecked(snap, cart[..n]) by {
        forall k | 0 <= k < n ensures LineError(snap, cart[..n][k]).None? {
          assert cart[..n][k] == cart[k];
        }
      }
      ReduceAllLastWins(cur, snap, cart[..n], i);
      if cart[n].itemId == i {
        assert LineError(snap, cart[n]).None?;
      }
    }
  }

  /** With distinct item ids the last line is the only line. */
  lemma {:induction false} LastIsOnly(cart: seq<CartEntry>, i: nat)
    requires DistinctItems(cart)
    ensures LastQuantity(cart, i).None? ==> ItemQuantity(cart, i) == 0
    ensures LastQuantity(cart, i).Some? ==> LastQuantity(cart, i).value == ItemQuantity(cart, i)
  {
    if cart != [] {
      var n := |cart| - 1;
      assert DistinctItems(cart[..n]);
      LastIsOnly(cart[..n], i);
      if cart[n].itemId == i {
        assert forall k :: 0 <= k < n ==> cart[..n][k].itemId != i;
        assert LastQuantity(cart[..n], i).None?;
      }
    }
  }

  /** A sale or rental of a cart with distinct item ids takes exactly each
      line's quantity off its item, and leaves every other item as it was. */
  lemma StockAfterDistinctCart(items: seq<Items.Item>, cart: seq<CartEntry>, i: nat)
    requires CartChecked(items, cart) && DistinctItems(cart) && i < |items|
    ensures ReduceAll(items, items, cart)[i] == items[i].(quantity := items[i].quantity - ItemQuantity(cart, i))
    ensures (forall k :: 0 <= k < |cart| ==> cart[k].itemId != i) ==> ReduceAll(items, items, cart)[i] == items[i]
  {
    ReduceAllLastWins(items, items, cart, i);
    LastIsOnly(cart, i);
  }

  /** Two lines for one item: both are checked against the loaded stock of
      5 and the second save overwrites the first, so 5 units are sold but
      only 3 leave the stock. */
  lemma LostUpdate()
    ensures var items := [Items.Item(1, "Widget", 10.0, 5)];
            var cart := [CartEntry(0, 2), CartEntry(0, 3)];
            CartChecked(items, cart) && ItemQuantity(cart, 0) == 5 &&
            ReduceAll(items, items, cart)[0].quantity == 2
  {
    var items := [Items.Item(1, "Widget", 10.0, 5)];
    var cart := [CartEntry(0, 2), CartEntry(0, 3)];
    assert cart[..1] == [CartEntry(0, 2)] && cart[..1][..0] == [];
    assert CartChecked(items, cart);
    ReduceAllLastWins(items, items, cart, 0);
  }

  // ---------------------------------------------------------------------
  // Totals

  /** The sum of the stored line subtotals. */
  function LinesTotal(ls: seq<Transactions.TransactionItem>): real
  {
    if ls == [] then 0.0 else LinesTotal(ls[..|ls| - 1]) + ls[|ls| - 1].subtotal
  }

  /** The transaction rows the engine writes meet the `total_amount`
      validator whenever the subtotal is non-negative and an applied coupon
      meets its own validators. */
  lemma RecordsValid(employee: nat, customer: nat, subtotal: real, applied: Option<Coupons.Coupon>,
                     code: Option<string>, now: int)
    ensures subtotal >= 0.0 && (applied.Some? ==> Coupons.FieldsValid(applied.value)) ==>
              Transactions.TransactionFieldsValid(SaleRecord(employee, subtotal, applied, code, now))
    ensures subtotal >= 0.0 ==> Transactions.TransactionFieldsValid(RentalRecord(employee, customer, subtotal))
  {
  }

  /** The stored lines add up to the pre-discount total of the sale. */
  lemma {:induction false} LinesAddUp(items: seq<Items.Item>, cart: seq<CartEntry>, tx: nat)
    requires CartChecked(items, cart)
    ensures LinesTotal(Lines(items, cart, tx)) == Subtotal(items, cart)
  {
    if cart != [] {
      var n := |cart| - 1;
      assert CartChecked(items, cart[..n]) by {
        forall k | 0 <= k < n ensures LineError(items, cart[..n][k]).None? {
          assert cart[..n][k] == cart[k];
        }
      }
      LinesAddUp(items, cart[..n], tx);
      var ls := Lines(items, cart, tx);
      assert ls[..n] == Lines(items, cart[..n], tx);
    }
  }

  /** Two units at 10.00 with no coupon cost 21.20; with a valid 10% coupon
      they cost 19.08. An unknown code costs the same as none. */
  lemma SaleTotalExamples(now: int)
    ensures var items := [Items.Item(1, "Widget", 10.0, 5)];
            var cart := [CartEntry(0, 2)];
            var coupons := [Coupons.Coupon("SAVE10", 10.0, true, None)];
            CartChecked(items, cart) &&
            SaleTotal(Subtotal(items, cart), AppliedCoupon(coupons, None, now), now) == 21.2 &&
            SaleTotal(Subtotal(items, cart), AppliedCoupon(coupons, Some("SAVE10"), now), now) == 19.08 &&
            SaleTotal(Subtotal(items, cart), AppliedCoupon(coupons, Some("NOPE"), now), now) == 21.2
  {
    var items := [Items.Item(1, "Widget", 10.0, 5)];
    var cart := [CartEntry(0, 2)];
    var coupons := [Coupons.Coupon("SAVE10", 10.0, true, None)];
    assert cart[..0] == [];
    assert Subtotal(items, cart) == 20.0;
    assert FindCoupon(coupons, "SAVE10") == Some(0);
    assert coupons[0].code != "NOPE";
  }

  // ---------------------------------------------------------------------
  // Rentals written

  /** How many units the cart rents of item `i`. */
  function ItemUnits(cart: seq<CartEntry>, i: nat): nat
  {
    if cart == [] then 0
    else
      var n := |cart| - 1;
      ItemUnits(cart[..n], i) + (if cart[n].itemId == i then Units(cart[n].quantity) else 0)
  }

  /** How many units the cart rents in all. */
  function TotalUnits(cart: seq<CartEntry>): nat
  {
    if cart == [] then 0 else TotalUnits(cart[..|cart| - 1]) + Units(cart[|cart| - 1].quantity)
  }

  /** How many queued rentals are of item `i`. */
  function QueuedOf(ps: seq<PendingRental>, i: nat): nat
  {
    if ps == [] then 0 else QueuedOf(ps[..|ps| - 1], i) + (if ps[|ps| - 1].item == i then 1 else 0)
  }

  /** How many rentals of item `i` are out: not returned. */
  function ActiveOf(rs: seq<Rentals.Rental>, i: nat): nat
  {
    if rs == [] then 0 else ActiveOf(rs[..|rs| - 1], i) + Out(rs[|rs| - 1], i)
  }

  /** 1 when `r` is an unreturned rental of item `i`, else 0. */
  function Out(r: Rentals.Rental, i: nat): nat
  {
    if r.item == i && !r.isReturned then 1 else 0
  }

  lemma {:induction false} QueuedAppend(a: seq<PendingRental>, b: seq<PendingRental>, i: nat)
    ensures QueuedOf(a + b, i) == QueuedOf(a, i) + QueuedOf(b, i)
  {
    if b != [] {
      var n := |b| - 1;
      assert (a + b)[..|a + b| - 1] == a + b[..n];
      QueuedAppend(a, b[..n], i);
    } else {
      assert a + b == a;
    }
  }

  lemma {:induction false} QueuedRepeat(p: PendingRental, m: nat, i: nat)
    ensures QueuedOf(Repeat(p, m), i) == if p.item == i then m else 0
  {
    if m > 0 {
      assert Repeat(p, m)[..m - 1] == Repeat(p, m - 1);
      QueuedRepeat(p, m - 1, i);
    }
  }

  lemma {:induction false} ActiveAppend(a: seq<Rentals.Rental>, b: seq<Rentals.Rental>, i: nat)
    ensures ActiveOf(a + b, i) == ActiveOf(a, i) + ActiveOf(b, i)
  {
    if b != [] {
      var n := |b| - 1;
      assert (a + b)[..|a + b| - 1] == a + b[..n];
      ActiveAppend(a, b[..n], i);
    } else {
      assert a + b == a;
    }
  }

  /** The cart queues one rental per unit: as many in all as the units of
      its lines, and of each item as many as its lines ask for. */
  lemma {:induction false} PendingCounts(cart: seq<CartEntry>, customer: nat, today: Rentals.Date, i: nat)
    requires forall k :: 0 <= k < |cart| ==> cart[k].itemId >= 0
    ensures |PendingRentals(cart, customer, today)| == TotalUnits(cart)
    ensures QueuedOf(PendingRentals(cart, customer, today), i) == ItemUnits(cart, i)
  {
    if cart != [] {
      var n := |cart| - 1;
      var e := cart[n];
      PendingCounts(cart[..n], customer, today, i);
      var unit := PendingRental(e.itemId, customer, today, today + Rentals.RentalPeriodDays);
      QueuedAppend(PendingRentals(cart[..n], customer, today), Repeat(unit, Units(e.quantity)), i);
      QueuedRepeat(unit, Units(e.quantity), i);
    }
  }

  /** Each rental row written is tied to the transaction, dated `today`,
      due a rental period later, not returned and not overdue. */
  lemma RentalRowContents(cart: seq<CartEntry>, customer: nat, tx: nat, today: Rentals.Date, k: nat)
    requires forall j :: 0 <= j < |cart| ==> cart[j].itemId >= 0
    requires k < |PendingRentals(cart, customer, today)|
    ensures var r := RentalRows(PendingRentals(cart, customer, today), tx, today)[k];
            r.transaction == Some(tx) && r.customer == customer &&
            r.item == PendingRentals(cart, customer, today)[k].item &&
            r.rentalDate == today && r.dueDate == Some(today + Rentals.RentalPeriodDays) &&
            !r.isReturned && r.returnDate.None? && r.daysOverdue.None? && !Rentals.IsOverdue(r, today)
  {
  }

  /** Every queued rental becomes an unreturned rental row of its item. */
  lemma {:induction false} RowsActive(ps: seq<PendingRental>, tx: nat, today: Rentals.Date, i: nat)
    ensures ActiveOf(RentalRows(ps, tx, today), i) == QueuedOf(ps, i)
  {
    if ps != [] {
      var n := |ps| - 1;
      RowsActive(ps[..n], tx, today, i);
      var rs := RentalRows(ps, tx, today);
      assert rs[..|rs| - 1] == RentalRows(ps[..n], tx, today);
    }
  }

  /** Units of an item in stock plus units of it rented out do not change
      under a rental of a cart with distinct item ids and positive
      quantities. */
  lemma RentalConservesStock(items: seq<Items.Item>, rentals: seq<Rentals.Rental>, cart: seq<CartEntry>,
                             customer: nat, tx: nat, today: Rentals.Date, i: nat)
    requires CartChecked(items, cart) && DistinctItems(cart) && i < |items|
    requires forall k :: 0 <= k < |cart| ==> cart[k].quantity > 0
    ensures ReduceAll(items, items, cart)[i].quantity +
            ActiveOf(rentals + RentalRows(PendingRentals(cart, customer, today), tx, today), i) ==
            items[i].quantity + ActiveOf(rentals, i)
  {
    assert forall k :: 0 <= k < |cart| ==> cart[k].itemId >= 0 by {
      forall k | 0 <= k < |cart| ensures cart[k].itemId >= 0 {
        assert LineError(items, cart[k]).None?;
      }
    }
    StockAfterDistinctCart(items, cart, i);
    var ps := PendingRentals(cart, customer, today);
    ActiveAppend(rentals, RentalRows(ps, tx, today), i);
    RowsActive(ps, tx, today, i);
    PendingCounts(cart, customer, today, i);
    UnitsAreQuantities(cart, i);
  }

  lemma {:induction false} UnitsAreQuantities(cart: seq<CartEntry>, i: nat)
    requires forall k :: 0 <= k < |cart| ==> cart[k].quantity > 0
    ensures ItemUnits(cart, i) == ItemQuantity(cart, i)
  {
    if cart != [] {
      var n := |cart| - 1;
      assert forall k :: 0 <= k < n ==> cart[..n][k] == cart[k];
      UnitsAreQuantities(cart[..n], i);
    }
  }

  // ---------------------------------------------------------------------
  // Returns

  /** Replacing one rental changes the count by what leaves and what
      enters. */
  lemma {:induction false} ActiveUpdate(rs: seq<Rentals.Rental>, j: nat, x: Rentals.Rental, i: nat)
    requires j < |rs|
    ensures ActiveOf(rs[j := x], i) + Out(rs[j], i) == ActiveOf(rs, i) + Out(x, i)
  {
    var n := |rs| - 1;
    if j == n {
      assert rs[j := x][..n] == rs[..n];
    } else {
      assert rs[j := x][..n] == rs[..n][j := x];
      ActiveUpdate(rs[..n], j, x, i);
    }
  }

  lemma DistinctPrefix(ids: seq<nat>)
    requires ids != [] && Ordering.Distinct(ids)
    ensures Ordering.Distinct(ids[..|ids| - 1]) && ids[|ids| - 1] !in ids[..|ids| - 1]
  {
    var n := |ids| - 1;
    assert ids == ids[..n] + [ids[n]];
    assert multiset(ids) == multiset(ids[..n]) + multiset{ids[n]};
    assert ids[n] in ids;
    assert multiset(ids[..n])[ids[n]] == 0;
    forall x | x in ids[..n] ensures multiset(ids[..n])[x] == 1 {
      assert x in ids;
    }
  }

  /** Marking distinct unreturned rentals returned takes exactly their
      units out of the rented-out count of each item. */
  lemma {:induction false} ReturnCounts(rentals: seq<Rentals.Rental>, ids: seq<nat>, today: Rentals.Date, i: nat)
    requires Ordering.Distinct(ids)
    requires forall k :: 0 <= k < |ids| ==> ids[k] < |rentals| && !rentals[ids[k]].isReturned
    ensures ActiveOf(ReturnAll(rentals, ids, today), i) + ReturnedUnits(rentals, ids, i) == ActiveOf(rentals, i)
  {
    if ids != [] {
      var n := |ids| - 1;
      DistinctPrefix(ids);
      ReturnCounts(rentals, ids[..n], today, i);
      var prev := ReturnAll(rentals, ids[..n], today);
      assert prev[ids[n]] == rentals[ids[n]];
      ActiveUpdate(prev, ids[n], Rentals.MarkAsReturned(rentals[ids[n]], Some(today), today), i);
    }
  }

  /** Units in stock plus units rented out do not change under a return. */
  lemma ReturnConservesStock(items: seq<Items.Item>, rentals: seq<Rentals.Rental>, customer: nat, itemIds: seq<int>,
                             today: Rentals.Date, i: nat)
    requires forall k :: 0 <= k < |rentals| ==> rentals[k].item < |items|
    requires i < |items|
    ensures var ids := ActiveMatching(rentals, customer, itemIds);
            RestockAll(items, rentals, ids)[i].quantity + ActiveOf(ReturnAll(rentals, ids, today), i) ==
            items[i].quantity + ActiveOf(rentals, i)
  {
    var ids := ActiveMatching(rentals, customer, itemIds);
    ReturnCounts(rentals, ids, today, i);
  }

  /** After a return, the same return finds nothing left to return. */
  lemma ReturnTwiceFindsNothing(rentals: seq<Rentals.Rental>, customer: nat, itemIds: seq<int>, today: Rentals.Date)
    ensures var ids := ActiveMatching(rentals, customer, itemIds);
            ActiveMatching(ReturnAll(rentals, ids, today), customer, itemIds) == []
  {
    var ids := ActiveMatching(rentals, customer, itemIds);
    var after := ReturnAll(rentals, ids, today);
    forall k: nat ensures !ReturnMatch(after, customer, itemIds, k) {
      if k < |rentals| && k !in ids {
        assert !ReturnMatch(rentals, customer, itemIds, k);
      }
    }
    NoMembersEmpty(ActiveMatching(after, customer, itemIds));
  }

  lemma NoMembersEmpty(s: seq<nat>)
    requires forall k: nat :: k !in s
    ensures s == []
  {
    forall x: nat ensures multiset(s)[x] == 0 {
      assert x !in s;
    }
    assert multiset(s) == multiset{};
    assert |s| == |multiset(s)|;
  }

  /** Returning one rental of an item returns every unreturned rental of
      that item the customer holds. */
  lemma ReturnTakesAllOfItem(rentals: seq<Rentals.Rental>, customer: nat, j: nat, k: nat)
    requires j < |rentals| && rentals[j].customer == customer && !rentals[j].isReturned
    requires k < |rentals| && rentals[k].customer == customer && !rentals[k].isReturned
    requires rentals[k].item == rentals[j].item
    ensures k in ActiveMatching(rentals, customer, [rentals[j].item as int])
  {
    assert ReturnMatch(rentals, customer, [rentals[j].item as int], k);
  }
}
