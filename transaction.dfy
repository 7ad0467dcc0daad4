/** A recorded transaction (`Transaction`, table `transactions`) and its
    lines (`TransactionItem`, table `transaction_items`). Amounts are exact
    rationals; the two-decimal rounding of the columns is not modelled. */
module Transactions {
  import opened Wrappers

  /** The three `transaction_type` choices. */
  datatype Kind = Sale | Rental | Return

  /** The tax rate a transaction records when none is given: 6%. */
  const DefaultTaxRate: real := 0.06

  /** `employee` is required; `customer` and `coupon_code` may be absent. */
  datatype Transaction = Transaction(
    kind: Kind,
    employee: nat,
    customer: Option<nat>,
    totalAmount: real,
    taxRate: real,
    discountApplied: bool,
    couponCode: Option<string>)

  datatype TransactionItem = TransactionItem(transaction: nat, item: nat, quantity: int, unitPrice: real, subtotal: real)

  /** A transaction with the column defaults: the default tax rate, no
      discount, no customer and no coupon. */
  function NewTransaction(kind: Kind, employee: nat, totalAmount: real): (t: Transaction)
    ensures t.kind == kind && t.employee == employee && t.totalAmount == totalAmount
    ensures t.taxRate == DefaultTaxRate && !t.discountApplied
    ensures t.customer.None? && t.couponCode.None?
  {
    Transaction(kind, employee, None, totalAmount, DefaultTaxRate, false, None)
  }

  /** The validator on `total_amount`: at least 0. */
  predicate TransactionFieldsValid(t: Transaction)
  {
    t.totalAmount >= 0.0
  }

  /** The validators on a line: quantity at least 1, price and subtotal at
      least 0. */
  predicate LineFieldsValid(l: TransactionItem)
  {
    l.quantity >= 1 && l.unitPrice >= 0.0 && l.subtotal >= 0.0
  }

  /** `TransactionItem.save()`: the stored subtotal is the unit price times
      the quantity, whatever subtotal was supplied. */
  function SaveLine(l: TransactionItem): (s: TransactionItem)
    ensures s.subtotal == l.unitPrice * l.quantity as real
    ensures s.transaction == l.transaction && s.item == l.item
    ensures s.quantity == l.quantity && s.unitPrice == l.unitPrice
    ensures l.quantity >= 1 && l.unitPrice >= 0.0 ==> LineFieldsValid(s)
  {
    var s := l.(subtotal := l.unitPrice * l.quantity as real);
    assert l.quantity >= 1 && l.unitPrice >= 0.0 ==> s.subtotal >= 0.0 by {
      if l.quantity >= 1 && l.unitPrice >= 0.0 {
        NonNegativeProduct(l.unitPrice, l.quantity as real);
      }
    }
    s
  }

  lemma NonNegativeProduct(a: real, b: real)
    requires a >= 0.0 && b >= 0.0
    ensures a * b >= 0.0
  {
  }

  /** After a save the line validators hold exactly when the quantity is at
      least 1 and the unit price at least 0. */
  lemma SavedLineValid(l: TransactionItem)
    ensures LineFieldsValid(SaveLine(l)) <==> l.quantity >= 1 && l.unitPrice >= 0.0
  {
  }

  /** Saving a line twice stores what saving it once stores, and the
      supplied subtotal never matters. */
  lemma SaveLineIgnoresSubtotal(l: TransactionItem, other: real)
    ensures SaveLine(SaveLine(l)) == SaveLine(l)
    ensures SaveLine(l.(subtotal := other)) == SaveLine(l)
  {
  }
}
