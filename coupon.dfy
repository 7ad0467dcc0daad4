/** A discount coupon (`Coupon`, table `coupons`). Times are whole numbers
    on one clock; `now` is a parameter. Amounts are exact rationals, so the
    float conversion of `apply_discount` is not modelled. */
module Coupons {
  import opened Wrappers

  datatype Coupon = Coupon(code: string, discountPercentage: real, isActive: bool, expiresAt: Option<int>)

  /** The percentage a coupon gets when none is given. */
  const DefaultDiscountPercentage: real := 10.0

  /** The percentage validators: between 0 and 100 inclusive. */
  predicate FieldsValid(c: Coupon)
  {
    0.0 <= c.discountPercentage <= 100.0
  }

  /** `is_valid()`: active, and not past an expiry time if one is set. */
  function IsValid(c: Coupon, now: int): (r: bool)
    ensures !c.isActive ==> !r
    ensures c.isActive ==> (r <==> c.expiresAt.None? || now <= c.expiresAt.value)
  {
    if !c.isActive then false
    else if c.expiresAt.Some? && c.expiresAt.value < now then false
    else true
  }

  /** `apply_discount(amount)`: the amount less the coupon's percentage of
      it when the coupon is valid, the amount itself otherwise. */
  function ApplyDiscount(c: Coupon, amount: real, now: int): (r: real)
    ensures !IsValid(c, now) ==> r == amount
    ensures IsValid(c, now) ==> r * 100.0 == amount * (100.0 - c.discountPercentage)
    ensures FieldsValid(c) && amount >= 0.0 ==> 0.0 <= r <= amount
    ensures IsValid(c, now) && c.discountPercentage == 0.0 ==> r == amount
    ensures IsValid(c, now) && c.discountPercentage == 100.0 ==> r == 0.0
  {
    if !IsValid(c, now) then amount
    else
      DiscountedFacts(amount, c.discountPercentage);
      Discounted(amount, c.discountPercentage)
  }

  /** `amount` less `pct` percent of it. */
  function Discounted(amount: real, pct: real): real
  {
    amount - amount * (pct / 100.0)
  }

  lemma DiscountedFacts(amount: real, pct: real)
    ensures Discounted(amount, pct) * 100.0 == amount * (100.0 - pct)
    ensures 0.0 <= pct <= 100.0 && amount >= 0.0 ==> 0.0 <= Discounted(amount, pct) <= amount
    ensures pct == 0.0 ==> Discounted(amount, pct) == amount
    ensures pct == 100.0 ==> Discounted(amount, pct) == 0.0
  {
    assert amount * (pct / 100.0) * 100.0 == amount * pct;
    if 0.0 <= pct <= 100.0 && amount >= 0.0 {
      assert 0.0 <= pct / 100.0 <= 1.0;
      assert amount * (pct / 100.0) <= amount * 1.0;
    }
  }

  /** The percentage validators accept exactly the percentages with which
      an applicable coupon never raises an amount or takes it below 0. */
  lemma FieldsValidExactly(c: Coupon, now: int)
    ensures FieldsValid(c) <==>
              forall amount: real :: amount >= 0.0 ==>
                0.0 <= ApplyDiscount(c.(isActive := true, expiresAt := None), amount, now) <= amount
  {
    var a := c.(isActive := true, expiresAt := None);
    assert IsValid(a, now);
    var r := ApplyDiscount(a, 1.0, now);
    assert r * 100.0 == 100.0 - c.discountPercentage;
  }

  /** A valid coupon with the default percentage takes a tenth off any
      amount; an invalid one leaves it as it is. */
  lemma DefaultDiscountTakesTenth(c: Coupon, amount: real, now: int)
    requires c.discountPercentage == DefaultDiscountPercentage
    ensures IsValid(c, now) ==> ApplyDiscount(c, amount, now) == amount * 0.9
    ensures !IsValid(c, now) ==> ApplyDiscount(c, amount, now) == amount
  {
  }
}
