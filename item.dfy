/** An inventory item (`Item`, table `items`) and its stock operations.
    `reduce_quantity` and `increase_quantity` change the instance and save
    it; here each is a function from the instance's fields to the new ones,
    paired with the Boolean the method returns, and the caller writes the
    new fields back to the table (the save). */
module Items {

  datatype Item = Item(legacyItemId: int, name: string, price: real, quantity: int)

  /** The field validators: price and quantity are at least 0. They run only
      on full validation, so nothing below assumes them. */
  predicate FieldsValid(it: Item)
  {
    it.price >= 0.0 && it.quantity >= 0
  }

  /** `is_available(requested)`: at least `requested` units are in stock. */
  predicate IsAvailable(it: Item, requested: int)
  {
    it.quantity >= requested
  }

  /** The instance after a stock method, and the Boolean the method returned. */
  datatype Outcome = Outcome(item: Item, ok: bool)

  /** `reduce_quantity(amount)`: takes `amount` units off the stock when that
      many are available and reports whether it did. */
  function ReduceQuantity(it: Item, amount: int): (r: Outcome)
    ensures r.ok <==> IsAvailable(it, amount)
    ensures r.ok ==> r.item.quantity + amount == it.quantity
    ensures !r.ok ==> r.item == it
    ensures r.item.legacyItemId == it.legacyItemId && r.item.name == it.name && r.item.price == it.price
    ensures it.quantity >= 0 ==> r.item.quantity >= 0
  {
    if it.quantity >= amount then Outcome(it.(quantity := it.quantity - amount), true)
    else Outcome(it, false)
  }

  /** `increase_quantity(amount)`: adds `amount` units, always succeeding. */
  function IncreaseQuantity(it: Item, amount: int): (r: Outcome)
    ensures r.ok
    ensures r.item.quantity - amount == it.quantity
    ensures r.item.legacyItemId == it.legacyItemId && r.item.name == it.name && r.item.price == it.price
    ensures it.quantity >= 0 && amount >= 0 ==> r.item.quantity >= 0
  {
    Outcome(it.(quantity := it.quantity + amount), true)
  }

  /** A successful reduction undone by an increase of the same amount gives
      back the original item. */
  lemma ReduceThenIncrease(it: Item, amount: int)
    requires ReduceQuantity(it, amount).ok
    ensures IncreaseQuantity(ReduceQuantity(it, amount).item, amount).item == it
  {
  }

  /** On non-negative stock, an increase followed by a reduction of the same
      amount succeeds and gives back the original item. */
  lemma IncreaseThenReduce(it: Item, amount: int)
    requires it.quantity >= 0
    ensures ReduceQuantity(IncreaseQuantity(it, amount).item, amount).ok
    ensures ReduceQuantity(IncreaseQuantity(it, amount).item, amount).item == it
  {
    assert IsAvailable(IncreaseQuantity(it, amount).item, amount);
  }

  /** `is_available` holds for every smaller request, and the stock methods
      shift it by their amount. */
  lemma AvailabilityShifts(it: Item, requested: int, amount: int)
    ensures IsAvailable(it, requested) && amount <= requested ==> IsAvailable(it, amount)
    ensures IsAvailable(IncreaseQuantity(it, amount).item, requested) <==> IsAvailable(it, requested - amount)
    ensures ReduceQuantity(it, amount).ok ==>
              (IsAvailable(ReduceQuantity(it, amount).item, requested) <==> IsAvailable(it, requested + amount))
  {
  }

  /** The stock methods with a non-negative amount keep the validators; an
      increase by a negative amount larger than the stock breaks them. */
  lemma StockUpdatesKeepValid(it: Item, amount: int)
    ensures FieldsValid(it) && amount >= 0 ==> FieldsValid(ReduceQuantity(it, amount).item)
    ensures FieldsValid(it) && amount >= 0 ==> FieldsValid(IncreaseQuantity(it, amount).item)
    ensures it.quantity + amount < 0 ==> !FieldsValid(IncreaseQuantity(it, amount).item)
  {
  }
}
