/** The request validators for sales and rentals (`CreateSaleSerializer`,
    `CreateRentalSerializer`). A payload field that is absent or null is
    `None`. Each cart entry is a dictionary of integers, of which only the
    `item_id` and `quantity` keys matter here. */
module TransactionSerializer {
  import opened Wrappers
  import opened Text
  import TransactionService
  import Customers

  /** One cart entry of the payload. */
  datatype ItemDict = ItemDict(itemId: Option<int>, quantity: Option<int>)

  /** What validation reports, one entry per failing field. */
  datatype FieldError =
    | ItemsRequired
    | TooFewItems
    | MissingKeys
    | NonPositiveQuantity
    | PhoneRequired
    | PhoneBlank
    | PhoneTooLong

  /** What `validate_items` raises for one entry. */
  function EntryError(d: ItemDict): (r: Option<FieldError>)
    ensures r == Some(MissingKeys) <==> d.itemId.None? || d.quantity.None?
    ensures r == Some(NonPositiveQuantity) <==> d.itemId.Some? && d.quantity.Some? && d.quantity.value <= 0
    ensures r.None? <==> d.itemId.Some? && d.quantity.Some? && d.quantity.value > 0
  {
    if d.itemId.None? || d.quantity.None? then Some(MissingKeys)
    else if d.quantity.value <= 0 then Some(NonPositiveQuantity)
    else None
  }

  /** Every entry has both keys and a positive quantity. */
  predicate EntriesValid(items: seq<ItemDict>)
  {
    forall k :: 0 <= k < |items| ==> EntryError(items[k]).None?
  }

  /** The error of the first failing entry, if any. */
  function FirstEntryError(items: seq<ItemDict>): (r: Option<FieldError>)
    ensures r.None? <==> EntriesValid(items)
    ensures r.Some? ==> exists k :: 0 <= k < |items| && EntriesValid(items[..k]) && r == EntryError(items[k])
  {
    if items == [] then None
    else
      match EntryError(items[0])
      case Some(e) =>
        assert EntriesValid(items[..0]);
        Some(e)
      case None =>
        var rest := FirstEntryError(items[1..]);
        assert forall k :: 0 <= k < |items| - 1 ==> items[1..][k] == items[k + 1];
        if rest.Some? then
          var k :| 0 <= k < |items| - 1 && EntriesValid(items[1..][..k]) && rest == EntryError(items[1..][k]);
          assert EntriesValid(items[..k + 1]) by {
            forall j | 0 <= j < k + 1 ensures EntryError(items[j]).None? {
              if j > 0 {
                assert items[j] == items[1..][..k][j - 1];
              }
            }
          }
          rest
        else rest
  }

  /** `validate_items`: checks the entries in order, raising on the first
      one that lacks a key or has a quantity of 0 or less, and otherwise
      gives the list back unchanged. */
  method ValidateItems(items: seq<ItemDict>) returns (r: Result<seq<ItemDict>, FieldError>)
    ensures r.Success? <==> EntriesValid(items)
    ensures r.Success? ==> r.value == items
    ensures r.Failure? ==> Some(r.error) == FirstEntryError(items)
  {
    for k := 0 to |items|
      invariant EntriesValid(items[..k])
      invariant FirstEntryError(items) == FirstEntryError(items[k..])
    {
      assert items[k..][1..] == items[k + 1..];
      var e := EntryError(items[k]);
      if e.Some? {
        return Failure(e.value);
      }
      assert items[..k + 1] == items[..k] + [items[k]];
    }
    assert items[..|items|] == items;
    return Success(items);
  }

  /** The list field: required, at least one entry, then `validate_items`. */
  function ItemsFieldError(items: Option<seq<ItemDict>>): (r: Option<FieldError>)
    ensures items.None? ==> r == Some(ItemsRequired)
    ensures items.Some? && items.value == [] ==> r == Some(TooFewItems)
    ensures items.Some? && items.value != [] ==> r == FirstEntryError(items.value)
    ensures r.None? <==> items.Some? && items.value != [] && EntriesValid(items.value)
  {
    if items.None? then Some(ItemsRequired)
    else if items.value == [] then Some(TooFewItems)
    else FirstEntryError(items.value)
  }

  /** The cart the engine receives from validated entries. */
  function ToCart(items: seq<ItemDict>): (cart: seq<TransactionService.CartEntry>)
    requires EntriesValid(items)
    ensures |cart| == |items|
    ensures forall k :: 0 <= k < |items| ==>
              cart[k] == TransactionService.CartEntry(items[k].itemId.value, items[k].quantity.value) && cart[k].quantity > 0
  {
    if items == [] then []
    else
      assert EntryError(items[0]).None?;
      assert EntriesValid(items[1..]) by {
        forall k | 0 <= k < |items| - 1 ensures EntryError(items[1..][k]).None? {
          assert items[1..][k] == items[k + 1];
        }
      }
      [TransactionService.CartEntry(items[0].itemId.value, items[0].quantity.value)] + ToCart(items[1..])
  }

  /** A validated sale request: the cart and the coupon code as the engine
      receives it. */
  datatype SaleRequest = SaleRequest(cart: seq<TransactionService.CartEntry>, couponCode: Option<string>)

  /** `CreateSaleSerializer`: the items must pass; the coupon code may be
      absent, null or blank and is stripped of surrounding whitespace. */
  function ValidateSale(items: Option<seq<ItemDict>>, couponCode: Option<string>): (r: Result<SaleRequest, FieldError>)
    ensures r.Success? <==> ItemsFieldError(items).None?
    ensures r.Failure? ==> Some(r.error) == ItemsFieldError(items)
    ensures r.Success? ==>
              r.value.cart == ToCart(items.value) &&
              (forall k :: 0 <= k < |r.value.cart| ==> r.value.cart[k].quantity > 0) &&
              r.value.couponCode == (if couponCode.Some? then Some(Strip(couponCode.value)) else None)
  {
    match ItemsFieldError(items)
    case Some(e) => Failure(e)
    case None =>
      Success(SaleRequest(ToCart(items.value), if couponCode.Some? then Some(Strip(couponCode.value)) else None))
  }

  /** What the phone field reports: required, not blank once stripped, and
      at most 15 characters once stripped. */
  function PhoneFieldError(phone: Option<string>): (r: Option<FieldError>)
    ensures r.None? <==> phone.Some? && Strip(phone.value) != [] && |Strip(phone.value)| <= Customers.PhoneMaxLength
  {
    if phone.None? then Some(PhoneRequired)
    else if Strip(phone.value) == [] then Some(PhoneBlank)
    else if |Strip(phone.value)| > Customers.PhoneMaxLength then Some(PhoneTooLong)
    else None
  }

  /** A validated rental request: the stripped phone and the cart. */
  datatype RentalRequest = RentalRequest(phone: string, cart: seq<TransactionService.CartEntry>)

  /** `CreateRentalSerializer`: every field is checked and every failing
      field reported, the phone first. */
  function ValidateRental(phone: Option<string>, items: Option<seq<ItemDict>>): (r: Result<RentalRequest, seq<FieldError>>)
    ensures r.Success? <==> PhoneFieldError(phone).None? && ItemsFieldError(items).None?
    ensures r.Failure? ==>
              (forall e :: e in r.error <==> Some(e) == PhoneFieldError(phone) || Some(e) == ItemsFieldError(items)) &&
              1 <= |r.error| <= 2
    ensures r.Success? ==>
              r.value.phone == Strip(phone.value) && 1 <= |r.value.phone| <= Customers.PhoneMaxLength &&
              r.value.cart == ToCart(items.value)
  {
    var errors := (if PhoneFieldError(phone).Some? then [PhoneFieldError(phone).value] else []) +
                  (if ItemsFieldError(items).Some? then [ItemsFieldError(items).value] else []);
    if errors != [] then Failure(errors)
    else Success(RentalRequest(Strip(phone.value), ToCart(items.value)))
  }
}
