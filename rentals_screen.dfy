/** The rental screen's handlers (`Rentals.js`). Removing a line and
    changing a quantity are the cart's shared handlers; adding differs from
    the sale screen, and the checkout checks the phone and the stock before
    sending. `listed` is the item list the screen loaded. */
module RentalsScreen {
  import opened Wrappers
  import opened Text
  import opened Cart
  import Customers
  import TransactionSerializer

  /** `addToCart(item)`: an item with no stock is refused; an item already
      in the cart gets one more unit with no check against its stock; a new
      item is appended wanting one unit. */
  function AddToCart(cart: seq<Line>, item: Line): (r: Result<seq<Line>, Notice>)
    ensures r.Failure? <==> item.quantity <= 0
    ensures r.Failure? ==> r.error == OutOfStock
    ensures r.Success? ==> QuantityOf(r.value, item.id) == QuantityOf(cart, item.id) + 1
    ensures r.Success? ==> forall j :: j != item.id ==> FindById(r.value, j) == FindById(cart, j)
    ensures r.Success? && !HasId(cart, item.id) ==> r.value == cart + [item.(quantity := 1)]
  {
    if item.quantity <= 0 then Failure(OutOfStock)
    else if HasId(cart, item.id) then
      BumpFinds(cart, item.id);
      Success(Bump(cart, item.id))
    else
      AppendFinds(cart, item.(quantity := 1));
      Success(cart + [item.(quantity := 1)])
  }

  /** Adding keeps ids unique and every line wanting at least one unit. */
  lemma AddKeepsShape(cart: seq<Line>, item: Line)
    requires UniqueIds(cart) && Positive(cart)
    ensures AddToCart(cart, item).Success? ==> UniqueIds(AddToCart(cart, item).value) && Positive(AddToCart(cart, item).value)
  {
    var r := AddToCart(cart, item);
    if r.Success? {
      if HasId(cart, item.id) {
        SameIds(cart, item.id, 0);
      } else {
        var c := r.value;
        forall i, j | 0 <= i < j < |c| ensures c[i].id != c[j].id {
          if j == |cart| {
            assert c[i] == cart[i];
          }
        }
      }
    }
  }

  /** Adding can make the cart want more than the listed stock: one tent in
      stock, one in the cart, and adding it again wants two. */
  lemma AddCanExceedStock()
    ensures var tent := Line(1, "Tent", 5.0, 1);
            AddToCart([tent], tent) == Success([tent.(quantity := 2)]) &&
            !WithinStock([tent.(quantity := 2)], [tent])
  {
    var tent := Line(1, "Tent", 5.0, 1);
    assert HasId([tent], 1) by {
      assert [tent][0].id == 1;
    }
    assert FindById([tent], 1) == Some(tent);
    var bumped := Bump([tent], 1);
    assert |bumped| == 1 && bumped[0] == tent.(quantity := 2);
    assert bumped == [tent.(quantity := 2)];
  }

  /** Every line's item is in the list with enough stock. */
  predicate Stocked(cart: seq<Line>, listed: seq<Line>)
  {
    forall k :: 0 <= k < |cart| ==>
      FindById(listed, cart[k].id).Some? && cart[k].quantity <= FindById(listed, cart[k].id).value.quantity
  }

  /** The stock check for one line: its item is missing from the list, or
      the list shows less stock than the line wants. */
  function LineProblem(line: Line, listed: seq<Line>): (r: Option<Notice>)
    ensures r.None? <==> FindById(listed, line.id).Some? && line.quantity <= FindById(listed, line.id).value.quantity
    ensures r.Some? && FindById(listed, line.id).None? ==> r.value == ItemNotFound(line.name)
    ensures r.Some? && FindById(listed, line.id).Some? ==>
              r.value == InsufficientStock(line.name, FindById(listed, line.id).value.quantity, line.quantity)
  {
    match FindById(listed, line.id)
    case None => Some(ItemNotFound(line.name))
    case Some(item) =>
      if item.quantity < line.quantity then Some(InsufficientStock(line.name, item.quantity, line.quantity)) else None
  }

  /** The stock check's loop: the notice for the first line whose item is
      not in the list or has too little stock. */
  function FirstCartProblem(cart: seq<Line>, listed: seq<Line>): (r: Option<Notice>)
    ensures r.None? <==> Stocked(cart, listed)
    ensures r.Some? ==>
              exists k :: 0 <= k < |cart| && Stocked(cart[..k], listed) && r == LineProblem(cart[k], listed)
  {
    if cart == [] then None
    else if LineProblem(cart[0], listed).Some? then
      assert Stocked(cart[..0], listed);
      LineProblem(cart[0], listed)
    else
      var rest := FirstCartProblem(cart[1..], listed);
      assert forall k :: 0 <= k < |cart| - 1 ==> cart[1..][k] == cart[k + 1];
      if rest.Some? then
        var k :| 0 <= k < |cart| - 1 && Stocked(cart[1..][..k], listed) && rest == LineProblem(cart[1..][k], listed);
        assert Stocked(cart[..k + 1], listed) by {
          forall j | 0 <= j < k + 1
            ensures FindById(listed, cart[j].id).Some? && cart[j].quantity <= FindById(listed, cart[j].id).value.quantity
          {
            if j > 0 {
              assert cart[j] == cart[1..][..k][j - 1];
            }
          }
        }
        rest
      else rest
  }

  /** `handleCheckout`: a phone that is not 10 to 15 digits is refused,
      then an empty cart, then the first line the loaded list cannot cover;
      otherwise the request carries the phone and every line. */
  function Checkout(phone: string, cart: seq<Line>, listed: seq<Line>)
    : (r: Result<(string, seq<TransactionSerializer.ItemDict>), Notice>)
    ensures r.Success? <==> Customers.PhoneValid(phone) && cart != [] && Stocked(cart, listed)
    ensures !Customers.PhoneValid(phone) ==> r == Failure(InvalidPhone)
    ensures Customers.PhoneValid(phone) && cart == [] ==> r == Failure(CartEmpty)
    ensures Customers.PhoneValid(phone) && cart != [] && !Stocked(cart, listed) ==>
              r == Failure(FirstCartProblem(cart, listed).value)
    ensures r.Success? ==> r.value == (phone, Payload(cart))
  {
    if phone == "" || !Customers.PhoneValid(phone) then Failure(InvalidPhone)
    else if cart == [] then Failure(CartEmpty)
    else
      match FirstCartProblem(cart, listed)
      case Some(notice) => Failure(notice)
      case None => Success((phone, Payload(cart)))
  }

  /** A request the screen sends passes the server's checks, with the phone
      unchanged and the cart's ids and quantities. */
  lemma CheckoutAccepted(phone: string, cart: seq<Line>, listed: seq<Line>)
    requires Positive(cart)
    requires Checkout(phone, cart, listed).Success?
    ensures var req := Checkout(phone, cart, listed).value;
            var v := TransactionSerializer.ValidateRental(Some(req.0), Some(req.1));
            v.Success? && v.value.phone == phone
  {
    assert !IsWhitespace(phone[0]) && !IsWhitespace(phone[|phone| - 1]);
    StripUnchanged(phone);
    PayloadAccepted(cart);
  }

  /** The phone field keeps only the digits typed. */
  function PhoneInput(typed: string): (phone: string)
    ensures AllDigits(phone)
    ensures Customers.PhoneValid(phone) <==> 10 <= |phone| <= 15
  {
    DigitsOnly(typed)
  }
}
