/** The sale screen's cart handlers (`Sales.js`). `listed` is the item list
    the screen loaded; the item clicked is one of its entries. */
module SalesScreen {
  import opened Wrappers
  import opened Cart
  import TransactionSerializer

  /** `addToCart(item)`: an item with no stock is refused; an item already
      in the cart gets one more unit unless the cart already wants all of
      its stock; a new item is appended wanting one unit. */
  function AddToCart(cart: seq<Line>, item: Line): (r: Result<seq<Line>, Notice>)
    ensures item.quantity <= 0 ==> r == Failure(OutOfStock)
    ensures r.Failure? <==> item.quantity <= 0 || (HasId(cart, item.id) && QuantityOf(cart, item.id) >= item.quantity)
    ensures r.Success? ==> QuantityOf(r.value, item.id) == QuantityOf(cart, item.id) + 1
    ensures r.Success? ==> forall j :: j != item.id ==> FindById(r.value, j) == FindById(cart, j)
    ensures r.Success? && !HasId(cart, item.id) ==> r.value == cart + [item.(quantity := 1)]
  {
    if item.quantity <= 0 then Failure(OutOfStock)
    else
      match FindById(cart, item.id)
      case Some(existing) =>
        if existing.quantity >= item.quantity then Failure(NotEnoughStock)
        else
          BumpFinds(cart, item.id);
          Success(Bump(cart, item.id))
      case None =>
        AppendFinds(cart, item.(quantity := 1));
        Success(cart + [item.(quantity := 1)])
  }

  /** Adding, then removing the same new item gives the cart back. */
  lemma AddThenRemove(cart: seq<Line>, item: Line)
    requires item.quantity > 0 && !HasId(cart, item.id)
    ensures AddToCart(cart, item).Success?
    ensures Remove(AddToCart(cart, item).value, item.id) == cart
  {
    RemoveAppended(cart, item.(quantity := 1));
  }

  /** Adding a listed item keeps the cart's invariant: unique ids, every
      line wanting at least one unit, none more than its listed stock. */
  lemma AddKeepsInvariant(cart: seq<Line>, listed: seq<Line>, k: nat)
    requires UniqueIds(listed) && k < |listed|
    requires Invariant(cart, listed)
    ensures AddToCart(cart, listed[k]).Success? ==> Invariant(AddToCart(cart, listed[k]).value, listed)
  {
    var item := listed[k];
    FindByIdAt(listed, k);
    if AddToCart(cart, item).Success? {
      if HasId(cart, item.id) {
        BumpKeepsInvariant(cart, listed, item);
      } else {
        AppendKeepsInvariant(cart, listed, item);
      }
    }
  }

  lemma BumpKeepsInvariant(cart: seq<Line>, listed: seq<Line>, item: Line)
    requires Invariant(cart, listed) && HasId(cart, item.id)
    requires FindById(listed, item.id) == Some(item) && QuantityOf(cart, item.id) < item.quantity
    ensures Invariant(Bump(cart, item.id), listed)
  {
    var c := Bump(cart, item.id);
    SameIds(cart, item.id, 0);
    forall j | 0 <= j < |c| && c[j].id == item.id ensures c[j].quantity <= item.quantity {
      FindByIdAt(cart, j);
    }
  }

  lemma AppendKeepsInvariant(cart: seq<Line>, listed: seq<Line>, item: Line)
    requires Invariant(cart, listed) && !HasId(cart, item.id)
    requires FindById(listed, item.id) == Some(item) && item.quantity >= 1
    ensures Invariant(cart + [item.(quantity := 1)], listed)
  {
    var c := cart + [item.(quantity := 1)];
    forall i, j | 0 <= i < j < |c| ensures c[i].id != c[j].id {
      if j == |cart| {
        assert c[i] == cart[i];
      }
    }
  }

  /** Changing a quantity keeps the same invariant. */
  lemma UpdateKeepsInvariant(cart: seq<Line>, listed: seq<Line>, id: int, q: int)
    requires Invariant(cart, listed)
    ensures UpdateQuantity(cart, listed, id, q).Success? ==> Invariant(UpdateQuantity(cart, listed, id, q).value, listed)
  {
    var r := UpdateQuantity(cart, listed, id, q);
    if r.Success? {
      if q <= 0 {
        var c := r.value;
        assert forall k :: 0 <= k < |c| ==> c[k] in cart;
        RemoveKeepsUnique(cart, id);
        forall k | 0 <= k < |c| ensures c[k].quantity >= 1 {
          var a :| 0 <= a < |cart| && cart[a] == c[k];
        }
        forall k | 0 <= k < |c| && FindById(listed, c[k].id).Some?
          ensures c[k].quantity <= FindById(listed, c[k].id).value.quantity
        {
          var a :| 0 <= a < |cart| && cart[a] == c[k];
        }
      } else {
        SameIds(cart, id, q);
      }
    }
  }

  /** `handleCheckout`: an empty cart is refused before any request;
      otherwise the request carries every line and the coupon code, an
      empty code being sent as none. */
  function Checkout(cart: seq<Line>, couponCode: string): (r: Result<(seq<TransactionSerializer.ItemDict>, Option<string>), Notice>)
    ensures r.Failure? <==> cart == []
    ensures r.Failure? ==> r.error == CartEmpty
    ensures r.Success? ==> r.value.0 == Payload(cart) && (r.value.1.None? <==> couponCode == "")
    ensures r.Success? && couponCode != "" ==> r.value.1 == Some(couponCode)
  {
    if cart == [] then Failure(CartEmpty)
    else Success((Payload(cart), if couponCode == "" then None else Some(couponCode)))
  }

  /** A request the screen sends from a cart it built passes the server's
      checks, which hand the engine the cart's ids and quantities. */
  lemma CheckoutAccepted(cart: seq<Line>, listed: seq<Line>, couponCode: string)
    requires Invariant(cart, listed)
    requires Checkout(cart, couponCode).Success?
    ensures var req := Checkout(cart, couponCode).value;
            TransactionSerializer.ValidateSale(Some(req.0), req.1).Success?
  {
    PayloadAccepted(cart);
  }
}
