/** The shopping cart the sale and rental screens keep: a list of lines,
    each an item as the item list shows it with `quantity` replaced by the
    number wanted. Every handler builds a new list from the old one; here
    each is a function from the old cart to the new cart or to the notice
    the screen shows instead (the cart then stays as it was). */
module Cart {
  import opened Wrappers
  import TransactionSerializer

  /** An item of the loaded item list (its stock in `quantity`), or a cart
      line (the number wanted in `quantity`). */
  datatype Line = Line(id: int, name: string, price: real, quantity: int)

  /** What a screen shows when it refuses an action. */
  datatype Notice =
    | OutOfStock
    | NotEnoughStock
    | CartEmpty
    | InvalidPhone
    | ItemNotFound(name: string)
    | InsufficientStock(name: string, available: int, requested: int)
    | NothingSelected

  predicate HasId(lines: seq<Line>, id: int)
  {
    exists k :: 0 <= k < |lines| && lines[k].id == id
  }

  /** No two lines share an id. */
  predicate UniqueIds(lines: seq<Line>)
  {
    forall i, j :: 0 <= i < j < |lines| ==> lines[i].id != lines[j].id
  }

  /** `lines.find(l => l.id === id)`: the first line with that id. */
  function FindById(lines: seq<Line>, id: int): (r: Option<Line>)
    ensures r.None? <==> !HasId(lines, id)
    ensures r.Some? ==> r.value in lines && r.value.id == id
  {
    if lines == [] then None
    else if lines[0].id == id then Some(lines[0])
    else
      var r := FindById(lines[1..], id);
      assert HasId(lines, id) ==> HasId(lines[1..], id) by {
        if HasId(lines, id) {
          var k :| 0 <= k < |lines| && lines[k].id == id;
          assert lines[1..][k - 1] == lines[k];
        }
      }
      assert HasId(lines[1..], id) ==> HasId(lines, id) by {
        if HasId(lines[1..], id) {
          var k :| 0 <= k < |lines[1..]| && lines[1..][k].id == id;
          assert lines[k + 1] == lines[1..][k];
        }
      }
      r
  }

  /** With unique ids the line found is the one at the id's position. */
  lemma FindByIdAt(lines: seq<Line>, k: nat)
    requires UniqueIds(lines) && k < |lines|
    ensures FindById(lines, lines[k].id) == Some(lines[k])
  {
    var r := FindById(lines, lines[k].id);
    var j :| 0 <= j < |lines| && lines[j] == r.value;
  }

  /** How many units of item `id` the cart holds (0 when no line has it). */
  function QuantityOf(cart: seq<Line>, id: int): int
  {
    match FindById(cart, id)
    case Some(l) => l.quantity
    case None => 0
  }

  /** Every line wants at least one unit. */
  predicate Positive(cart: seq<Line>)
  {
    forall k :: 0 <= k < |cart| ==> cart[k].quantity >= 1
  }

  /** No line wants more than the listed stock of its item; a line whose
      item is not in the list is not constrained. */
  predicate WithinStock(cart: seq<Line>, listed: seq<Line>)
  {
    forall k :: 0 <= k < |cart| && FindById(listed, cart[k].id).Some? ==>
      cart[k].quantity <= FindById(listed, cart[k].id).value.quantity
  }

  /** What the sale screen's handlers keep. */
  predicate Invariant(cart: seq<Line>, listed: seq<Line>)
  {
    UniqueIds(cart) && Positive(cart) && WithinStock(cart, listed)
  }

  /** `cart.filter(l => l.id !== id)`. */
  function Remove(cart: seq<Line>, id: int): (r: seq<Line>)
    ensures forall l :: l in r <==> l in cart && l.id != id
    ensures !HasId(r, id)
    ensures !HasId(cart, id) ==> r == cart
    ensures |r| <= |cart|
  {
    if cart == [] then []
    else
      var rest := Remove(cart[1..], id);
      assert cart == [cart[0]] + cart[1..];
      HasIdCons(cart[0], cart[1..], id);
      HasIdCons(cart[0], rest, id);
      if cart[0].id == id then rest else [cart[0]] + rest
  }

  /** A line has the id when the first one does or one of the others. */
  lemma HasIdCons(head: Line, rest: seq<Line>, id: int)
    ensures HasId([head] + rest, id) <==> head.id == id || HasId(rest, id)
  {
    var lines := [head] + rest;
    if HasId(rest, id) {
      var k :| 0 <= k < |rest| && rest[k].id == id;
      assert lines[k + 1] == rest[k];
    }
    if HasId(lines, id) && head.id != id {
      var k :| 0 <= k < |lines| && lines[k].id == id;
      assert lines[0] == head;
      assert rest[k - 1] == lines[k];
    }
  }

  /** Removing keeps ids unique. */
  lemma {:induction false} RemoveKeepsUnique(cart: seq<Line>, id: int)
    requires UniqueIds(cart)
    ensures UniqueIds(Remove(cart, id))
    decreases |cart|
  {
    if cart != [] {
      var head, rest := cart[0], Remove(cart[1..], id);
      RemoveKeepsUnique(cart[1..], id);
      if head.id != id {
        forall k | 0 <= k < |rest| ensures rest[k].id != head.id {
          assert rest[k] in cart[1..];
          var b :| 0 <= b < |cart[1..]| && cart[1..][b] == rest[k];
          assert cart[b + 1] == rest[k];
        }
        ConsUnique(head, rest);
      }
    }
  }

  /** A line whose id no other line has can go first. */
  lemma ConsUnique(head: Line, rest: seq<Line>)
    requires UniqueIds(rest) && !HasId(rest, head.id)
    ensures UniqueIds([head] + rest)
  {
    var r := [head] + rest;
    forall i, j | 0 <= i < j < |r| ensures r[i].id != r[j].id {
      assert r[j] == rest[j - 1];
      if i > 0 {
        assert r[i] == rest[i - 1];
      }
    }
  }

  /** Removing keeps the other lines in order: removing an id absent from a
      cart extended by one line removes that line alone. */
  lemma {:induction false} RemoveAppended(cart: seq<Line>, line: Line)
    requires !HasId(cart, line.id)
    ensures Remove(cart + [line], line.id) == cart
    decreases |cart|
  {
    if cart != [] {
      var c := cart + [line];
      assert c[0] == cart[0] && c[1..] == cart[1..] + [line];
      HasIdCons(cart[0], cart[1..], line.id);
      assert cart == [cart[0]] + cart[1..];
      RemoveAppended(cart[1..], line);
      assert Remove(c, line.id) == [cart[0]] + Remove(c[1..], line.id);
    } else {
      assert [line][1..] == [];
    }
  }

  /** Appending a line with a new id makes that id find it and changes
      nothing else. */
  lemma {:induction false} AppendFinds(cart: seq<Line>, line: Line)
    requires !HasId(cart, line.id)
    ensures FindById(cart + [line], line.id) == Some(line)
    ensures forall j :: j != line.id ==> FindById(cart + [line], j) == FindById(cart, j)
    decreases |cart|
  {
    if cart != [] {
      assert (cart + [line])[1..] == cart[1..] + [line];
      AppendFinds(cart[1..], line);
    } else {
      assert [line][1..] == [];
    }
  }

  /** The lines of `cart`, each line with `id` changed to want `q`
      (`cart.map(l => l.id === id ? {...l, quantity: q} : l)`). */
  function SetQuantity(cart: seq<Line>, id: int, q: int): (r: seq<Line>)
    ensures |r| == |cart|
    ensures forall k :: 0 <= k < |cart| ==> r[k] == if cart[k].id == id then cart[k].(quantity := q) else cart[k]
  {
    if cart == [] then [] else [if cart[0].id == id then cart[0].(quantity := q) else cart[0]] + SetQuantity(cart[1..], id, q)
  }

  /** The lines of `cart`, each line with `id` wanting one more unit. */
  function Bump(cart: seq<Line>, id: int): (r: seq<Line>)
    ensures |r| == |cart|
    ensures forall k :: 0 <= k < |cart| ==> r[k] == if cart[k].id == id then cart[k].(quantity := cart[k].quantity + 1) else cart[k]
  {
    if cart == [] then []
    else [if cart[0].id == id then cart[0].(quantity := cart[0].quantity + 1) else cart[0]] + Bump(cart[1..], id)
  }

  /** `updateQuantity(id, q)`: 0 or less removes the line; more than the
      listed stock of a listed item is refused; otherwise the line wants
      `q`. An item missing from the list is not checked. */
  function UpdateQuantity(cart: seq<Line>, listed: seq<Line>, id: int, q: int): (r: Result<seq<Line>, Notice>)
    ensures q <= 0 ==> r == Success(Remove(cart, id))
    ensures r.Failure? <==> q > 0 && FindById(listed, id).Some? && q > FindById(listed, id).value.quantity
    ensures r.Failure? ==> r.error == NotEnoughStock
    ensures r.Success? && q > 0 ==> QuantityOf(r.value, id) == (if HasId(cart, id) then q else 0)
    ensures r.Success? ==> forall j :: j != id ==> FindById(r.value, j) == FindById(cart, j)
  {
    if q <= 0 then
      var r := Remove(cart, id);
      RemoveOthers(cart, id);
      Success(r)
    else
      match FindById(listed, id)
      case Some(item) =>
        if q > item.quantity then Failure(NotEnoughStock)
        else
          SetQuantityFinds(cart, id, q);
          Success(SetQuantity(cart, id, q))
      case None =>
        SetQuantityFinds(cart, id, q);
        Success(SetQuantity(cart, id, q))
  }

  /** Removing one id leaves every other id's line as it was. */
  lemma {:induction false} RemoveOthers(cart: seq<Line>, id: int)
    ensures forall j :: j != id ==> FindById(Remove(cart, id), j) == FindById(cart, j)
    decreases |cart|
  {
    if cart != [] {
      RemoveOthers(cart[1..], id);
    }
  }

  /** Setting a quantity changes what the id finds, and only that. */
  lemma {:induction false} SetQuantityFinds(cart: seq<Line>, id: int, q: int)
    ensures FindById(SetQuantity(cart, id, q), id) == if HasId(cart, id) then Some(FindById(cart, id).value.(quantity := q)) else None
    ensures forall j :: j != id ==> FindById(SetQuantity(cart, id, q), j) == FindById(cart, j)
    decreases |cart|
  {
    if cart != [] {
      SetQuantityFinds(cart[1..], id, q);
      var r := SetQuantity(cart, id, q);
      assert r[1..] == SetQuantity(cart[1..], id, q);
    }
  }

  /** Bumping changes what the id finds, and only that. */
  lemma BumpFinds(cart: seq<Line>, id: int)
    ensures FindById(Bump(cart, id), id) ==
            if HasId(cart, id) then Some(FindById(cart, id).value.(quantity := FindById(cart, id).value.quantity + 1)) else None
    ensures forall j :: j != id ==> FindById(Bump(cart, id), j) == FindById(cart, j)
  {
    BumpFindsSame(cart, id);
    forall j | j != id ensures FindById(Bump(cart, id), j) == FindById(cart, j) {
      BumpFindsOther(cart, id, j);
    }
  }

  lemma {:induction false} BumpFindsSame(cart: seq<Line>, id: int)
    ensures FindById(Bump(cart, id), id) ==
            if HasId(cart, id) then Some(FindById(cart, id).value.(quantity := FindById(cart, id).value.quantity + 1)) else None
    decreases |cart|
  {
    if cart != [] {
      BumpFindsSame(cart[1..], id);
      var r := Bump(cart, id);
      assert r[1..] == Bump(cart[1..], id);
      if cart[0].id == id {
        assert FindById(cart, id) == Some(cart[0]);
        assert FindById(r, id) == Some(r[0]);
        assert r[0] == cart[0].(quantity := cart[0].quantity + 1);
      } else {
        assert FindById(cart, id) == FindById(cart[1..], id);
        assert HasId(cart, id) == HasId(cart[1..], id);
        assert FindById(r, id) == FindById(r[1..], id);
      }
    }
  }

  lemma {:induction false} BumpFindsOther(cart: seq<Line>, id: int, j: int)
    requires j != id
    ensures FindById(Bump(cart, id), j) == FindById(cart, j)
    decreases |cart|
  {
    if cart != [] {
      BumpFindsOther(cart[1..], id, j);
      var r := Bump(cart, id);
      assert r[1..] == Bump(cart[1..], id);
    }
  }

  /** The first line is found when it has the id; otherwise the search
      goes on with the others. */
  lemma FindByIdCons(head: Line, rest: seq<Line>, id: int)
    ensures FindById([head] + rest, id) == if head.id == id then Some(head) else FindById(rest, id)
  {
    assert ([head] + rest)[0] == head && ([head] + rest)[1..] == rest;
  }

  /** Neither `SetQuantity` nor `Bump` changes the ids. */
  lemma SameIds(cart: seq<Line>, id: int, q: int)
    ensures UniqueIds(cart) ==> UniqueIds(SetQuantity(cart, id, q)) && UniqueIds(Bump(cart, id))
  {
  }

  /** Each line becomes one entry of the request body:
      `{item_id: l.id, quantity: l.quantity}`. */
  function Payload(cart: seq<Line>): (r: seq<TransactionSerializer.ItemDict>)
    ensures |r| == |cart|
    ensures forall k :: 0 <= k < |cart| ==> r[k] == TransactionSerializer.ItemDict(Some(cart[k].id), Some(cart[k].quantity))
  {
    if cart == [] then [] else [TransactionSerializer.ItemDict(Some(cart[0].id), Some(cart[0].quantity))] + Payload(cart[1..])
  }

  /** A non-empty cart of positive lines passes the server's item checks,
      and reaches the engine as the same ids and quantities. */
  lemma PayloadAccepted(cart: seq<Line>)
    requires cart != [] && Positive(cart)
    ensures TransactionSerializer.ItemsFieldError(Some(Payload(cart))).None?
    ensures TransactionSerializer.EntriesValid(Payload(cart))
    ensures var engine := TransactionSerializer.ToCart(Payload(cart));
            |engine| == |cart| &&
            forall k :: 0 <= k < |cart| ==> engine[k].itemId == cart[k].id && engine[k].quantity == cart[k].quantity
  {
    var p := Payload(cart);
    assert TransactionSerializer.EntriesValid(p) by {
      forall k | 0 <= k < |p| ensures TransactionSerializer.EntryError(p[k]).None? {
        assert p[k] == TransactionSerializer.ItemDict(Some(cart[k].id), Some(cart[k].quantity));
      }
    }
  }
}
