/** The return screen's handlers (`Returns.js`): looking up a customer's
    outstanding rentals, selecting some, and sending the ids of their items
    to be returned. */
module ReturnsScreen {
  import opened Wrappers
  import Cart
  import Rentals
  import TransactionService

  /** An outstanding rental as the screen lists it: its id and its item's. */
  datatype Outstanding = Outstanding(id: nat, itemId: int)

  /** `handleSearch`: a phone shorter than ten characters is refused. */
  function Search(phone: string): (r: Result<string, Cart.Notice>)
    ensures r.Success? <==> |phone| >= 10
    ensures r.Success? ==> r.value == phone
    ensures r.Failure? ==> r.error == Cart.InvalidPhone
  {
    if phone == "" || |phone| < 10 then Failure(Cart.InvalidPhone) else Success(phone)
  }

  /** `selection.filter(x => x !== id)`. */
  function Without(sel: seq<nat>, id: nat): (r: seq<nat>)
    ensures forall x :: x in r <==> x in sel && x != id
    ensures id !in sel ==> r == sel
  {
    if sel == [] then []
    else
      var rest := Without(sel[1..], id);
      assert forall x :: x in sel <==> x == sel[0] || x in sel[1..];
      if sel[0] == id then rest else [sel[0]] + rest
  }

  /** `toggleItem(id)`: drops a selected id, appends one not selected. */
  function Toggle(sel: seq<nat>, id: nat): (r: seq<nat>)
    ensures id in r <==> id !in sel
    ensures forall x :: x != id ==> (x in r <==> x in sel)
  {
    if id in sel then Without(sel, id) else sel + [id]
  }

  /** Toggling an unselected id twice restores the selection exactly. */
  lemma {:induction false} ToggleTwice(sel: seq<nat>, id: nat)
    requires id !in sel
    ensures Toggle(Toggle(sel, id), id) == sel
    decreases |sel|
  {
    WithoutAppended(sel, id);
  }

  lemma {:induction false} WithoutAppended(sel: seq<nat>, id: nat)
    requires id !in sel
    ensures Without(sel + [id], id) == sel
    decreases |sel|
  {
    if sel == [] {
      assert [id][1..] == [];
    } else {
      assert (sel + [id])[1..] == sel[1..] + [id];
      assert sel[1..] + [id] == (sel + [id])[1..];
      WithoutAppended(sel[1..], id);
      assert (sel + [id])[0] == sel[0];
    }
  }

  /** Toggling a selected id twice keeps the same ids selected. */
  lemma ToggleTwiceSelected(sel: seq<nat>, id: nat)
    requires id in sel
    ensures forall x :: x in Toggle(Toggle(sel, id), id) <==> x in sel
  {
  }

  /** The item ids of the listed rentals that are selected, in list order,
      repeated when several selected rentals share an item. */
  function ItemIdsToReturn(outstanding: seq<Outstanding>, selected: seq<nat>): (r: seq<int>)
    ensures |r| <= |outstanding|
    ensures forall k :: 0 <= k < |outstanding| && outstanding[k].id in selected ==> outstanding[k].itemId in r
    ensures forall x :: x in r ==> exists k :: 0 <= k < |outstanding| && outstanding[k].id in selected && outstanding[k].itemId == x
  {
    if outstanding == [] then []
    else
      var rest := ItemIdsToReturn(outstanding[1..], selected);
      assert forall k :: 1 <= k < |outstanding| ==> outstanding[k] == outstanding[1..][k - 1];
      var r := if outstanding[0].id in selected then [outstanding[0].itemId] + rest else rest;
      assert forall x :: x in r ==> exists k :: 0 <= k < |outstanding| && outstanding[k].id in selected && outstanding[k].itemId == x by {
        forall x | x in r
          ensures exists k :: 0 <= k < |outstanding| && outstanding[k].id in selected && outstanding[k].itemId == x
        {
          if x in rest {
            var k :| 0 <= k < |outstanding[1..]| && outstanding[1..][k].id in selected && outstanding[1..][k].itemId == x;
            assert outstanding[k + 1] == outstanding[1..][k];
          }
        }
      }
      r
  }

  /** `handleReturn`: an empty selection is refused and nothing sent;
      otherwise the request carries the phone and the selected rentals'
      item ids. */
  function Return(phone: string, outstanding: seq<Outstanding>, selected: seq<nat>): (r: Result<(string, seq<int>), Cart.Notice>)
    ensures r.Failure? <==> selected == []
    ensures r.Failure? ==> r.error == Cart.NothingSelected
    ensures r.Success? ==> r.value.0 == phone && r.value.1 == ItemIdsToReturn(outstanding, selected)
  {
    if selected == [] then Failure(Cart.NothingSelected) else Success((phone, ItemIdsToReturn(outstanding, selected)))
  }

  /** Selecting one rental of an item returns every active rental of that
      item the customer has: the request names items, not rentals, and the
      engine returns all of the customer's active rentals of those items. */
  lemma SelectingOneReturnsAll(rentals: seq<Rentals.Rental>, customer: nat, outstanding: seq<Outstanding>,
                               selected: seq<nat>, a: nat, other: nat)
    requires a < |outstanding| && outstanding[a].id in selected
    requires other < |rentals| && rentals[other].customer == customer && !rentals[other].isReturned
    requires rentals[other].item == outstanding[a].itemId
    ensures other in TransactionService.ActiveMatching(rentals, customer, ItemIdsToReturn(outstanding, selected))
  {
  }

  /** For instance: two active rentals of item 7, only the first selected,
      and both are returned. */
  lemma SelectingOneReturnsBoth()
    ensures var r := Rentals.Rental(None, 7, 0, 1, Some(8), None, false, None);
            var outstanding := [Outstanding(0, 7), Outstanding(1, 7)];
            var sent := Return("5551234567", outstanding, [0]);
            sent.Success? && sent.value.1 == [7] &&
            0 in TransactionService.ActiveMatching([r, r], 0, sent.value.1) &&
            1 in TransactionService.ActiveMatching([r, r], 0, sent.value.1)
  {
    var r := Rentals.Rental(None, 7, 0, 1, Some(8), None, false, None);
    var outstanding := [Outstanding(0, 7), Outstanding(1, 7)];
    assert ItemIdsToReturn(outstanding[1..], [0]) == [];
    var ids := TransactionService.ActiveMatching([r, r], 0, [7]);
    assert 0 in ids && 1 in ids;
  }
}
