/** The inventory operations (`InventoryService`): listing, looking up and
    searching items, setting an item's stock, and checking availability.
    A missing row is `None` (the lookup raises). */
module InventoryService {
  import opened Wrappers
  import opened Text
  import Items
  import Ordering
  import Storage

  /** The items' default order as a key on row ids: legacy id ascending. */
  function ByLegacyId(items: seq<Items.Item>): nat -> int
  {
    (k: nat) => if k < |items| then items[k].legacyItemId else 0
  }

  predicate IsRow(items: seq<Items.Item>, k: nat)
  {
    k < |items|
  }

  /** `get_all_items`: every item once, by legacy id. */
  function AllItems(items: seq<Items.Item>): (r: seq<nat>)
    ensures forall k: nat :: k in r <==> k < |items|
    ensures Ordering.Distinct(r) && Ordering.SortedBy(r, ByLegacyId(items))
  {
    Ordering.Query(|items|, (k: nat) => IsRow(items, k), ByLegacyId(items))
  }

  /** `get_item_by_id` is `Storage.RowById` on the items table. */

  /** `get_item_by_legacy_id`: the id of the item with that legacy id. */
  function ItemByLegacyId(items: seq<Items.Item>, legacyId: int): (r: Option<nat>)
    ensures r.Some? ==> r.value < |items| && items[r.value].legacyItemId == legacyId
    ensures r.None? <==> forall k :: 0 <= k < |items| ==> items[k].legacyItemId != legacyId
  {
    var holds := (k: nat) => k < |items| && items[k].legacyItemId == legacyId;
    var r := Ordering.Find(|items|, holds);
    assert r.None? ==> forall k :: 0 <= k < |items| ==> items[k].legacyItemId != legacyId by {
      if r.None? {
        forall k | 0 <= k < |items| ensures items[k].legacyItemId != legacyId {
          assert !holds(k);
        }
      }
    }
    r
  }

  /** With legacy ids unique, the item found is the only one with that
      legacy id. */
  lemma ItemByLegacyIdUnique(items: seq<Items.Item>, legacyId: int, k: nat)
    requires Storage.UniqueLegacyIds(items)
    requires k < |items| && items[k].legacyItemId == legacyId
    ensures ItemByLegacyId(items, legacyId) == Some(k)
  {
    assert ItemByLegacyId(items, legacyId).Some?;
  }

  /** `icontains`: `q` occurs in `s` ignoring the case of ASCII letters. */
  predicate IContains(s: string, q: string)
  {
    Contains(Lower(s), Lower(q))
  }

  /** Item `k`'s name, or its legacy id written in decimal, contains the
      query ignoring case. */
  predicate SearchMatch(items: seq<Items.Item>, q: string, k: nat)
  {
    k < |items| && (IContains(items[k].name, q) || IContains(IntToString(items[k].legacyItemId), q))
  }

  /** `search_items`: the union of the name match and the legacy-id match,
      each item once, in the items' default order. */
  function SearchItems(items: seq<Items.Item>, q: string): (r: seq<nat>)
    ensures forall k: nat :: k in r <==> SearchMatch(items, q, k)
    ensures Ordering.Distinct(r) && Ordering.SortedBy(r, ByLegacyId(items))
  {
    Ordering.Query(|items|, (k: nat) => SearchMatch(items, q, k), ByLegacyId(items))
  }

  lemma LowerIdempotent(s: string)
    ensures Lower(Lower(s)) == Lower(s)
  {
  }

  /** The search ignores the case of the query, and an empty query matches
      every item. */
  lemma SearchIgnoresCase(items: seq<Items.Item>, q: string)
    ensures forall k: nat :: k in SearchItems(items, q) <==> k in SearchItems(items, Lower(q))
    ensures forall k: nat :: k in SearchItems(items, "") <==> k < |items|
  {
    LowerIdempotent(q);
    forall k: nat | k < |items| ensures SearchMatch(items, "", k) {
      assert [] <= Lower(items[k].name);
    }
  }

  /** `check_availability`: the item's stock covers the requested
      quantity. */
  function CheckAvailability(items: seq<Items.Item>, id: int, requested: int): (r: Option<bool>)
    ensures r.None? <==> !(0 <= id < |items|)
    ensures r.Some? ==> (r.value <==> items[id].quantity >= requested)
  {
    match Storage.RowById(items, id)
    case None => None
    case Some(item) => Some(Items.IsAvailable(item, requested))
  }

  /** `update_item_quantity`: sets the item's stock to exactly the given
      value, with no validation, and gives the updated item. */
  method UpdateItemQuantity(db: Storage.Database, id: int, newQuantity: int) returns (r: Option<Items.Item>)
    requires db.Valid()
    modifies db
    ensures db.Valid()
    ensures r.None? <==> !(0 <= id < |old(db.items)|)
    ensures r.None? ==> unchanged(db)
    ensures r.Some? ==>
              db.items == old(db.items)[id := old(db.items)[id].(quantity := newQuantity)] && r.value == db.items[id] &&
              (forall n :: CheckAvailability(db.items, id, n) == Some(newQuantity >= n))
    ensures db.employees == old(db.employees) && db.customers == old(db.customers) && db.coupons == old(db.coupons)
    ensures db.transactions == old(db.transactions) && db.lines == old(db.lines)
    ensures db.rentals == old(db.rentals) && db.auditLog == old(db.auditLog)
  {
    if !(0 <= id < |db.items|) {
      return None;
    }
    var item := db.items[id];
    item := item.(quantity := newQuantity);
    db.items := db.items[id := item];
    return Some(item);
  }
}
