/**
 The array transforms the item handlers apply to a store's `storeItem` array:
 the field merge of `Object.assign`, the `map` of modifyStoreItem and the
 `filter` of deleteStoreItem.
 */
module ItemCollection {
  import opened StoreModel

  /**
   `Object.assign({}, cur, patch)` on items: every field of `patch` wins, every
   other field of `cur` is kept. The id stays `cur`'s; the handler only merges
   when the two ids are equal.
   */
  function Merge(cur: Item, patch: Item): (r: Item)
    ensures r.id == cur.id
    ensures r.fields.Keys == cur.fields.Keys + patch.fields.Keys
    ensures forall k :: k in patch.fields ==> r.fields[k] == patch.fields[k]
    ensures forall k :: k in cur.fields && k !in patch.fields ==> r.fields[k] == cur.fields[k]
  {
    Item(cur.id, cur.fields + patch.fields)
  }

  /** The number of entries of `s` whose id is `id`. */
  function CountId(s: seq<Item>, id: ItemId): (n: nat)
    ensures n <= |s|
    ensures n == 0 <==> !HasId(s, id)
  {
    if s == [] then 0
    else
      assert forall i :: 0 <= i < |s| - 1 ==> s[1..][i] == s[i + 1];
      (if s[0].id == id then 1 else 0) + CountId(s[1..], id)
  }

  /**
   The `map` of modifyStoreItem: every entry whose id equals the patch's id
   becomes the merge of that entry and the patch; every other entry is
   returned as it was.
   */
  function MergeMatching(s: seq<Item>, patch: Item): (r: seq<Item>)
    ensures |r| == |s|
    ensures forall i :: 0 <= i < |s| && s[i].id != patch.id ==> r[i] == s[i]
    ensures forall i :: 0 <= i < |s| && s[i].id == patch.id ==> r[i] == Merge(s[i], patch)
  {
    if s == [] then []
    else [if s[0].id == patch.id then Merge(s[0], patch) else s[0]] + MergeMatching(s[1..], patch)
  }

  /**
   The `filter` of deleteStoreItem: keeps exactly the entries whose id is not
   `id`, in their original order.
   */
  function RemoveId(s: seq<Item>, id: ItemId): (r: seq<Item>)
    ensures |r| == |s| - CountId(s, id)
    ensures forall x {:trigger x in r} :: x in r <==> x in s && x.id != id
    ensures !HasId(r, id)
  {
    if s == [] then []
    else if s[0].id == id then RemoveId(s[1..], id)
    else [s[0]] + RemoveId(s[1..], id)
  }
}
