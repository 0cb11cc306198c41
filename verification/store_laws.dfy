/**
 Laws relating the item transforms and the handlers to each other:
 idempotence, no-op cases, order preservation, commutation, id uniqueness and
 repeated requests.
 */
module StoreLaws {
  import opened StoreModel
  import opened ItemCollection
  import opened StoreController

  // ---- the filter of deleteStoreItem ----

  /** Filtering out an id that no entry carries gives back the same array. */
  lemma {:induction false} RemoveIdAbsent(s: seq<Item>, id: ItemId)
    requires !HasId(s, id)
    ensures RemoveId(s, id) == s
  {
    if s != [] {
      assert s[0].id != id;
      assert forall i :: 0 <= i < |s| - 1 ==> s[1..][i] == s[i + 1];
      RemoveIdAbsent(s[1..], id);
      assert s == [s[0]] + s[1..];
    }
  }

  /** A second filter with the same id removes nothing more. */
  lemma RemoveIdIdempotent(s: seq<Item>, id: ItemId)
    ensures RemoveId(RemoveId(s, id), id) == RemoveId(s, id)
  {
    RemoveIdAbsent(RemoveId(s, id), id);
  }

  /** The filter works piecewise, so the surviving entries keep their relative order. */
  lemma {:induction false} RemoveIdConcat(s: seq<Item>, t: seq<Item>, id: ItemId)
    ensures RemoveId(s + t, id) == RemoveId(s, id) + RemoveId(t, id)
  {
    if s == [] {
      assert s + t == t;
    } else {
      var st := s + t;
      assert st[0] == s[0] && st[1..] == s[1..] + t;
      RemoveIdConcat(s[1..], t, id);
      if s[0].id != id {
        calc {
          RemoveId(st, id);
          [s[0]] + RemoveId(s[1..] + t, id);
          [s[0]] + (RemoveId(s[1..], id) + RemoveId(t, id));
          ([s[0]] + RemoveId(s[1..], id)) + RemoveId(t, id);
        }
      }
    }
  }

  /** Dropping the first entry keeps ids unique. */
  lemma TailKeepsUniqueIds(s: seq<Item>)
    requires s != [] && UniqueIds(s)
    ensures UniqueIds(s[1..])
  {
    forall i, j | 0 <= i < j < |s[1..]| ensures s[1..][i].id != s[1..][j].id {
      assert s[1..][i] == s[i + 1] && s[1..][j] == s[j + 1];
    }
  }

  /** Dropping entries never creates a duplicate id. */
  lemma {:induction false} RemoveIdKeepsUniqueIds(s: seq<Item>, id: ItemId)
    requires UniqueIds(s)
    ensures UniqueIds(RemoveId(s, id))
  {
    if s != [] {
      TailKeepsUniqueIds(s);
      RemoveIdKeepsUniqueIds(s[1..], id);
      var rest := RemoveId(s[1..], id);
      if s[0].id == id {
        assert RemoveId(s, id) == rest;
      } else {
        var r := [s[0]] + rest;
        assert RemoveId(s, id) == r;
        forall i, j | 0 <= i < j < |r| ensures r[i].id != r[j].id {
          if i == 0 {
            assert r[j] == rest[j - 1] && rest[j - 1] in rest;
            assert r[j] in s[1..];
            var m :| 0 <= m < |s[1..]| && s[1..][m] == r[j];
            assert s[m + 1] == r[j];
          } else {
            assert r[i] == rest[i - 1] && r[j] == rest[j - 1];
          }
        }
      }
    }
  }

  // ---- the map of modifyStoreItem ----

  /** Merging in a patch whose id no entry carries gives back the same array. */
  lemma MergeMatchingAbsent(s: seq<Item>, patch: Item)
    requires !HasId(s, patch.id)
    ensures MergeMatching(s, patch) == s
  {
    var r := MergeMatching(s, patch);
    forall i | 0 <= i < |s| ensures r[i] == s[i] {
      assert s[i].id != patch.id;
    }
  }

  /** Applying the same patch twice is the same as applying it once. */
  lemma MergeMatchingIdempotent(s: seq<Item>, patch: Item)
    ensures MergeMatching(MergeMatching(s, patch), patch) == MergeMatching(s, patch)
  {
    var r := MergeMatching(s, patch);
    var r2 := MergeMatching(r, patch);
    forall i | 0 <= i < |s| ensures r2[i] == r[i] {
      if s[i].id == patch.id {
        assert (s[i].fields + patch.fields) + patch.fields == s[i].fields + patch.fields;
      }
    }
  }

  /** The map never changes an id, so a collection with unique ids keeps them unique. */
  lemma MergeMatchingKeepsIds(s: seq<Item>, patch: Item)
    ensures Ids(MergeMatching(s, patch)) == Ids(s)
    ensures UniqueIds(s) ==> UniqueIds(MergeMatching(s, patch))
  {
    var r := MergeMatching(s, patch);
    assert forall i :: 0 <= i < |s| ==> r[i].id == s[i].id;
  }

  /** Deleting an id after patching it is the same as deleting it straight away. */
  lemma {:induction false} RemoveAfterMerge(s: seq<Item>, patch: Item)
    ensures RemoveId(MergeMatching(s, patch), patch.id) == RemoveId(s, patch.id)
  {
    if s != [] {
      var m := MergeMatching(s, patch);
      assert m[1..] == MergeMatching(s[1..], patch);
      RemoveAfterMerge(s[1..], patch);
    }
  }

  /** Patching one id and deleting another id commute. */
  lemma {:induction false} RemoveMergeCommute(s: seq<Item>, patch: Item, id: ItemId)
    requires id != patch.id
    ensures RemoveId(MergeMatching(s, patch), id) == MergeMatching(RemoveId(s, id), patch)
  {
    if s != [] {
      var m := MergeMatching(s, patch);
      assert m[1..] == MergeMatching(s[1..], patch);
      assert m[0].id == s[0].id;
      RemoveMergeCommute(s[1..], patch, id);
      if s[0].id != id {
        var t := [s[0]] + RemoveId(s[1..], id);
        assert t[0] == s[0] && t[1..] == RemoveId(s[1..], id);
      }
    }
  }

  // ---- the append of addStoreItem ----

  /** Appending to a collection with unique ids keeps them unique exactly when the new id is fresh. */
  lemma AppendKeepsUniqueIds(s: seq<Item>, x: Item)
    requires UniqueIds(s)
    ensures UniqueIds(s + [x]) <==> !HasId(s, x.id)
  {
    var r := s + [x];
    if HasId(s, x.id) {
      var i :| 0 <= i < |s| && s[i].id == x.id;
      assert r[i].id == r[|s|].id;
    }
  }

  // ---- handlers ----

  /** A second deleteStoreItem with the same ids writes nothing new and sends the same reply. */
  lemma DeleteStoreItemTwice(db: Db, storeId: StoreId, itemId: ItemId)
    ensures DeleteStoreItem(DeleteStoreItem(db, storeId, itemId).db, storeId, itemId)
         == DeleteStoreItem(db, storeId, itemId)
  {
    if storeId in db {
      RemoveIdIdempotent(db[storeId].items, itemId);
    }
  }

  /**
   deleteStoreItem filters each part of the old item array on its own, so the
   surviving items keep their relative order and their multiplicity.
   */
  lemma DeleteStoreItemKeepsOrder(db: Db, storeId: StoreId, itemId: ItemId, t: seq<Item>, u: seq<Item>)
    requires storeId in db && db[storeId].items == t + u
    ensures DeleteStoreItem(db, storeId, itemId).db[storeId].items
         == RemoveId(t, itemId) + RemoveId(u, itemId)
  {
    RemoveIdConcat(t, u, itemId);
  }

  /** modifyStoreItem with an id no item carries leaves the database exactly as it was. */
  lemma ModifyUnknownItemKeepsDb(db: Db, storeId: StoreId, item: Item)
    requires storeId in db && !HasId(db[storeId].items, item.id)
    ensures ModifyStoreItem(db, storeId, item).db == db
    ensures ModifyStoreItem(db, storeId, item).reply == Sent(db[storeId])
  {
    MergeMatchingAbsent(db[storeId].items, item);
    assert db[storeId].(items := db[storeId].items) == db[storeId];
    assert db[storeId := db[storeId]] == db;
  }

  /** Sending the same modifyStoreItem request twice has the effect of sending it once. */
  lemma ModifyStoreItemTwice(db: Db, storeId: StoreId, item: Item)
    ensures ModifyStoreItem(ModifyStoreItem(db, storeId, item).db, storeId, item)
         == ModifyStoreItem(db, storeId, item)
  {
    if storeId in db {
      MergeMatchingIdempotent(db[storeId].items, item);
    }
  }

  /** The item handlers keep item ids unique, except addStoreItem with an id already present. */
  lemma HandlersKeepUniqueIds(db: Db, storeId: StoreId, item: Item, itemId: ItemId)
    requires storeId in db && UniqueIds(db[storeId].items)
    ensures UniqueIds(ModifyStoreItem(db, storeId, item).db[storeId].items)
    ensures UniqueIds(DeleteStoreItem(db, storeId, itemId).db[storeId].items)
    ensures UniqueIds(AddStoreItem(db, storeId, item).db[storeId].items)
        <==> !HasId(db[storeId].items, item.id)
  {
    MergeMatchingKeepsIds(db[storeId].items, item);
    RemoveIdKeepsUniqueIds(db[storeId].items, itemId);
    AppendKeepsUniqueIds(db[storeId].items, item);
  }

  /** The count reported after an add, a modify or a delete, in terms of the count before it. */
  lemma CountAfterMutations(db: Db, storeId: StoreId, item: Item, itemId: ItemId)
    requires storeId in db
    ensures GetStoreItemCount(AddStoreItem(db, storeId, item).db, storeId).reply
         == Sent(|db[storeId].items| + 1)
    ensures GetStoreItemCount(ModifyStoreItem(db, storeId, item).db, storeId).reply
         == Sent(|db[storeId].items|)
    ensures GetStoreItemCount(DeleteStoreItem(db, storeId, itemId).db, storeId).reply
         == Sent(|db[storeId].items| - CountId(db[storeId].items, itemId))
  {
  }

  /** The database after a series of addStoreItem requests for one store, handled one after another. */
  function AddStoreItemsInTurn(db: Db, storeId: StoreId, xs: seq<Item>): Db
    decreases |xs|
  {
    if xs == [] then db
    else AddStoreItemsInTurn(AddStoreItem(db, storeId, xs[0]).db, storeId, xs[1..])
  }

  /**
   Handled one after another, a series of addStoreItem requests loses none of
   its items: they all end up after the old items, in request order.
   */
  lemma {:induction false} AddStoreItemsInTurnKeepsAll(db: Db, storeId: StoreId, xs: seq<Item>)
    requires storeId in db
    ensures var db' := AddStoreItemsInTurn(db, storeId, xs);
      && OthersUnchanged(db, db', storeId)
      && storeId in db'
      && OnlyItemsChanged(db[storeId], db'[storeId])
      && db'[storeId].items == db[storeId].items + xs
  {
    if xs != [] {
      var db1 := AddStoreItem(db, storeId, xs[0]).db;
      AddStoreItemsInTurnKeepsAll(db1, storeId, xs[1..]);
      assert db1[storeId].items == db[storeId].items + [xs[0]];
      assert db[storeId].items + [xs[0]] + xs[1..] == db[storeId].items + xs by {
        assert [xs[0]] + xs[1..] == xs;
      }
    }
  }

  /** The database after a series of addReview requests for one store, handled one after another. */
  function AddReviewsInTurn(db: Db, storeId: StoreId, rs: seq<Review>): Db
    decreases |rs|
  {
    if rs == [] then db
    else
      var r := rs[0];
      AddReviewsInTurn(AddReview(db, storeId, r.userId, r.userName, r.rating, r.text).db, storeId, rs[1..])
  }

  /**
   Handled one after another, a series of addReview requests appends every
   review after the old ones, in request order, and leaves the items and the
   other stores alone.
   */
  lemma {:induction false} AddReviewsInTurnKeepsAll(db: Db, storeId: StoreId, rs: seq<Review>)
    requires storeId in db
    ensures var db' := AddReviewsInTurn(db, storeId, rs);
      && OthersUnchanged(db, db', storeId)
      && storeId in db'
      && OnlyReviewsChanged(db[storeId], db'[storeId])
      && db'[storeId].reviews == db[storeId].reviews + rs
  {
    if rs != [] {
      var r := rs[0];
      var db1 := AddReview(db, storeId, r.userId, r.userName, r.rating, r.text).db;
      AddReviewsInTurnKeepsAll(db1, storeId, rs[1..]);
      assert db1[storeId].reviews == db[storeId].reviews + [r];
      assert db[storeId].reviews + [r] + rs[1..] == db[storeId].reviews + rs by {
        assert [r] + rs[1..] == rs;
      }
    }
  }
}
