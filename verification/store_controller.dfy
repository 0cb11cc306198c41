/**
 The item and review handlers of the store controller, each one atomic step
 from the database before the request to the database after it, paired with
 what the handler sends back.
 */
module StoreController {
  import opened StoreModel
  import opened ItemCollection

  /**
   The exception a handler catches: `findOne` yields `null` for an unknown
   store id and reading `field` of it throws.
   */
  datatype Error = NullStore(field: string)

  /** What a handler sends back; `Silent` when it sends no response at all. */
  datatype Reply<T> = Sent(value: T) | Failed(error: Error) | Silent

  /** The database after the request and the handler's reply. */
  datatype Outcome<T> = Outcome(db: Db, reply: Reply<T>)

  /** The failure every item handler reports for a store id that does not resolve. */
  const MissingStore: Error := NullStore("storeItem")

  /** `findOneAndUpdate({_id: id}, {storeItem: items})`: only the item array of store `id` is written. */
  function WriteItems(db: Db, id: StoreId, items: seq<Item>): (db': Db)
    requires id in db
    ensures id in db' && db'[id].items == items
    ensures OthersUnchanged(db, db', id)
    ensures OnlyItemsChanged(db[id], db'[id])
  {
    db[id := db[id].(items := items)]
  }

  /** `findOneAndUpdate({_id: id}, {reviews: reviews})`: only the review array of store `id` is written. */
  function WriteReviews(db: Db, id: StoreId, reviews: seq<Review>): (db': Db)
    requires id in db
    ensures id in db' && db'[id].reviews == reviews
    ensures OthersUnchanged(db, db', id)
    ensures OnlyReviewsChanged(db[id], db'[id])
  {
    db[id := db[id].(reviews := reviews)]
  }

  /** getStoreItemCount: the length of the store's item array; nothing is written. */
  function GetStoreItemCount(db: Db, storeId: StoreId): (o: Outcome<nat>)
    ensures o.db == db
    ensures storeId in db ==> o.reply == Sent(|db[storeId].items|)
    ensures storeId !in db ==> o.reply == Failed(MissingStore)
  {
    if storeId !in db then Outcome(db, Failed(MissingStore))
    else Outcome(db, Sent(|db[storeId].items|))
  }

  /**
   addStoreItem: appends `item` to the store's item array, writes back only
   that array and replies with the updated store.
   */
  function AddStoreItem(db: Db, storeId: StoreId, item: Item): (o: Outcome<Store>)
    ensures storeId !in db ==> o == Outcome(db, Failed(MissingStore))
    ensures storeId in db ==>
      var before := db[storeId].items;
      && o.reply.Sent?
      && storeId in o.db
      && o.reply.value == o.db[storeId]
      && OthersUnchanged(db, o.db, storeId)
      && OnlyItemsChanged(db[storeId], o.db[storeId])
      && |o.db[storeId].items| == |before| + 1
      && (forall i :: 0 <= i < |before| ==> o.db[storeId].items[i] == before[i])
      && o.db[storeId].items[|before|] == item
  {
    if storeId !in db then Outcome(db, Failed(MissingStore))
    else
      var db' := WriteItems(db, storeId, db[storeId].items + [item]);
      Outcome(db', Sent(db'[storeId]))
  }

  /**
   modifyStoreItem: every item whose id equals `item.id` takes the fields of
   `item` over its own; every other item, and the order and number of items,
   stay as they were. Replies with the updated store.
   */
  function ModifyStoreItem(db: Db, storeId: StoreId, item: Item): (o: Outcome<Store>)
    ensures storeId !in db ==> o == Outcome(db, Failed(MissingStore))
    ensures storeId in db ==>
      var before := db[storeId].items;
      && o.reply.Sent?
      && storeId in o.db
      && o.reply.value == o.db[storeId]
      && OthersUnchanged(db, o.db, storeId)
      && OnlyItemsChanged(db[storeId], o.db[storeId])
      && |o.db[storeId].items| == |before|
      && (forall i :: 0 <= i < |before| && before[i].id != item.id ==>
            o.db[storeId].items[i] == before[i])
      && (forall i, k :: 0 <= i < |before| && before[i].id == item.id && k in item.fields ==>
            k in o.db[storeId].items[i].fields && o.db[storeId].items[i].fields[k] == item.fields[k])
      && (forall i, k :: 0 <= i < |before| && before[i].id == item.id && k !in item.fields ==>
            (k in o.db[storeId].items[i].fields <==> k in before[i].fields))
      && (forall i, k :: 0 <= i < |before| && before[i].id == item.id && k in before[i].fields && k !in item.fields ==>
            o.db[storeId].items[i].fields[k] == before[i].fields[k])
      && (forall i :: 0 <= i < |before| ==> o.db[storeId].items[i].id == before[i].id)
  {
    if storeId !in db then Outcome(db, Failed(MissingStore))
    else
      var db' := WriteItems(db, storeId, MergeMatching(db[storeId].items, item));
      Outcome(db', Sent(db'[storeId]))
  }

  /**
   deleteStoreItem: drops every item whose id is `itemId` and keeps the others
   in order; the written array is the filter `RemoveId`, whose order law is
   `StoreLaws.RemoveIdConcat`. Replies with the updated store.
   */
  function DeleteStoreItem(db: Db, storeId: StoreId, itemId: ItemId): (o: Outcome<Store>)
    ensures storeId !in db ==> o == Outcome(db, Failed(MissingStore))
    ensures storeId in db ==>
      var before := db[storeId].items;
      && o.reply.Sent?
      && storeId in o.db
      && o.reply.value == o.db[storeId]
      && OthersUnchanged(db, o.db, storeId)
      && OnlyItemsChanged(db[storeId], o.db[storeId])
      && !HasId(o.db[storeId].items, itemId)
      && (forall x :: x in o.db[storeId].items <==> x in before && x.id != itemId)
      && |o.db[storeId].items| == |before| - CountId(before, itemId)
      && o.db[storeId].items == RemoveId(before, itemId)
  {
    if storeId !in db then Outcome(db, Failed(MissingStore))
    else
      var db' := WriteItems(db, storeId, RemoveId(db[storeId].items, itemId));
      Outcome(db', Sent(db'[storeId]))
  }

  /**
   addReview: appends the review built from the request body to the store's
   review array and writes back only that array. The update is issued without
   `{ new: true }`, so the reply is the store as it was before the write. For an
   unknown store the callback never runs: nothing is written and no response is
   sent.
   */
  function AddReview(db: Db, storeId: StoreId, userId: string, userName: string, rating: int, text: string)
    : (o: Outcome<Store>)
    ensures storeId !in db ==> o == Outcome(db, Silent)
    ensures storeId in db ==>
      var before := db[storeId].reviews;
      && o.reply == Sent(db[storeId])
      && storeId in o.db
      && OthersUnchanged(db, o.db, storeId)
      && OnlyReviewsChanged(db[storeId], o.db[storeId])
      && |o.db[storeId].reviews| == |before| + 1
      && (forall i :: 0 <= i < |before| ==> o.db[storeId].reviews[i] == before[i])
      && o.db[storeId].reviews[|before|] == Review(userId, userName, rating, text)
  {
    if storeId !in db then Outcome(db, Silent)
    else Outcome(WriteReviews(db, storeId, db[storeId].reviews + [Review(userId, userName, rating, text)]), Sent(db[storeId]))
  }
}
