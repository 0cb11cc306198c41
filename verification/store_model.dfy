/**
 The data held by the store service: store documents keyed by id, each with an
 ordered `storeItem` array and an ordered `reviews` array.
 */
module StoreModel {

  /** The `_id` of a store document, compared by plain equality. */
  type StoreId = string

  /** The `_id` of an entry of a store's `storeItem` array, compared by plain equality. */
  type ItemId = string

  /** A field value of an item; the mutation handlers never look inside it. */
  datatype Value = Text(text: string) | Number(number: int) | Flag(flag: bool) | Null

  /** The fields of an item other than `_id`, which an object holds only once. */
  type Fields = m: map<string, Value> | "_id" !in m witness map[]

  /** One entry of `storeItem`: its `_id` and every other field by name. */
  datatype Item = Item(id: ItemId, fields: Fields)

  /** One entry of `reviews`, built from the request body of addReview. */
  datatype Review = Review(userId: string, userName: string, rating: int, text: string)

  /** A store document. */
  datatype Store = Store(
    name: string,
    merchantId: string,
    location: string,
    items: seq<Item>,
    reviews: seq<Review>)

  /** The store collection of the database: store id to document. */
  type Db = map<StoreId, Store>

  /** Some entry of `s` has id `id`. */
  predicate HasId(s: seq<Item>, id: ItemId) {
    exists i :: 0 <= i < |s| && s[i].id == id
  }

  /** No two entries of `s` share an id. */
  predicate UniqueIds(s: seq<Item>) {
    forall i, j :: 0 <= i < j < |s| ==> s[i].id != s[j].id
  }

  /** The ids of `s`, in order. */
  function Ids(s: seq<Item>): seq<ItemId> {
    seq(|s|, i requires 0 <= i < |s| => s[i].id)
  }

  /** `st'` differs from `st` at most in its item array. */
  ghost predicate OnlyItemsChanged(st: Store, st': Store) {
    && st'.name == st.name
    && st'.merchantId == st.merchantId
    && st'.location == st.location
    && st'.reviews == st.reviews
  }

  /** `st'` differs from `st` at most in its review array. */
  ghost predicate OnlyReviewsChanged(st: Store, st': Store) {
    && st'.name == st.name
    && st'.merchantId == st.merchantId
    && st'.location == st.location
    && st'.items == st.items
  }

  /** `db'` holds the same store ids as `db`, and every store other than `id` is untouched. */
  ghost predicate OthersUnchanged(db: Db, db': Db, id: StoreId) {
    && db'.Keys == db.Keys
    && forall k :: k in db && k != id ==> db'[k] == db[k]
  }
}
