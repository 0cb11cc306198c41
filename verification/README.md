# Store service: item and review mutations

This project models the part of the store service that edits the collections
nested inside a store document: the `storeItem` array (add, modify, delete,
count) and the `reviews` array (append). The handlers live in
`backend/storeService/controller/storeController.js`. Each handler reads one
store document by id, computes a new array from the old one and writes back
only that array.

Here the database is a `map<StoreId, Store>`. Each handler is a pure function
from the database before the request to an `Outcome`: the database after the
request plus the reply. The reply is `Sent(value)`, `Failed(NullStore(field))`
or `Silent`. `Failed(NullStore(field))` stands for the caught `TypeError` that
comes from reading a field of the `null` store. `Silent` means no response is
sent at all. Item and store ids are strings compared by plain equality. An
item is its id plus a map from field name to value, so `Object.assign` becomes
a map override.

Modules:
- `StoreModel` (`store_model.dfy`): the data model and the shared predicates.
- `ItemCollection` (`item_collection.dfy`): the field merge, the `map` of
  modifyStoreItem and the `filter` of deleteStoreItem.
- `StoreController` (`store_controller.dfy`): the five handlers.
- `StoreLaws` (`store_laws.dfy`): the laws that relate operations to each
  other.

Three facts about the code shape the model:
- There is no version check, retry or conflict error. Each handler reads the
  store, then overwrites one array field unconditionally.
- addStoreItem does not check whether the new item's id is already present,
  so item ids can repeat. `StoreLaws.HandlersKeepUniqueIds` states exactly
  when ids stay unique.
- addReview sends no response at all for an unknown store; it does not
  report not-found.

An item's other fields never include `_id`, because a JavaScript object holds
that key only once; the `Fields` type enforces this.

## Model

| member | source | states |
|---|---|---|
| `ItemCollection.Merge` | backend/storeService/controller/storeController.js:172-174 | merging a matched item keeps its id; its field names are the union of both; every field of the payload wins; every other old field keeps its value |
| `ItemCollection.CountId` | backend/storeService/controller/storeController.js:204 | the number of items a delete removes is at most the length and is zero exactly when no item carries the id |
| `ItemCollection.MergeMatching` | backend/storeService/controller/storeController.js:171-179 | the modify map keeps length and positions; items with another id come back unchanged; items with the payload's id become the merge with the payload |
| `ItemCollection.RemoveId` | backend/storeService/controller/storeController.js:204 | the delete filter leaves no item with the id; an item survives exactly when it was present and has another id; the length drops by the number of matches |
| `StoreController.WriteItems` | backend/storeService/controller/storeController.js:148-152 | the one-field update of `storeItem`: the store's item array becomes the given array; its name, merchant, location and reviews and every other store are untouched |
| `StoreController.WriteReviews` | backend/storeService/controller/storeController.js:238-241 | the one-field update of `reviews`: the store's review array becomes the given array; its name, merchant, location and items and every other store are untouched |
| `StoreController.GetStoreItemCount` | backend/storeService/controller/storeController.js:120-134 | replies with exactly the length of the store's item array and writes nothing; an unknown store fails with the null-read error |
| `StoreController.AddStoreItem` | backend/storeService/controller/storeController.js:138-160 | the item array grows by one; earlier items keep position and value; the new item is last; name, merchant, location, reviews and other stores are untouched; replies with the updated store; an unknown store fails and nothing is written |
| `StoreController.ModifyStoreItem` | backend/storeService/controller/storeController.js:163-193 | length, order and ids are kept; non-matching items are unchanged; in matching items payload fields override, and other fields keep their names and values; only the item array is written; replies with the updated store; an unknown store fails and nothing is written |
| `StoreController.DeleteStoreItem` | backend/storeService/controller/storeController.js:196-218 | the written array is the filter `RemoveId` of the old one: no item with the id remains; an item survives exactly when it was present and has another id; the length drops by the number of matches; only the item array is written; replies with the updated store; an unknown store fails and nothing is written |
| `StoreController.AddReview` | backend/storeService/controller/storeController.js:221-249 | the `{userID, userName, rating, review}` record is appended after the old reviews; the items and every other field and store are untouched; the reply is the store as it was before the write; an unknown store leads to no write and no reply |
| `StoreLaws.RemoveIdAbsent` | backend/storeService/controller/storeController.js:204 | deleting an id that no item carries leaves the array identical |
| `StoreLaws.RemoveIdIdempotent` | backend/storeService/controller/storeController.js:204 | filtering twice by the same id equals filtering once |
| `StoreLaws.RemoveIdConcat` | backend/storeService/controller/storeController.js:204 | the filter distributes over concatenation, so survivors keep their relative order |
| `StoreLaws.RemoveIdKeepsUniqueIds` | backend/storeService/controller/storeController.js:204 | deleting never introduces a duplicate id |
| `StoreLaws.MergeMatchingAbsent` | backend/storeService/controller/storeController.js:171-179 | a payload whose id no item carries leaves the array identical |
| `StoreLaws.MergeMatchingIdempotent` | backend/storeService/controller/storeController.js:171-179 | applying the same payload twice equals applying it once |
| `StoreLaws.MergeMatchingKeepsIds` | backend/storeService/controller/storeController.js:171-179 | the modify map keeps the id sequence, so unique ids stay unique |
| `StoreLaws.RemoveAfterMerge` | backend/storeService/controller/storeController.js:171-179 | modifying an id and then deleting it equals deleting it directly |
| `StoreLaws.RemoveMergeCommute` | backend/storeService/controller/storeController.js:171-204 | modifying one id and deleting a different id commute |
| `StoreLaws.AppendKeepsUniqueIds` | backend/storeService/controller/storeController.js:144-146 | appending to an array with unique ids keeps them unique exactly when the new id is not present |
| `StoreLaws.DeleteStoreItemTwice` | backend/storeService/controller/storeController.js:196-218 | a second identical deleteStoreItem request changes nothing and sends the same reply |
| `StoreLaws.DeleteStoreItemKeepsOrder` | backend/storeService/controller/storeController.js:196-210 | splitting the old item array anywhere, deleteStoreItem writes the filtered first part followed by the filtered second part, so survivors keep their relative order and multiplicity |
| `StoreLaws.ModifyUnknownItemKeepsDb` | backend/storeService/controller/storeController.js:163-193 | modifyStoreItem with an id no item carries leaves the database exactly as it was and replies with the unchanged store |
| `StoreLaws.ModifyStoreItemTwice` | backend/storeService/controller/storeController.js:163-193 | a second identical modifyStoreItem request changes nothing and sends the same reply |
| `StoreLaws.HandlersKeepUniqueIds` | backend/storeService/controller/storeController.js:138-218 | modify and delete keep item ids unique; add keeps them unique exactly when the new id is not already present |
| `StoreLaws.CountAfterMutations` | backend/storeService/controller/storeController.js:120-218 | the count after an add is one more, after a modify it is the same, and after a delete it is less by the number of matches |
| `StoreLaws.AddStoreItemsInTurnKeepsAll` | backend/storeService/controller/storeController.js:138-160 | addStoreItem requests handled one after another lose no item; all of them follow the old items in request order, and nothing else changes |
| `StoreLaws.AddReviewsInTurnKeepsAll` | backend/storeService/controller/storeController.js:221-249 | addReview requests handled one after another append every review after the old ones in request order, and leave the items, the other store fields and the other stores untouched |

## Left out

- `backend/userService/controller/userController.js` (login, signup, token
  and CSRF-cookie issuance) is not part of this model. It is JWT signing,
  random bytes, cookies and a user model whose source is not available.
- createStore, getAllStore, updateStore, deleteStore and getOneStore are
  single library calls with no logic of their own, so they are not modelled.
- getStoreDescription is not modelled. It names an undefined identifier, so
  every call fails at run time.
- Concurrency is not modelled. Each handler is one atomic step, so the
  lost update between a handler's read and its write is not represented.
  That includes a store deleted in between, for which the write returns
  `null`.
- Mongoose behaviour is not modelled: ObjectId-versus-string comparison of
  `_id`, generation of `_id` for new items, how `Object.assign` treats a
  document object, the image projections of the count query, and schema
  casting.
- HTTP status codes, logging and the exact error text are not modelled. Every
  caught error is sent as a 200 response whose body is the message.
- Item field values and review fields are simplified. Values are strings,
  whole numbers, booleans or null. A review's rating is a whole number.
  Fields missing from the request body (`undefined`) are not represented.
- `StoreController.ModifyStoreItem`: the payload always has an id. A payload
  without `_id` matches nothing, like an id that no item carries; that case is
  stated by `StoreLaws.ModifyUnknownItemKeepsDb`.
