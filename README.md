# Second-hand marketplace: data-synchronisation layer

This project models the layer of a second-hand marketplace web app that keeps
its key-value store consistent. The store is a Firebase Realtime Database
tree with six tables: `usedProducts`, `userSellList/<seller>/<product>`,
`users`, `usedMessages/<thread>`, `usedPurchaseList/<buyer>` and
`usedComments/<product>`.

Each mutating operation reads a few records and computes the full set of
path/value writes. It then applies them with one multi-path `update`, so all
writes land together or none do. Read operations list, filter and sort the
children of one node.

Both API files are modelled. `src/_apis/usedApis.ts` is the current one.
`src/_apis/apis.ts` is its older twin, which differs in a few places:
- the upload dates the inventory entry with `uploadDate`;
- the inventory page sorts by `uploadDate`;
- messages are read newest first and without sender details;
- it holds the comment operations.

Where the two files share code (search, `addMessagesPage`, `checkMessage`,
`getMessageList`, `sendMessages`), one Dafny member models both. The table
cites the `usedApis.ts` copy. The `apis.ts` copies are at
`src/_apis/apis.ts:51-71`, `199-231`, `233-262`, `264-302` and `304-315`.

Modules:
- `Store` (`store.dfy`): the records, the `Tree` of typed maps and the `Write` path/value entries. `Apply` and `ApplyAll` give the meaning of an update. `Database` is a class holding the tree; its `Update` is the atomic multi-path write. `Values` is `Object.values` in the store's key order.
- `Sequences`: order-keeping filtering (`Subsequence`) and the stable sorts by a timestamp key. It also models the `try { sort } catch { [] }` pattern. Here a comparator that reads a missing timestamp throws, and the read returns `[]`.
- `Text`: ASCII `toLowerCase` and `includes`.
- `Catalog`: listing upload and edit.
- `Queries`: search, the newest-first listings and single-record lookup.
- `Messaging`: thread creation, lookup, the thread list, sending, reading and removal.
- `Sales`: the six-path sale update.
- `Comments`: comment add, remove, patch and list.
- `Consistency`: the cross-table invariant the updates exist to keep, and its preservation by every operation. The invariant has four parts: entries mirror their products, user counters count, threads are listed by both participants, and each entry's `sellsQuantity` and `buyerInfo` account for the purchase records made of it.

Each state-changing operation has two parts. A module-level method, taking the `Database` it changes, mirrors the source's reads and calls `Update` with the source's write set. A pure function (`Uploaded`, `Sold`, `ThreadAdded`, ...) gives the net effect on the tree. The method's contract ties the new state to that function. Lemmas about the function state what the source promises.

## Model

| member | source | states |
|---|---|---|
| Store.Database.Update | src/_apis/usedApis.ts:42-49 | the multi-path update: the new tree is the old one with every write of the set applied, in one step |
| Store.Values | src/_apis/usedApis.ts:62 | `Object.values` of a node: position `i` holds the child under the `i`-th key in ascending key order, so one element per child and equal records under two keys listed twice |
| Sequences.SortAscending | src/_apis/usedApis.ts:268-272 | the ascending sort by timestamp returns a permutation of its input in non-decreasing key order |
| Sequences.SortDescending | src/_apis/usedApis.ts:434-439 | the `b - a` comparator sort returns a permutation in non-increasing key order |
| Sequences.SortedDescOrEmpty | src/_apis/usedApis.ts:425-446 | sort inside `try`: sorted permutation when every element has its timestamp; `[]` when one lacks it and there are two or more; a single element is returned untouched |
| Text.ToLower | src/_apis/usedApis.ts:66 | `toLowerCase` keeps the length and maps each character on its own |
| Text.ContainsIffOccurs | src/_apis/usedApis.ts:66 | `includes` holds exactly when the query occurs at some position |
| Catalog.Uploaded | src/_apis/usedApis.ts:14-54 | no change when the seller has no user record, or when the product has no images or no `createdAt` (the update would hold `undefined` and the store rejects it); otherwise the product is stored, the entry added under the seller, `listSells` raised by one, other tables unchanged |
| Catalog.UploadedEntryMirrorsProduct | src/_apis/usedApis.ts:27-47 | the new entry mirrors name, price and stock, has `sellsQuantity` 0, no buyers, `isSales`, `images[0]` as its image, and the date in the field of its API version |
| Catalog.UploadUsedProducts | src/_apis/usedApis.ts:14-54 | the method's new tree is `Uploaded` with the `createdAt` field |
| Catalog.UploadUsedProductsDated | src/_apis/apis.ts:12-49 | the older upload's new tree is `Uploaded` with the `uploadDate` field |
| Catalog.Edited | src/_apis/usedApis.ts:78-99 | no change without the seller's entry; otherwise the product is overwritten and only name, price and stock of the entry are replaced |
| Catalog.EditKeepsSalesHistory | src/_apis/usedApis.ts:85-93 | after an edit the entry mirrors the product and keeps its sales count, buyers, image, status, dates and ids |
| Catalog.EditUsedProducts | src/_apis/usedApis.ts:78-99 | the method's new tree is `Edited` |
| Queries.FilterMatching | src/_apis/usedApis.ts:63-69 | `filter`: each matching element kept as many times as it occurs, every other element dropped, the original order kept |
| Queries.SearchUsedProducts | src/_apis/usedApis.ts:56-76 | a product is returned exactly when it is stored, has a name, and its lower-cased name contains the lower-cased query, as many times as it is stored; store order is kept; an empty store gives `[]` |
| Queries.SearchIgnoresQueryCase | src/_apis/usedApis.ts:66 | lower-casing the query first does not change the result |
| Queries.EmptyQueryListsNamedProducts | src/_apis/usedApis.ts:64-67 | the empty query returns a stored product exactly when it has a name |
| Queries.UploadedProductIsFound | src/_apis/usedApis.ts:42-49 | after an upload, any non-empty part of the product's name finds it |
| Queries.GetUsedProducts | src/_apis/apis.ts:73-89 | every product, newest `createdAt` first; `[]` for an empty store or when two or more exist and one lacks `createdAt`; a single product returned as is |
| Queries.GetMyPageInfo | src/_apis/apis.ts:103-119 | the seller's entries, newest `uploadDate` first; `[]` for a seller without entries or when two or more exist and one lacks `uploadDate`; a single entry returned as is |
| Queries.NewerUploadsHideOlderInventoryPage | src/_apis/apis.ts:107-111 | two uploads by the current API leave entries without `uploadDate`, so the older inventory page returns `[]` |
| Queries.GetUsedPageSortData | src/_apis/usedApis.ts:425-446 | the node's children, newest `createdAt` first; `[]` for an empty node or when two or more exist and one lacks the field |
| Queries.ListingIsNewestFirst | src/_apis/usedApis.ts:434-439 | a product with a later `createdAt` is listed before one with an earlier `createdAt` |
| Queries.GetUsedPageMainInfo | src/_apis/usedApis.ts:404-419 | the child at `id` when it exists, nothing (null) otherwise; `getUsedProductDetail` (src/_apis/apis.ts:91-99) is the same lookup |
| Queries.UploadThenDetailRoundTrip | src/_apis/usedApis.ts:409-413 | an uploaded product reads back unchanged |
| Messaging.ThreadAdded | src/_apis/usedApis.ts:121-161 | the thread is stored under its id; each participant's list becomes the previous list (`[]` if absent) with the id appended; other tables unchanged |
| Messaging.ThreadListedByBoth | src/_apis/usedApis.ts:139-151 | both participants exist afterwards; their lists keep the earlier ids and end with the new one |
| Messaging.AddMessagesPage | src/_apis/usedApis.ts:121-161 | the method's new tree is `ThreadAdded` |
| Messaging.ScanThreads | src/_apis/usedApis.ts:176-188 | `None` exactly when no listed id is a stored thread about the product; otherwise the first such thread in list order, missing ids skipped |
| Messaging.FirstThreadFor | src/_apis/usedApis.ts:163-192 | null for an absent buyer or an empty list; any thread returned is about the product |
| Messaging.CheckMessage | src/_apis/usedApis.ts:163-192 | the loop with early returns computes `FirstThreadFor` |
| Messaging.ScanFindsAppendedThread | src/_apis/usedApis.ts:176-187 | when no listed thread matches, appending a new matching thread makes the scan find it |
| Messaging.FindOrCreateReusesThread | src/pages/usedProductsDetail/UsedProductsDetail.tsx:47-72 | after the page creates a thread because `checkMessage` found none, `checkMessage` returns that thread, so contacting again creates no second one |
| Messaging.MessageList | src/_apis/usedApis.ts:194-232 | what `getMessageList` returns: `[]` for no ids, `[]` when a listed thread's product has no images (`images[0]` throws at line 217 and the catch returns `[]`), at most one row per id |
| Messaging.ListedThrows | src/_apis/usedApis.ts:207-229 | the join throws exactly when some listed thread resolves to a product without images |
| Messaging.ListedAppend | src/_apis/usedApis.ts:207-225 | the rows for `ids + [id]` are the rows for `ids` followed by the row for `id` when its thread and product exist; a throw in either stays a throw |
| Messaging.MessageListAppend | src/_apis/usedApis.ts:194-232 | without an earlier throw, the list for `ids + [id]` is the list for `ids` plus the row for `id` when its thread and product exist, and `[]` when that product has no images |
| Messaging.MessageListRows | src/_apis/usedApis.ts:194-232 | when no listed product lacks images, a row is listed exactly when it joins some listed id's thread with its existing product |
| Messaging.GetMessageList | src/_apis/usedApis.ts:194-232 | the two loops, with the early exit at the throwing `images[0]`, compute `MessageList` |
| Messaging.MessageSent | src/_apis/usedApis.ts:234-245 | the message is stored under the fresh key in its thread; thread fields and all other threads unchanged |
| Messaging.SendMessages | src/_apis/usedApis.ts:234-245 | the method's new tree is `MessageSent` |
| Messaging.GetMessages | src/_apis/usedApis.ts:247-280 | messages joined with their senders, a permutation in non-decreasing timestamp order; `[]` for no messages or when a sender has no record |
| Messaging.GetMessagesNewestFirst | src/_apis/apis.ts:317-335 | the thread's messages as a permutation in non-increasing timestamp order |
| Messaging.SentMessageIsRead | src/_apis/apis.ts:304-330 | a sent message is among those read back from its thread |
| Messaging.Without | src/_apis/usedApis.ts:383-385 | every occurrence of the id removed, all other ids kept with their counts, order kept |
| Messaging.MessageRemoved | src/_apis/usedApis.ts:371-397 | the thread is deleted and only the initiating user's list is filtered; other tables unchanged |
| Messaging.RemoveMessage | src/_apis/usedApis.ts:371-397 | the method's new tree is `MessageRemoved` |
| Messaging.RemovalLeavesCounterpartDangling | src/_apis/usedApis.ts:387-390 | the other participant's list still holds the id of the deleted thread |
| Sales.Sold | src/_apis/usedApis.ts:299-362 | the net effect of a sale: nothing when the buyer does not exist; thread and comment tables, the set of users and sellers, and every `listSells` unchanged |
| Sales.SaleWritesLand | src/_apis/usedApis.ts:352-362 | the six writes applied in order have exactly the net effect `Sold` |
| Sales.SalesProducts | src/_apis/usedApis.ts:282-369 | the method's new tree is `Sold`: nothing when the buyer is absent, otherwise the six-path update |
| Sales.SaleKeepsCountsTogether | src/_apis/usedApis.ts:303-362 | stock drops and the sales count rises by the units bought, product and entry agree, the buyer's summary appended after the earlier buyers, the purchase record stored under the new id beside the earlier ones, the buyer's counter up by one |
| Sales.SalesCanOversell | src/_apis/usedApis.ts:302-303 | stock 5 sold 2 then 3 reaches 0, sold out, with 5 units sold; a third sale is not refused and leaves -1 |
| Comments.CommentAdded | src/_apis/apis.ts:155-163 | the comment is stored under the generated key with `commentId` set to that key; other tables unchanged |
| Comments.AddUsedComment | src/_apis/apis.ts:155-163 | the method's new tree is `CommentAdded` |
| Comments.CommentRemoved | src/_apis/apis.ts:165-175 | only that comment is gone; every other comment of every product unchanged |
| Comments.RemoveUsedComment | src/_apis/apis.ts:165-175 | the method's new tree is `CommentRemoved` |
| Comments.RemoveUndoesAdd | src/_apis/apis.ts:155-172 | removing a comment just added under a fresh key restores the product's comments |
| Comments.CommentEdited | src/_apis/apis.ts:177-188 | the comment becomes its stored fields overridden by the patch; an empty patch changes nothing |
| Comments.EditKeepsUnpatchedFields | src/_apis/apis.ts:184 | patched fields take the patch's values, unsupplied fields keep theirs, other comments unchanged |
| Comments.EditIsIdempotent | src/_apis/apis.ts:184 | applying the same patch twice equals applying it once |
| Comments.EditUsedComment | src/_apis/apis.ts:177-188 | the method's new tree is `CommentEdited` |
| Comments.GetUsedComment | src/_apis/apis.ts:135-153 | the product's comments newest first; `[]` for none, or when two or more exist and one lacks a stored `createdAt` |
| Comments.AddedCommentIsListed | src/_apis/apis.ts:135-160 | a dated comment added among dated comments is listed, with its key |
| Consistency.SumOverPut | src/_apis/usedApis.ts:352-362 | writing one child of a node changes the sum over the node by that child's share alone |
| Consistency.TotalPut | src/_apis/usedApis.ts:354 | a purchase record stored under a fresh id adds its own share to a total over all purchase records |
| Consistency.LedgerAddEntry | src/_apis/usedApis.ts:28-47 | a new entry with no sales, for a product no record names, keeps the ledger |
| Consistency.LedgerRecordSale | src/_apis/usedApis.ts:352-362 | a fresh purchase record whose entry gains its units and one buyer keeps the ledger: each entry's `sellsQuantity` is the sum of `productsQuantity` over its records, and `buyerInfo` has one element per record |
| Consistency.UploadKeepsLedger | src/_apis/usedApis.ts:42-49 | an upload under a fresh product id keeps the ledger |
| Consistency.EditKeepsLedger | src/_apis/usedApis.ts:89-94 | an edit keeps the ledger |
| Consistency.SaleKeepsLedger | src/_apis/usedApis.ts:352-362 | a sale under a fresh purchase id keeps the ledger |
| Consistency.UploadKeepsConsistent | src/_apis/usedApis.ts:42-49 | an upload under a fresh product id keeps the invariant: entries mirror products, counters count, threads are listed, entries account for their purchase records |
| Consistency.EditKeepsConsistent | src/_apis/usedApis.ts:89-94 | an edit keeps the invariant |
| Consistency.SaleKeepsConsistent | src/_apis/usedApis.ts:352-362 | a sale under a fresh purchase id keeps the invariant, whatever stock the caller passes |
| Consistency.AddThreadKeepsConsistent | src/_apis/usedApis.ts:147-157 | creating a thread under a fresh id keeps the invariant |
| Consistency.SendKeepsConsistent | src/_apis/usedApis.ts:234-245 | sending a message keeps the invariant |
| Consistency.RemoveKeepsConsistent | src/_apis/usedApis.ts:387-393 | removing a thread keeps the invariant |
| Consistency.CommentsKeepConsistent | src/_apis/apis.ts:155-188 | the comment operations keep the invariant |

## Left out

- Keys: `uuidv4` and `push` keys are parameters. Lemmas that need a fresh key take it as a precondition. Keys are naturals, and their numeric order stands for the store's child order.
- Timestamps: `Date` parsing of joined string arrays is not modelled; a timestamp is an integer. The `NaN` an unparsable date gives the comparator is not modelled. `getUsedPageSortData` joins the parts of `createdAt` with `''` (src/_apis/usedApis.ts:436) and the other sorts join them with `' '`; both are keyed by the same integer here, so a date string that parses under one join and not the other is not modelled.
- Sorting: `Array.prototype.sort` is modelled as a stable insertion sort. That the result is stable is not proved. The proved facts are order and permutation.
- Text: `toLowerCase` maps only ASCII `A`-`Z`; other Unicode case mappings are left out.
- Stored shape: a write below an absent record creates the whole record with its other fields unset ("" / 0 / `[]` / none), where the store keeps a partial node. An example is the sale's `usedProducts/<p>/quantity` on a missing product. The model reads the unset fields the way the code reads the missing ones in the places modelled here: no name fails the search, no images makes `getMessageList` throw, and no `createdAt` makes the sorts throw. Other readers of such a node are not modelled. A node whose last child is removed stays as an empty map, which `Children` reads as no children.
- Messages: a message's timestamp is always present, so the message sorts never take their `[]` path for a missing timestamp.
- `getMessageList` rows: a thread's fields overriding product fields on a name clash is not modelled, because the modelled records share no field name.
- Sales.SalesProducts: requires the seller's entry when the buyer exists. Without the entry the source adds `productsQuantity` to `undefined` and writes `NaN`, and what the store then does is outside this model.
- Sale stock check: the code refuses no sale that drives stock negative, and neither does the model (`Sales.SalesCanOversell`). A sale is given the caller's view of the stock, not the stored one.
- `removeUsedProducts` (src/_apis/usedApis.ts:101-103) has an empty body and nothing to model.
- Both participants' thread lists are not repaired on removal; only the initiating user's list is filtered, as in the code.
- The `.exists()` / `undefined` checks on `listMessages`, `listSells` and `listPurchases`: an absent counter or list reads as 0 or `[]` in the `User` record.
- Recoil `setUser`/`setLoginUser` callbacks, `alert`, `console` logging and navigation are UI side effects and are left out.
- The image upload over HTTP (`src/_apis/uploader.ts`) is foreign I/O and is not part of this model.
- Concurrency: requests run one at a time. The race between an operation's reads and its `update`, and the `Promise.all` fan-out in `getMessages`, are not modelled.
- Catalog.Edited: an edited product without `createdAt` holds `undefined`, which the store would reject; the model writes the edit anyway. The edit's other fields are never absent in the model.
- Errors: the exceptions modelled are the sort comparator reading a missing timestamp, `images[0]` on a product without images in `getMessageList`, and the store rejecting an upload whose entry holds `undefined` (no images, or no `createdAt`). Network failures, permission errors and any other rejection by the store are not modelled. Every such `catch` only logs, or returns `[]` or nothing.
