/** The cross-table invariant the multi-path updates exist to keep: each
    inventory entry mirrors its product, each user's counters count the
    user's nodes, each thread is listed by both participants, and each
    entry's sales figures account for the purchase records made of it. */
module Consistency {
  import opened Store
  import Catalog
  import Sales
  import Messaging
  import Comments

  /** Every entry `userSellList/<s>/<p>` has a product `p` sold by `s`, and
      shows that product's name, price and stock. */
  predicate EntriesMirrorProducts(t: Tree)
  {
    MirroredIn(t.sellList, t.products)
  }

  predicate MirroredIn(sellList: map<Key, map<Key, SellEntry>>, products: map<Key, Product>)
  {
    forall s, pid :: s in sellList && pid in sellList[s] ==>
      && pid in products
      && products[pid].seller.id == s
      && Catalog.Mirrors(sellList[s][pid], products[pid])
  }

  /** Inventories and purchase lists belong to existing users, whose
      `listSells` and `listPurchases` count them. */
  predicate CountersAgree(t: Tree)
  {
    CountedBy(t.users, t.sellList, t.purchases)
  }

  predicate CountedBy(users: map<Key, User>, sellList: map<Key, map<Key, SellEntry>>,
                      purchases: map<Key, map<Key, Purchase>>)
  {
    && (forall u :: u in sellList ==> u in users)
    && (forall u :: u in purchases ==> u in users)
    && (forall u :: u in users ==>
          && users[u].listSells == |Children(sellList, u)|
          && users[u].listPurchases == |Children(purchases, u)|)
  }

  /** Every thread created with its fields is in both participants' lists. */
  predicate ThreadsIndexed(t: Tree)
  {
    ListedBy(t.threads, t.users)
  }

  predicate ListedBy(threads: map<Key, Thread>, users: map<Key, User>)
  {
    forall tid :: tid in threads && threads[tid].info.Some? ==>
      var info := threads[tid].info.value;
      && info.sellerId in users && tid in users[info.sellerId].listMessages
      && info.buyerId in users && tid in users[info.buyerId].listMessages
  }

  // ---------------------------------------------------------------------
  // The sales ledger
  // ---------------------------------------------------------------------

  /** The sum of `f` over the children of a node. */
  function SumOver<V>(m: map<Key, V>, f: V -> int): int
    decreases |m|
  {
    if m == map[] then 0
    else
      var k := Least(m.Keys);
      assert |m - {k}| == |m| - 1;
      f(m[k]) + SumOver(m - {k}, f)
  }

  /** The sum does not depend on the child taken first. */
  lemma {:induction false} SumOverRemove<V>(m: map<Key, V>, k: Key, f: V -> int)
    requires k in m
    ensures SumOver(m, f) == f(m[k]) + SumOver(m - {k}, f)
    decreases |m|
  {
    var j := Least(m.Keys);
    if j != k {
      assert |m - {j}| == |m| - 1 && |m - {k}| == |m| - 1;
      SumOverRemove(m - {j}, k, f);
      SumOverRemove(m - {k}, j, f);
      assert m - {j} - {k} == m - {k} - {j};
    }
  }

  /** Writing a child changes the sum by the new child's share. */
  lemma SumOverPut<V>(m: map<Key, V>, k: Key, v: V, f: V -> int)
    ensures SumOver(m[k := v], f) == f(v) + SumOver(m - {k}, f)
    ensures k !in m ==> SumOver(m[k := v], f) == SumOver(m, f) + f(v)
    ensures k in m ==> SumOver(m[k := v], f) == SumOver(m, f) - f(m[k]) + f(v)
  {
    SumOverRemove(m[k := v], k, f);
    assert m[k := v] - {k} == m - {k};
    if k in m {
      SumOverRemove(m, k, f);
    } else {
      assert m - {k} == m;
    }
  }

  lemma {:induction false} SumOverZero<V>(m: map<Key, V>, f: V -> int)
    requires forall k :: k in m ==> f(m[k]) == 0
    ensures SumOver(m, f) == 0
    decreases |m|
  {
    if m != map[] {
      var k := Least(m.Keys);
      assert |m - {k}| == |m| - 1;
      SumOverZero(m - {k}, f);
    }
  }

  /** The units a purchase record counts toward entry `<seller>/<pid>`. */
  function UnitsFor(seller: Key, pid: Key): Purchase -> int
  {
    (rec: Purchase) => if rec.sellerId == seller && rec.productId == pid then rec.productsQuantity else 0
  }

  /** One for a purchase record of entry `<seller>/<pid>`. */
  function RecordFor(seller: Key, pid: Key): Purchase -> int
  {
    (rec: Purchase) => if rec.sellerId == seller && rec.productId == pid then 1 else 0
  }

  function PerBuyer(f: Purchase -> int): map<Key, Purchase> -> int
  {
    (records: map<Key, Purchase>) => SumOver(records, f)
  }

  /** The sum of `f` over every purchase record of every buyer. */
  function Total(purchases: map<Key, map<Key, Purchase>>, f: Purchase -> int): int
  {
    SumOver(purchases, PerBuyer(f))
  }

  /** A purchase record stored under a fresh id adds its own share. */
  lemma TotalPut(purchases: map<Key, map<Key, Purchase>>, buyer: Key, id: Key, rec: Purchase, f: Purchase -> int)
    requires id !in Children(purchases, buyer)
    ensures Total(PutChild(purchases, buyer, id, rec), f) == Total(purchases, f) + f(rec)
  {
    var before := Children(purchases, buyer);
    var after := before[id := rec];
    SumOverPut(before, id, rec, f);
    assert PerBuyer(f)(after) == PerBuyer(f)(before) + f(rec);
    SumOverPut(purchases, buyer, after, PerBuyer(f));
    if buyer !in purchases {
      assert PerBuyer(f)(before) == 0;
    }
  }

  lemma TotalZero(purchases: map<Key, map<Key, Purchase>>, f: Purchase -> int)
    requires forall b, id :: b in purchases && id in purchases[b] ==> f(purchases[b][id]) == 0
    ensures Total(purchases, f) == 0
  {
    forall b | b in purchases
      ensures PerBuyer(f)(purchases[b]) == 0
    {
      SumOverZero(purchases[b], f);
    }
    SumOverZero(purchases, PerBuyer(f));
  }

  /** Every purchase record belongs to an inventory entry, and each entry's
      `sellsQuantity` and `buyerInfo` account for exactly its records: the
      units they bought, and one buyer summary each. */
  predicate SalesLedgered(t: Tree)
  {
    LedgeredBy(t.sellList, t.purchases)
  }

  predicate LedgeredBy(sellList: map<Key, map<Key, SellEntry>>, purchases: map<Key, map<Key, Purchase>>)
  {
    RecordsHaveEntries(sellList, purchases) && EntriesAccount(sellList, purchases)
  }

  predicate RecordsHaveEntries(sellList: map<Key, map<Key, SellEntry>>, purchases: map<Key, map<Key, Purchase>>)
  {
    forall b, id :: b in purchases && id in purchases[b] ==>
      purchases[b][id].sellerId in sellList
      && purchases[b][id].productId in sellList[purchases[b][id].sellerId]
  }

  predicate EntriesAccount(sellList: map<Key, map<Key, SellEntry>>, purchases: map<Key, map<Key, Purchase>>)
  {
    forall s, pid :: s in sellList && pid in sellList[s] ==>
      && sellList[s][pid].sellsQuantity == Total(purchases, UnitsFor(s, pid))
      && |sellList[s][pid].buyerInfo| == Total(purchases, RecordFor(s, pid))
  }

  /** A new entry with no sales, for a product no record names, keeps the
      ledger. */
  lemma LedgerAddEntry(sellList: map<Key, map<Key, SellEntry>>, purchases: map<Key, map<Key, Purchase>>,
                       products: map<Key, Product>, sid: Key, pid: Key, e: SellEntry)
    requires LedgeredBy(sellList, purchases) && MirroredIn(sellList, products)
    requires pid !in products && e.sellsQuantity == 0 && e.buyerInfo == []
    ensures LedgeredBy(PutChild(sellList, sid, pid, e), purchases)
  {
    var after: map<Key, map<Key, SellEntry>> := PutChild(sellList, sid, pid, e);
    var units, records := UnitsFor(sid, pid), RecordFor(sid, pid);
    forall b, id | b in purchases && id in purchases[b]
      ensures units(purchases[b][id]) == 0 && records(purchases[b][id]) == 0
    {
      var rec := purchases[b][id];
      assert rec.productId in products;
    }
    TotalZero(purchases, units);
    TotalZero(purchases, records);
    forall s, q | s in after && q in after[s]
      ensures && after[s][q].sellsQuantity == Total(purchases, UnitsFor(s, q))
              && |after[s][q].buyerInfo| == Total(purchases, RecordFor(s, q))
    {
      if s != sid || q != pid {
        assert s in sellList && q in sellList[s] && after[s][q] == sellList[s][q];
      }
    }
  }

  /** A record stored under a fresh id, whose entry gains its units and one
      buyer, keeps the ledger. */
  lemma LedgerRecordSale(sellList: map<Key, map<Key, SellEntry>>, purchases: map<Key, map<Key, Purchase>>,
                         buyer: Key, id: Key, rec: Purchase, e: SellEntry)
    requires LedgeredBy(sellList, purchases)
    requires rec.sellerId in sellList && rec.productId in sellList[rec.sellerId]
    requires id !in Children(purchases, buyer)
    requires var old_e := sellList[rec.sellerId][rec.productId];
      && e.sellsQuantity == old_e.sellsQuantity + rec.productsQuantity
      && |e.buyerInfo| == |old_e.buyerInfo| + 1
    ensures LedgeredBy(PutChild(sellList, rec.sellerId, rec.productId, e), PutChild(purchases, buyer, id, rec))
  {
    var sl: map<Key, map<Key, SellEntry>> := PutChild(sellList, rec.sellerId, rec.productId, e);
    var ps: map<Key, map<Key, Purchase>> := PutChild(purchases, buyer, id, rec);
    forall s, q | s in sl && q in sl[s]
      ensures && sl[s][q].sellsQuantity == Total(ps, UnitsFor(s, q))
              && |sl[s][q].buyerInfo| == Total(ps, RecordFor(s, q))
    {
      assert s in sellList && q in sellList[s];
      TotalPut(purchases, buyer, id, rec, UnitsFor(s, q));
      TotalPut(purchases, buyer, id, rec, RecordFor(s, q));
    }
    forall b, k | b in ps && k in ps[b]
      ensures ps[b][k].sellerId in sl && ps[b][k].productId in sl[ps[b][k].sellerId]
    {
      if b != buyer || k != id {
        var r := purchases[b][k];
        assert ps[b][k] == r;
        assert r.sellerId in sellList && r.productId in sellList[r.sellerId];
      }
    }
  }

  predicate Consistent(t: Tree)
  {
    EntriesMirrorProducts(t) && CountersAgree(t) && ThreadsIndexed(t) && SalesLedgered(t)
  }

  /** The empty store is consistent. */
  lemma EmptyIsConsistent()
    ensures Consistent(Tree(map[], map[], map[], map[], map[], map[]))
  {
  }

  /** Consistency reads only the tables other than the comments. */
  lemma ConsistencyIgnoresComments(t: Tree, r: Tree)
    requires r.products == t.products && r.sellList == t.sellList && r.users == t.users
    requires r.threads == t.threads && r.purchases == t.purchases
    ensures Consistent(r) == Consistent(t)
  {
  }

  // ---------------------------------------------------------------------
  // Upload
  // ---------------------------------------------------------------------

  lemma UploadKeepsMirrors(t: Tree, p: Product, field: Catalog.DateField)
    requires EntriesMirrorProducts(t) && p.id !in t.products
    ensures EntriesMirrorProducts(Catalog.Uploaded(t, p, field))
  {
    var sid := p.seller.id;
    var r := Catalog.Uploaded(t, p, field);
    if sid in t.users && Catalog.Storable(p) {
      forall s, pid | s in r.sellList && pid in r.sellList[s]
        ensures pid in r.products && r.products[pid].seller.id == s
             && Catalog.Mirrors(r.sellList[s][pid], r.products[pid])
      {
        if s != sid || pid != p.id {
          assert s in t.sellList && pid in t.sellList[s] && t.sellList[s][pid] == r.sellList[s][pid];
        }
      }
    }
  }

  lemma UploadKeepsCounters(t: Tree, p: Product, field: Catalog.DateField)
    requires CountersAgree(t) && EntriesMirrorProducts(t) && p.id !in t.products
    ensures CountersAgree(Catalog.Uploaded(t, p, field))
  {
    var sid := p.seller.id;
    if sid in t.users && Catalog.Storable(p) {
      UnlistedHasNoEntry(t, sid, p.id);
      Catalog.UploadedAddsEntry(t, p, field);
      CountedAfterEntry(t, Catalog.Uploaded(t, p, field), sid, p.id, Catalog.NewEntry(p, field));
    }
  }

  /** Every entry mirrors a stored product, so a product id not stored has
      no entry under any seller. */
  lemma UnlistedHasNoEntry(t: Tree, seller: Key, pid: Key)
    requires EntriesMirrorProducts(t) && pid !in t.products
    ensures pid !in Children(t.sellList, seller)
  {
  }

  lemma CountedAfterEntry(t: Tree, r: Tree, seller: Key, pid: Key, e: SellEntry)
    requires CountersAgree(t)
    requires seller in t.users && pid !in Children(t.sellList, seller)
    requires Catalog.EntryAdded(t, r, seller, pid, e)
    ensures CountersAgree(r)
  {
    assert Children(r.sellList, seller) == Children(t.sellList, seller)[pid := e];
    forall u | u in r.users
      ensures r.users[u].listSells == |Children(r.sellList, u)|
    {
      if u != seller {
        assert Children(r.sellList, u) == Children(t.sellList, u);
      }
    }
  }

  lemma UploadKeepsThreadsIndexed(t: Tree, p: Product, field: Catalog.DateField)
    requires ThreadsIndexed(t)
    ensures ThreadsIndexed(Catalog.Uploaded(t, p, field))
  {
    var r := Catalog.Uploaded(t, p, field);
    if p.seller.id in t.users && Catalog.Storable(p) {
      assert forall u :: u in t.users ==> u in r.users && r.users[u].listMessages == t.users[u].listMessages;
    }
  }

  /** No purchase record can name a product that is not stored, so the new
      entry's zero sales agree with the records. */
  lemma UploadKeepsLedger(t: Tree, p: Product, field: Catalog.DateField)
    requires SalesLedgered(t) && EntriesMirrorProducts(t) && p.id !in t.products
    ensures SalesLedgered(Catalog.Uploaded(t, p, field))
  {
    if p.seller.id in t.users && Catalog.Storable(p) {
      Catalog.UploadedEntryMirrorsProduct(t, p, field);
      LedgerAddEntry(t.sellList, t.purchases, t.products, p.seller.id, p.id, Catalog.NewEntry(p, field));
    }
  }

  /** An upload under a fresh product id keeps the tree consistent. */
  lemma UploadKeepsConsistent(t: Tree, p: Product, field: Catalog.DateField)
    requires Consistent(t)
    requires p.id !in t.products
    ensures Consistent(Catalog.Uploaded(t, p, field))
  {
    UploadKeepsMirrors(t, p, field);
    UploadKeepsCounters(t, p, field);
    UploadKeepsThreadsIndexed(t, p, field);
    UploadKeepsLedger(t, p, field);
  }

  // ---------------------------------------------------------------------
  // Edit
  // ---------------------------------------------------------------------

  lemma EditKeepsMirrorsAndCounters(t: Tree, p: Product)
    requires EntriesMirrorProducts(t) && CountersAgree(t)
    ensures EntriesMirrorProducts(Catalog.Edited(t, p)) && CountersAgree(Catalog.Edited(t, p))
  {
    var sid := p.seller.id;
    if Catalog.HasEntry(t, sid, p.id) {
      var r := Catalog.Edited(t, p);
      forall s, pid | s in r.sellList && pid in r.sellList[s]
        ensures pid in r.products && r.products[pid].seller.id == s
             && Catalog.Mirrors(r.sellList[s][pid], r.products[pid])
      {
        assert s in t.sellList && pid in t.sellList[s];
      }
      forall u | u in r.users
        ensures r.users[u].listSells == |Children(r.sellList, u)|
      {
        assert |Children(r.sellList, u)| == |Children(t.sellList, u)|;
      }
    }
  }

  /** An edit keeps each entry's sales count and buyers. */
  lemma EditKeepsLedger(t: Tree, p: Product)
    requires SalesLedgered(t)
    ensures SalesLedgered(Catalog.Edited(t, p))
  {
    var sid := p.seller.id;
    if Catalog.HasEntry(t, sid, p.id) {
      var r := Catalog.Edited(t, p);
      Catalog.EditKeepsSalesHistory(t, p);
      forall s, pid | s in r.sellList && pid in r.sellList[s]
        ensures && r.sellList[s][pid].sellsQuantity == Total(r.purchases, UnitsFor(s, pid))
                && |r.sellList[s][pid].buyerInfo| == Total(r.purchases, RecordFor(s, pid))
      {
        assert s in t.sellList && pid in t.sellList[s];
      }
      forall b, id | b in r.purchases && id in r.purchases[b]
        ensures r.purchases[b][id].sellerId in r.sellList
             && r.purchases[b][id].productId in r.sellList[r.purchases[b][id].sellerId]
      {
        var rec := t.purchases[b][id];
        assert rec.sellerId in t.sellList && rec.productId in t.sellList[rec.sellerId];
      }
    }
  }

  /** An edit keeps the tree consistent. */
  lemma EditKeepsConsistent(t: Tree, p: Product)
    requires Consistent(t)
    ensures Consistent(Catalog.Edited(t, p))
  {
    EditKeepsMirrorsAndCounters(t, p);
    EditKeepsLedger(t, p);
  }

  // ---------------------------------------------------------------------
  // Sale
  // ---------------------------------------------------------------------

  lemma SaleKeepsMirrors(t: Tree, s: Sales.SalesInfo, purchaseId: Key)
    requires EntriesMirrorProducts(t) && Sales.SaleReadable(t, s)
    ensures EntriesMirrorProducts(Sales.Sold(t, s, purchaseId))
  {
    if s.buyerId in t.users {
      var r := Sales.Sold(t, s, purchaseId);
      assert s.productId in t.products;
      forall sel, pid | sel in r.sellList && pid in r.sellList[sel]
        ensures pid in r.products && r.products[pid].seller.id == sel
             && Catalog.Mirrors(r.sellList[sel][pid], r.products[pid])
      {
        assert sel in t.sellList && pid in t.sellList[sel];
      }
    }
  }

  lemma SaleKeepsCounters(t: Tree, s: Sales.SalesInfo, purchaseId: Key)
    requires CountersAgree(t) && Sales.SaleReadable(t, s)
    requires purchaseId !in Children(t.purchases, s.buyerId)
    ensures CountersAgree(Sales.Sold(t, s, purchaseId))
  {
    if s.buyerId in t.users {
      Sales.SoldAddsRecord(t, s, purchaseId);
      CountedAfterRecord(t, Sales.Sold(t, s, purchaseId), s.buyerId, purchaseId, Sales.PurchaseOf(s, purchaseId));
    }
  }

  /** A write that keeps every seller list's keys, adds one record below
      the buyer and raises the buyer's purchase counter keeps the counters
      in agreement. */
  lemma CountedAfterRecord(t: Tree, r: Tree, buyer: Key, id: Key, rec: Purchase)
    requires CountersAgree(t)
    requires buyer in t.users && id !in Children(t.purchases, buyer)
    requires Sales.RecordAdded(t, r, buyer, id, rec)
    ensures CountersAgree(r)
  {
    SellCountsAfterRecord(t, r, buyer, id, rec);
    PurchaseCountsAfterRecord(t, r, buyer, id, rec);
  }

  lemma SellCountsAfterRecord(t: Tree, r: Tree, buyer: Key, id: Key, rec: Purchase)
    requires CountersAgree(t) && buyer in t.users
    requires Sales.RecordAdded(t, r, buyer, id, rec)
    ensures forall v :: v in r.users ==> r.users[v].listSells == |Children(r.sellList, v)|
  {
    forall v | v in r.users
      ensures r.users[v].listSells == |Children(r.sellList, v)|
    {
      SameKeysSameSize(Children(r.sellList, v), Children(t.sellList, v));
    }
  }

  lemma PurchaseCountsAfterRecord(t: Tree, r: Tree, buyer: Key, id: Key, rec: Purchase)
    requires CountersAgree(t)
    requires buyer in t.users && id !in Children(t.purchases, buyer)
    requires Sales.RecordAdded(t, r, buyer, id, rec)
    ensures forall v :: v in r.users ==> r.users[v].listPurchases == |Children(r.purchases, v)|
  {
    forall v | v in r.users
      ensures r.users[v].listPurchases == |Children(r.purchases, v)|
    {
      if v != buyer {
        assert Children(r.purchases, v) == Children(t.purchases, v);
      }
    }
  }

  lemma SameKeysSameSize<V>(a: map<Key, V>, b: map<Key, V>)
    requires a.Keys == b.Keys
    ensures |a| == |b|
  {
    assert |a| == |a.Keys|;
    assert |b| == |b.Keys|;
  }

  lemma SaleKeepsThreadsIndexed(t: Tree, s: Sales.SalesInfo, purchaseId: Key)
    requires ThreadsIndexed(t) && Sales.SaleReadable(t, s)
    ensures ThreadsIndexed(Sales.Sold(t, s, purchaseId))
  {
    var r := Sales.Sold(t, s, purchaseId);
    assert forall u :: u in t.users ==> u in r.users && r.users[u].listMessages == t.users[u].listMessages;
  }

  /** The new record adds the units bought and one record to its own entry
      alone, which the sale raises by the same amounts. */
  lemma SaleKeepsLedger(t: Tree, s: Sales.SalesInfo, purchaseId: Key)
    requires SalesLedgered(t) && Sales.SaleReadable(t, s)
    requires purchaseId !in Children(t.purchases, s.buyerId)
    ensures SalesLedgered(Sales.Sold(t, s, purchaseId))
  {
    if s.buyerId in t.users {
      var r := Sales.Sold(t, s, purchaseId);
      var rec := Sales.PurchaseOf(s, purchaseId);
      LedgerRecordSale(t.sellList, t.purchases, s.buyerId, purchaseId, rec, r.sellList[s.sellerId][s.productId]);
    }
  }

  /** A sale under a fresh purchase id keeps the tree consistent, whatever
      stock the caller passes: both stock fields get the same value. */
  lemma SaleKeepsConsistent(t: Tree, s: Sales.SalesInfo, purchaseId: Key)
    requires Consistent(t) && Sales.SaleReadable(t, s)
    requires purchaseId !in Children(t.purchases, s.buyerId)
    ensures Consistent(Sales.Sold(t, s, purchaseId))
  {
    SaleKeepsMirrors(t, s, purchaseId);
    SaleKeepsCounters(t, s, purchaseId);
    SaleKeepsThreadsIndexed(t, s, purchaseId);
    SaleKeepsLedger(t, s, purchaseId);
  }

  // ---------------------------------------------------------------------
  // Messaging
  // ---------------------------------------------------------------------

  lemma AddThreadKeepsCounters(t: Tree, info: ThreadInfo)
    requires CountersAgree(t)
    ensures CountersAgree(Messaging.ThreadAdded(t, info))
  {
    var r := Messaging.ThreadAdded(t, info);
    forall u | u in r.users
      ensures r.users[u].listSells == |Children(r.sellList, u)|
           && r.users[u].listPurchases == |Children(r.purchases, u)|
    {
      if u !in t.users {
        assert u !in t.sellList && u !in t.purchases;
      }
    }
  }

  lemma AddThreadKeepsThreadsIndexed(t: Tree, info: ThreadInfo)
    requires ThreadsIndexed(t)
    requires info.messageId !in t.threads
    ensures ThreadsIndexed(Messaging.ThreadAdded(t, info))
  {
    var r := Messaging.ThreadAdded(t, info);
    forall tid | tid in r.threads && r.threads[tid].info.Some?
      ensures var i := r.threads[tid].info.value;
        && i.sellerId in r.users && tid in r.users[i.sellerId].listMessages
        && i.buyerId in r.users && tid in r.users[i.buyerId].listMessages
    {
      if tid != info.messageId {
        var i := t.threads[tid].info.value;
        assert r.threads[tid] == t.threads[tid];
        assert tid in Messaging.ListMessagesOf(t, i.sellerId);
        assert tid in Messaging.ListMessagesOf(t, i.buyerId);
      }
    }
  }

  lemma AddThreadKeepsMirrors(t: Tree, info: ThreadInfo)
    requires EntriesMirrorProducts(t)
    ensures EntriesMirrorProducts(Messaging.ThreadAdded(t, info))
  {
  }

  /** Creating a thread under a fresh id keeps the tree consistent. */
  lemma AddThreadKeepsConsistent(t: Tree, info: ThreadInfo)
    requires Consistent(t)
    requires info.messageId !in t.threads
    ensures Consistent(Messaging.ThreadAdded(t, info))
  {
    AddThreadKeepsMirrors(t, info);
    AddThreadKeepsCounters(t, info);
    AddThreadKeepsThreadsIndexed(t, info);
  }

  /** Sending a message keeps the tree consistent. */
  lemma SendKeepsConsistent(t: Tree, tid: Key, key: Key, message: Message)
    requires Consistent(t)
    ensures Consistent(Messaging.MessageSent(t, tid, key, message))
  {
    var r := Messaging.MessageSent(t, tid, key, message);
    forall id | id in r.threads && r.threads[id].info.Some?
      ensures var i := r.threads[id].info.value;
        && i.sellerId in r.users && id in r.users[i.sellerId].listMessages
        && i.buyerId in r.users && id in r.users[i.buyerId].listMessages
    {
      if id == tid {
        assert tid in t.threads;
      }
    }
  }

  lemma RemoveKeepsThreadsIndexed(t: Tree, user: Key, tid: Key)
    requires ThreadsIndexed(t)
    ensures ThreadsIndexed(Messaging.MessageRemoved(t, user, tid))
  {
    var r := Messaging.MessageRemoved(t, user, tid);
    forall id | id in r.threads && r.threads[id].info.Some?
      ensures var i := r.threads[id].info.value;
        && i.sellerId in r.users && id in r.users[i.sellerId].listMessages
        && i.buyerId in r.users && id in r.users[i.buyerId].listMessages
    {
      var i := r.threads[id].info.value;
      assert id != tid && t.threads[id] == r.threads[id];
      if user in t.users && (user == i.sellerId || user == i.buyerId) {
        var kept := Messaging.Without(t.users[user].listMessages, tid);
        assert id in multiset(t.users[user].listMessages);
        assert id in multiset(kept);
      }
    }
  }

  lemma RemoveKeepsCounters(t: Tree, user: Key, tid: Key)
    requires CountersAgree(t)
    ensures CountersAgree(Messaging.MessageRemoved(t, user, tid))
  {
  }

  /** Removing a thread keeps the tree consistent; the other participant's
      list may still hold the removed id, which the invariant allows. */
  lemma RemoveKeepsConsistent(t: Tree, user: Key, tid: Key)
    requires Consistent(t)
    ensures Consistent(Messaging.MessageRemoved(t, user, tid))
  {
    RemoveKeepsThreadsIndexed(t, user, tid);
    RemoveKeepsCounters(t, user, tid);
  }

  // ---------------------------------------------------------------------
  // Comments
  // ---------------------------------------------------------------------

  /** The comment operations touch no table the invariant reads. */
  lemma CommentsKeepConsistent(t: Tree, pid: Key, cid: Key, c: Comment)
    requires Consistent(t)
    ensures Consistent(Comments.CommentAdded(t, pid, cid, c))
    ensures Consistent(Comments.CommentRemoved(t, pid, cid))
    ensures Consistent(Comments.CommentEdited(t, pid, cid, c))
  {
    ConsistencyIgnoresComments(t, Comments.CommentAdded(t, pid, cid, c));
    ConsistencyIgnoresComments(t, Comments.CommentRemoved(t, pid, cid));
    ConsistencyIgnoresComments(t, Comments.CommentEdited(t, pid, cid, c));
  }
}
