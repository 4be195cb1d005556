/** A sale: stock, the seller's sales record, the buyer's purchase list and
    purchase counter change together in one multi-path update. */
module Sales {
  import opened Store
  import Catalog

  /** What the caller passes to a sale; `quantity` is the stock the caller
      last saw, `productsQuantity` the number of units bought. */
  datatype SalesInfo = SalesInfo(
    buyerId: Key,
    sellerId: Key,
    sellerName: string,
    productsQuantity: int,
    quantity: int,
    productId: Key,
    productImage: string,
    productName: string,
    price: int,
    createdAt: int)

  /** The product page shows a product as sold out below one unit. */
  predicate SoldOut(p: Product)
  {
    p.quantity < 1
  }

  /** The purchase record stored under the buyer. */
  function PurchaseOf(s: SalesInfo, purchaseId: Key): Purchase
  {
    Purchase(s.sellerId, s.sellerName, purchaseId, s.productImage, s.productName,
             s.price, s.createdAt, s.productId, s.productsQuantity)
  }

  /** The buyer summary appended to the seller's entry. */
  function BuyerOf(buyerId: Key, u: User): BuyerInfo
  {
    BuyerInfo(buyerId, u.address, u.email, u.phone, u.username)
  }

  /** The six writes of a sale, given what was read. */
  function SaleWrites(s: SalesInfo, purchaseId: Key, existingSells: int,
                      buyer: User, existingBuyers: seq<BuyerInfo>): seq<Write>
  {
    var left := s.quantity - s.productsQuantity;
    [ PutProductQuantity(s.productId, left),
      PutPurchase(s.buyerId, purchaseId, PurchaseOf(s, purchaseId)),
      PutSellQuantity(s.sellerId, s.productId, left),
      PutSellsQuantity(s.sellerId, s.productId, existingSells + s.productsQuantity),
      PutBuyerInfo(s.sellerId, s.productId, existingBuyers + [BuyerOf(s.buyerId, buyer)]),
      PutListPurchases(s.buyerId, buyer.listPurchases + 1) ]
  }

  /** The sale's writes in three chunks: stock and record, the seller's
      entry, the buyer's counter. */
  ghost function StockWrites(s: SalesInfo, purchaseId: Key): seq<Write>
  {
    [ PutProductQuantity(s.productId, s.quantity - s.productsQuantity),
      PutPurchase(s.buyerId, purchaseId, PurchaseOf(s, purchaseId)) ]
  }

  ghost function EntryWrites(s: SalesInfo, existingSells: int, buyer: User,
                             existingBuyers: seq<BuyerInfo>): seq<Write>
  {
    [ PutSellQuantity(s.sellerId, s.productId, s.quantity - s.productsQuantity),
      PutSellsQuantity(s.sellerId, s.productId, existingSells + s.productsQuantity),
      PutBuyerInfo(s.sellerId, s.productId, existingBuyers + [BuyerOf(s.buyerId, buyer)]) ]
  }

  ghost function CounterWrites(s: SalesInfo, buyer: User): seq<Write>
  {
    [ PutListPurchases(s.buyerId, buyer.listPurchases + 1) ]
  }

  lemma SaleWritesChunks(s: SalesInfo, purchaseId: Key, existingSells: int,
                         buyer: User, existingBuyers: seq<BuyerInfo>)
    ensures SaleWrites(s, purchaseId, existingSells, buyer, existingBuyers)
      == StockWrites(s, purchaseId) + EntryWrites(s, existingSells, buyer, existingBuyers)
         + CounterWrites(s, buyer)
  {
  }

  /** The sale reads the entry's `sellsQuantity`; without the entry it adds
      to `undefined`, which this model does not follow. */
  predicate SaleReadable(t: Tree, s: SalesInfo)
  {
    s.buyerId in t.users ==> Catalog.HasEntry(t, s.sellerId, s.productId)
  }

  /** The net effect of a sale: stock set to what the caller saw minus the
      units bought, in the product and in the entry; the entry's sales count
      raised and the buyer appended; a purchase record stored; the buyer's
      counter raised by one. Nothing changes when the buyer does not exist. */
  function Sold(t: Tree, s: SalesInfo, purchaseId: Key): (r: Tree)
    requires SaleReadable(t, s)
    ensures s.buyerId !in t.users ==> r == t
    ensures r.threads == t.threads && r.comments == t.comments
    ensures r.users.Keys == t.users.Keys && r.sellList.Keys == t.sellList.Keys
    ensures forall u :: u in t.users ==> r.users[u].listSells == t.users[u].listSells
  {
    if s.buyerId in t.users then
      var e := t.sellList[s.sellerId][s.productId];
      var u := t.users[s.buyerId];
      var left := s.quantity - s.productsQuantity;
      t.(products := t.products[s.productId := ProductAt(t, s.productId).(quantity := left)],
         purchases := PutChild(t.purchases, s.buyerId, purchaseId, PurchaseOf(s, purchaseId)),
         sellList := PutChild(t.sellList, s.sellerId, s.productId,
           e.(quantity := left,
              sellsQuantity := e.sellsQuantity + s.productsQuantity,
              buyerInfo := e.buyerInfo + [BuyerOf(s.buyerId, u)])),
         users := t.users[s.buyerId := u.(listPurchases := u.listPurchases + 1)])
    else t
  }

  /** The six writes, applied in order, have exactly the net effect `Sold`. */
  lemma SaleWritesLand(t: Tree, s: SalesInfo, purchaseId: Key)
    requires s.buyerId in t.users && Catalog.HasEntry(t, s.sellerId, s.productId)
    ensures var e := t.sellList[s.sellerId][s.productId];
      ApplyAll(t, SaleWrites(s, purchaseId, e.sellsQuantity, t.users[s.buyerId], e.buyerInfo))
        == Sold(t, s, purchaseId)
  {
    var e := t.sellList[s.sellerId][s.productId];
    var u := t.users[s.buyerId];
    SaleWritesChunks(s, purchaseId, e.sellsQuantity, u, e.buyerInfo);
    StockChunkLands(t, s, purchaseId);
    EntryChunkLands(t, s, purchaseId);
    CounterChunkLands(t, s, purchaseId);
    StepsAreSold(t, s, purchaseId);
    ApplyAllThree(t, StockWrites(s, purchaseId), EntryWrites(s, e.sellsQuantity, u, e.buyerInfo),
                  CounterWrites(s, u));
  }

  /** A batch lands as its three consecutive chunks do. */
  lemma ApplyAllThree(t: Tree, a: seq<Write>, b: seq<Write>, c: seq<Write>)
    ensures ApplyAll(t, a + b + c) == ApplyAll(ApplyAll(ApplyAll(t, a), b), c)
  {
    ApplyAllConcat(t, a + b, c);
    ApplyAllConcat(t, a, b);
  }

  /** The tree after a sale's first two writes: the stock and the record. */
  ghost function AfterStock(t: Tree, s: SalesInfo, purchaseId: Key): Tree
  {
    t.(products := t.products[s.productId := ProductAt(t, s.productId).(quantity := s.quantity - s.productsQuantity)],
       purchases := PutChild(t.purchases, s.buyerId, purchaseId, PurchaseOf(s, purchaseId)))
  }

  /** The tree after the next three writes, on the seller's entry. */
  ghost function AfterEntry(t: Tree, s: SalesInfo, purchaseId: Key): Tree
    requires s.buyerId in t.users && Catalog.HasEntry(t, s.sellerId, s.productId)
  {
    var e := t.sellList[s.sellerId][s.productId];
    AfterStock(t, s, purchaseId).(sellList := PutChild(t.sellList, s.sellerId, s.productId,
      e.(quantity := s.quantity - s.productsQuantity,
         sellsQuantity := e.sellsQuantity + s.productsQuantity,
         buyerInfo := e.buyerInfo + [BuyerOf(s.buyerId, t.users[s.buyerId])])))
  }

  /** The tree after the last write, on the buyer's counter. */
  ghost function AfterCounter(t: Tree, s: SalesInfo, purchaseId: Key): Tree
    requires s.buyerId in t.users && Catalog.HasEntry(t, s.sellerId, s.productId)
  {
    var u := t.users[s.buyerId];
    AfterEntry(t, s, purchaseId).(users := t.users[s.buyerId := u.(listPurchases := u.listPurchases + 1)])
  }

  /** A sale's first two writes set the stock and add the record. */
  lemma StockChunkLands(t: Tree, s: SalesInfo, purchaseId: Key)
    ensures ApplyAll(t, StockWrites(s, purchaseId)) == AfterStock(t, s, purchaseId)
  {
    ApplyTwo(t, PutProductQuantity(s.productId, s.quantity - s.productsQuantity),
             PutPurchase(s.buyerId, purchaseId, PurchaseOf(s, purchaseId)));
  }

  /** Its next three writes update the seller's entry. */
  lemma EntryChunkLands(t: Tree, s: SalesInfo, purchaseId: Key)
    requires s.buyerId in t.users && Catalog.HasEntry(t, s.sellerId, s.productId)
    ensures var e := t.sellList[s.sellerId][s.productId];
      ApplyAll(AfterStock(t, s, purchaseId), EntryWrites(s, e.sellsQuantity, t.users[s.buyerId], e.buyerInfo))
        == AfterEntry(t, s, purchaseId)
  {
    var e := t.sellList[s.sellerId][s.productId];
    var t2 := AfterStock(t, s, purchaseId);
    assert t2.sellList == t.sellList;
    var r := EntryStepsLand(t2, s.sellerId, s.productId, s.quantity - s.productsQuantity,
                            e.sellsQuantity + s.productsQuantity,
                            e.buyerInfo + [BuyerOf(s.buyerId, t.users[s.buyerId])]);
  }

  /** Its last write bumps the buyer's purchase counter. */
  lemma CounterChunkLands(t: Tree, s: SalesInfo, purchaseId: Key)
    requires s.buyerId in t.users && Catalog.HasEntry(t, s.sellerId, s.productId)
    ensures ApplyAll(AfterEntry(t, s, purchaseId), CounterWrites(s, t.users[s.buyerId]))
      == AfterCounter(t, s, purchaseId)
  {
    var u := t.users[s.buyerId];
    var t5 := AfterEntry(t, s, purchaseId);
    assert t5.users == t.users;
    ApplyOne(t5, PutListPurchases(s.buyerId, u.listPurchases + 1));
  }

  /** The three chunks of a sale, taken in turn, reach `Sold`. */
  lemma StepsAreSold(t: Tree, s: SalesInfo, purchaseId: Key)
    requires s.buyerId in t.users && Catalog.HasEntry(t, s.sellerId, s.productId)
    ensures AfterCounter(t, s, purchaseId) == Sold(t, s, purchaseId)
  {
    SoldIsSteps(t, s, purchaseId);
  }

  /** What a sale does to the lists the counters track: the buyer's
      counter goes up by one, the seller lists keep their keys, one record
      is added below the buyer and no other buyer's records change. */
  ghost predicate RecordAdded(t: Tree, r: Tree, buyer: Key, id: Key, rec: Purchase)
    requires buyer in t.users
  {
    && r.users == t.users[buyer := t.users[buyer].(listPurchases := t.users[buyer].listPurchases + 1)]
    && r.sellList.Keys == t.sellList.Keys
    && (forall v :: Children(r.sellList, v).Keys == Children(t.sellList, v).Keys)
    && r.purchases.Keys == t.purchases.Keys + {buyer}
    && Children(r.purchases, buyer) == Children(t.purchases, buyer)[id := rec]
    && (forall v :: v != buyer ==> Children(r.purchases, v) == Children(t.purchases, v))
  }

  lemma SoldAddsRecord(t: Tree, s: SalesInfo, purchaseId: Key)
    requires s.buyerId in t.users && Catalog.HasEntry(t, s.sellerId, s.productId)
    ensures RecordAdded(t, Sold(t, s, purchaseId), s.buyerId, purchaseId, PurchaseOf(s, purchaseId))
  {
    var e := t.sellList[s.sellerId][s.productId];
    var u := t.users[s.buyerId];
    SoldTables(t, s, purchaseId);
    OverwriteKeepsKeys(t.sellList, s.sellerId, s.productId,
      e.(quantity := s.quantity - s.productsQuantity,
         sellsQuantity := e.sellsQuantity + s.productsQuantity,
         buyerInfo := e.buyerInfo + [BuyerOf(s.buyerId, u)]));
    AddedRecordKeys(t.purchases, s.buyerId, purchaseId, PurchaseOf(s, purchaseId));
  }

  /** Overwriting an existing child keeps every key set. */
  lemma OverwriteKeepsKeys<V>(m: map<Key, map<Key, V>>, k: Key, j: Key, v: V)
    requires k in m && j in m[k]
    ensures PutChild(m, k, j, v).Keys == m.Keys
    ensures forall x :: Children(PutChild(m, k, j, v), x).Keys == Children(m, x).Keys
  {
    forall x
      ensures Children(PutChild(m, k, j, v), x).Keys == Children(m, x).Keys
    {
    }
  }

  /** Adding a child below `k` changes no other parent's children. */
  lemma AddedRecordKeys<V>(m: map<Key, map<Key, V>>, k: Key, j: Key, v: V)
    ensures PutChild(m, k, j, v).Keys == m.Keys + {k}
    ensures Children(PutChild(m, k, j, v), k) == Children(m, k)[j := v]
    ensures forall x :: x != k ==> Children(PutChild(m, k, j, v), x) == Children(m, x)
  {
  }

  /** The three tables a sale touches, one by one. */
  lemma SoldTables(t: Tree, s: SalesInfo, purchaseId: Key)
    requires s.buyerId in t.users && Catalog.HasEntry(t, s.sellerId, s.productId)
    ensures var r := Sold(t, s, purchaseId);
      var e := t.sellList[s.sellerId][s.productId];
      var u := t.users[s.buyerId];
      && r.users == t.users[s.buyerId := u.(listPurchases := u.listPurchases + 1)]
      && r.purchases == PutChild(t.purchases, s.buyerId, purchaseId, PurchaseOf(s, purchaseId))
      && r.sellList == PutChild(t.sellList, s.sellerId, s.productId,
           e.(quantity := s.quantity - s.productsQuantity,
              sellsQuantity := e.sellsQuantity + s.productsQuantity,
              buyerInfo := e.buyerInfo + [BuyerOf(s.buyerId, u)]))
  {
  }

  lemma SoldIsSteps(t: Tree, s: SalesInfo, purchaseId: Key)
    requires s.buyerId in t.users && Catalog.HasEntry(t, s.sellerId, s.productId)
    ensures var e := t.sellList[s.sellerId][s.productId];
      var u := t.users[s.buyerId];
      var left := s.quantity - s.productsQuantity;
      Sold(t, s, purchaseId)
        == t.(products := t.products[s.productId := ProductAt(t, s.productId).(quantity := left)],
              purchases := PutChild(t.purchases, s.buyerId, purchaseId, PurchaseOf(s, purchaseId)))
            .(sellList := PutChild(t.sellList, s.sellerId, s.productId,
                e.(quantity := left, sellsQuantity := e.sellsQuantity + s.productsQuantity,
                   buyerInfo := e.buyerInfo + [BuyerOf(s.buyerId, u)])))
            .(users := t.users[s.buyerId := u.(listPurchases := u.listPurchases + 1)])
  {
  }

  /** The three writes on the seller's entry replace its stock, its sales
      count and its buyers, and keep the rest of the entry. */
  lemma EntryStepsLand(t: Tree, seller: Key, pid: Key, left: int, sold: int, buyers: seq<BuyerInfo>)
    returns (r: Tree)
    requires Catalog.HasEntry(t, seller, pid)
    ensures r == t.(sellList := PutChild(t.sellList, seller, pid,
                    t.sellList[seller][pid].(quantity := left, sellsQuantity := sold, buyerInfo := buyers)))
    ensures ApplyAll(t, [PutSellQuantity(seller, pid, left), PutSellsQuantity(seller, pid, sold),
                         PutBuyerInfo(seller, pid, buyers)]) == r
  {
    var e := t.sellList[seller][pid];
    var e3 := e.(quantity := left);
    var e4 := e3.(sellsQuantity := sold);
    var e5 := e4.(buyerInfo := buyers);
    var t3 := Apply(t, PutSellQuantity(seller, pid, left));
    assert EntryAt(t, seller, pid) == e;
    assert EntryAt(t3, seller, pid) == e3;
    var t4 := Apply(t3, PutSellsQuantity(seller, pid, sold));
    PutChildTwice(t.sellList, seller, pid, e3, e4);
    assert EntryAt(t4, seller, pid) == e4;
    PutChildTwice(t.sellList, seller, pid, e4, e5);
    r := t.(sellList := PutChild(t.sellList, seller, pid, e5));
    ApplyThree(t, PutSellQuantity(seller, pid, left), PutSellsQuantity(seller, pid, sold),
               PutBuyerInfo(seller, pid, buyers));
  }

  /** `salesProducts`: reads the entry's sales count, the buyer and the
      entry's buyers, and writes the six paths in one update; nothing is
      written when the buyer does not exist. */
  method SalesProducts(db: Database, salesInfo: SalesInfo, purchaseId: Key)
    requires SaleReadable(db.root, salesInfo)
    modifies db
    ensures db.root == Sold(old(db.root), salesInfo, purchaseId)
  {
    var sellerId, productId := salesInfo.sellerId, salesInfo.productId;
    var existingSellQuantity := 0;
    if sellerId in db.root.sellList && productId in db.root.sellList[sellerId] {
      existingSellQuantity := db.root.sellList[sellerId][productId].sellsQuantity;
    }
    if salesInfo.buyerId in db.root.users {
      var buyer := db.root.users[salesInfo.buyerId];
      var existingBuyerInfo := db.root.sellList[sellerId][productId].buyerInfo;
      var updates := SaleWrites(salesInfo, purchaseId, existingSellQuantity, buyer, existingBuyerInfo);
      SaleWritesLand(db.root, salesInfo, purchaseId);
      db.Update(updates);
    }
  }

  /** When the caller's stock is the stored stock and the purchase id is
      fresh: stock drops and the sales count rises by the units bought, in
      the product and in the entry alike; the buyer's summary is appended
      after the earlier buyers; the purchase record is stored under the new
      id beside the earlier ones; the buyer's counter rises by one. */
  lemma SaleKeepsCountsTogether(t: Tree, s: SalesInfo, purchaseId: Key)
    requires s.buyerId in t.users && Catalog.HasEntry(t, s.sellerId, s.productId)
    requires s.productId in t.products && s.quantity == t.products[s.productId].quantity
    requires purchaseId !in Children(t.purchases, s.buyerId)
    ensures var r := Sold(t, s, purchaseId);
      var p := t.products[s.productId];
      var e := t.sellList[s.sellerId][s.productId];
      && r.products[s.productId].quantity == p.quantity - s.productsQuantity
      && Catalog.HasEntry(r, s.sellerId, s.productId)
      && r.sellList[s.sellerId][s.productId].sellsQuantity == e.sellsQuantity + s.productsQuantity
      && r.sellList[s.sellerId][s.productId].quantity == r.products[s.productId].quantity
      && r.sellList[s.sellerId][s.productId].buyerInfo == e.buyerInfo + [BuyerOf(s.buyerId, t.users[s.buyerId])]
      && |r.sellList[s.sellerId][s.productId].buyerInfo| == |e.buyerInfo| + 1
      && Children(r.purchases, s.buyerId) == Children(t.purchases, s.buyerId)[purchaseId := PurchaseOf(s, purchaseId)]
      && r.users[s.buyerId].listPurchases == t.users[s.buyerId].listPurchases + 1
      && Children(r.purchases, s.buyerId).Keys == Children(t.purchases, s.buyerId).Keys + {purchaseId}
      && |Children(r.purchases, s.buyerId)| == |Children(t.purchases, s.buyerId)| + 1
      && (Catalog.Mirrors(e, p) ==> Catalog.Mirrors(r.sellList[s.sellerId][s.productId], r.products[s.productId]))
  {
    var r := Sold(t, s, purchaseId);
    SoldTables(t, s, purchaseId);
    AddedRecordKeys(t.purchases, s.buyerId, purchaseId, PurchaseOf(s, purchaseId));
    assert Children(r.purchases, s.buyerId).Keys == Children(t.purchases, s.buyerId).Keys + {purchaseId};
  }

  /** Two sales that take the stock of 5 to 0 leave 5 units sold; nothing stops
      a third sale, which takes the stock to -1. */
  lemma {:induction false} SalesCanOversell(t: Tree, s1: SalesInfo, s2: SalesInfo, s3: SalesInfo, id1: Key, id2: Key, id3: Key)
    requires s1.buyerId in t.users && s2.buyerId in t.users && s3.buyerId in t.users
    requires Catalog.HasEntry(t, s1.sellerId, s1.productId)
    requires s2.sellerId == s1.sellerId && s2.productId == s1.productId
    requires s3.sellerId == s1.sellerId && s3.productId == s1.productId
    requires t.sellList[s1.sellerId][s1.productId].sellsQuantity == 0
    requires s1.quantity == 5 && s1.productsQuantity == 2
    requires s2.quantity == 3 && s2.productsQuantity == 3
    requires s3.quantity == 0 && s3.productsQuantity == 1
    ensures var t1 := Sold(t, s1, id1);
      && SaleReadable(t1, s2)
      && var t2 := Sold(t1, s2, id2);
      && t2.products[s1.productId].quantity == 0
      && SoldOut(t2.products[s1.productId])
      && t2.sellList[s1.sellerId][s1.productId].quantity == 0
      && t2.sellList[s1.sellerId][s1.productId].sellsQuantity == 5
      && SaleReadable(t2, s3)
      && Sold(t2, s3, id3).products[s1.productId].quantity == -1
  {
    var t1 := Sold(t, s1, id1);
    assert Catalog.HasEntry(t1, s1.sellerId, s1.productId);
    assert t1.sellList[s1.sellerId][s1.productId].sellsQuantity == 2;
    var t2 := Sold(t1, s2, id2);
    assert Catalog.HasEntry(t2, s1.sellerId, s1.productId);
  }
}
