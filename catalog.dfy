/** Listing upload and edit: the product record and its mirror in the seller's
    inventory are written by one multi-path update. */
module Catalog {
  import opened Store

  /** Which date field the inventory entry gets: `createdAt` in one API version,
      `uploadDate` in the older one. */
  datatype DateField = CreatedAtField | UploadDateField

  /** The inventory entry an upload creates for `p`. */
  function NewEntry(p: Product, field: DateField): SellEntry
  {
    SellEntry(
      userId := p.seller.id,
      usedProductId := p.id,
      createdAt := if field == CreatedAtField then p.createdAt else None,
      uploadDate := if field == UploadDateField then p.createdAt else None,
      isSales := true,
      image := FirstImage(p.images),
      productName := p.productName,
      price := p.price,
      quantity := p.quantity,
      sellsQuantity := 0,
      buyerInfo := [])
  }

  /** The entry shows the product's name, price and stock. */
  predicate Mirrors(e: SellEntry, p: Product)
  {
    e.productName == p.productName && e.price == p.price && e.quantity == p.quantity
  }

  /** The write set of an upload, given the seller's new `listSells`. */
  function UploadWrites(p: Product, listSells: nat, field: DateField): seq<Write>
  {
    [ PutProduct(p.id, p),
      PutSellEntry(p.seller.id, p.id, NewEntry(p, field)),
      PutListSells(p.seller.id, listSells) ]
  }

  /** The entry's `image` is `images[0]` and both records carry `createdAt`;
      the store rejects an update holding `undefined`, so a product without
      images or without `createdAt` cannot be written. */
  predicate Storable(p: Product)
  {
    p.images != [] && p.createdAt.Some?
  }

  /** The tree after uploading `p`. */
  function Uploaded(t: Tree, p: Product, field: DateField): (r: Tree)
    ensures p.seller.id !in t.users || !Storable(p) ==> r == t
    ensures p.seller.id in t.users && Storable(p) ==>
      var sid := p.seller.id;
      && r.products == t.products[p.id := p]
      && r.sellList == t.sellList[sid := Children(t.sellList, sid)[p.id := NewEntry(p, field)]]
      && r.users == t.users[sid := t.users[sid].(listSells := t.users[sid].listSells + 1)]
      && r.threads == t.threads
      && r.purchases == t.purchases
      && r.comments == t.comments
  {
    var sid := p.seller.id;
    if sid in t.users && Storable(p) then
      var ws := UploadWrites(p, t.users[sid].listSells + 1, field);
      ApplyThree(t, ws[0], ws[1], ws[2]);
      ApplyAll(t, ws)
    else t
  }

  /** What an upload does to the lists the counters track: a new entry
      below the seller, whose sells counter goes up by one. */
  ghost predicate EntryAdded(t: Tree, r: Tree, seller: Key, pid: Key, e: SellEntry)
    requires seller in t.users
  {
    && r.sellList == t.sellList[seller := Children(t.sellList, seller)[pid := e]]
    && r.users == t.users[seller := t.users[seller].(listSells := t.users[seller].listSells + 1)]
    && r.purchases == t.purchases
  }

  lemma UploadedAddsEntry(t: Tree, p: Product, field: DateField)
    requires p.seller.id in t.users && Storable(p)
    ensures EntryAdded(t, Uploaded(t, p, field), p.seller.id, p.id, NewEntry(p, field))
  {
  }

  /** An upload stores a product, an inventory entry that mirrors it with no
      units sold and no buyers, and one more listing on the seller's counter. */
  lemma UploadedEntryMirrorsProduct(t: Tree, p: Product, field: DateField)
    requires p.seller.id in t.users && Storable(p)
    ensures var r := Uploaded(t, p, field);
      && p.id in r.products && r.products[p.id] == p
      && r.users[p.seller.id].listSells == t.users[p.seller.id].listSells + 1
      && p.seller.id in r.sellList && p.id in r.sellList[p.seller.id]
      && var e := r.sellList[p.seller.id][p.id];
         Mirrors(e, p) && e.sellsQuantity == 0 && e.buyerInfo == [] && e.isSales
         && e.image == Some(p.images[0])
         && (field == CreatedAtField ==> e.createdAt == p.createdAt && e.uploadDate == None)
         && (field == UploadDateField ==> e.uploadDate == p.createdAt && e.createdAt == None)
  {
  }

  /** `uploadUsedProducts`: nothing is written when the seller has no user
      record, or when the store rejects the update for an `undefined` value
      (the catch only logs); otherwise one update writes the three paths. */
  method UploadUsedProducts(db: Database, p: Product)
    modifies db
    ensures db.root == Uploaded(old(db.root), p, CreatedAtField)
  {
    var sid := p.seller.id;
    if sid in db.root.users {
      var userData := db.root.users[sid];
      var updates := UploadWrites(p, userData.listSells + 1, CreatedAtField);
      if Storable(p) {
        db.Update(updates);
      }
    }
  }

  /** The older `uploadUsedProducts`, which dates the entry with `uploadDate`. */
  method UploadUsedProductsDated(db: Database, p: Product)
    modifies db
    ensures db.root == Uploaded(old(db.root), p, UploadDateField)
  {
    var sid := p.seller.id;
    if sid in db.root.users {
      var userData := db.root.users[sid];
      var updates := UploadWrites(p, userData.listSells + 1, UploadDateField);
      if Storable(p) {
        db.Update(updates);
      }
    }
  }

  /** The write set of an edit, given the existing entry. */
  function EditWrites(p: Product, entry: SellEntry): seq<Write>
  {
    [ PutProduct(p.id, p),
      PutSellEntry(p.seller.id, p.id,
        entry.(productName := p.productName, price := p.price, quantity := p.quantity)) ]
  }

  predicate HasEntry(t: Tree, seller: Key, pid: Key)
  {
    seller in t.sellList && pid in t.sellList[seller]
  }

  /** The tree after editing `p`. */
  function Edited(t: Tree, p: Product): (r: Tree)
    ensures !HasEntry(t, p.seller.id, p.id) ==> r == t
    ensures HasEntry(t, p.seller.id, p.id) ==>
      var sid := p.seller.id;
      var e := t.sellList[sid][p.id];
      && r.products == t.products[p.id := p]
      && r.sellList == t.sellList[sid := t.sellList[sid][p.id :=
           e.(productName := p.productName, price := p.price, quantity := p.quantity)]]
      && r.users == t.users
      && r.threads == t.threads
      && r.purchases == t.purchases
      && r.comments == t.comments
  {
    if HasEntry(t, p.seller.id, p.id) then
      var ws := EditWrites(p, t.sellList[p.seller.id][p.id]);
      ApplyTwo(t, ws[0], ws[1]);
      ApplyAll(t, ws)
    else t
  }

  /** An edit makes the entry mirror the new product and keeps every other
      field of the entry: sales count, buyers, image, dates, status. */
  lemma EditKeepsSalesHistory(t: Tree, p: Product)
    requires HasEntry(t, p.seller.id, p.id)
    ensures var r := Edited(t, p);
      var before := t.sellList[p.seller.id][p.id];
      && HasEntry(r, p.seller.id, p.id)
      && var after := r.sellList[p.seller.id][p.id];
         Mirrors(after, p)
         && after.sellsQuantity == before.sellsQuantity
         && after.buyerInfo == before.buyerInfo
         && after.image == before.image
         && after.isSales == before.isSales
         && after.createdAt == before.createdAt
         && after.uploadDate == before.uploadDate
         && after.userId == before.userId
         && after.usedProductId == before.usedProductId
  {
  }

  /** `editUsedProducts`: a no-op when the seller's entry for the product does
      not exist. */
  method EditUsedProducts(db: Database, p: Product)
    modifies db
    ensures db.root == Edited(old(db.root), p)
  {
    var sid := p.seller.id;
    if sid in db.root.sellList && p.id in db.root.sellList[sid] {
      var userSellListInfo := db.root.sellList[sid][p.id];
      var updates := EditWrites(p, userSellListInfo);
      db.Update(updates);
    }
  }
}
