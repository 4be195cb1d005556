/** The read side of the catalogue: search, the newest-first listings and the
    single-record lookup. */
module Queries {
  import opened Store
  import opened Sequences
  import opened Text
  import Catalog

  /** The search predicate: the product has a name, and the lower-cased query
      occurs in the lower-cased name. */
  predicate MatchesQuery(p: Product, query: string)
  {
    p.productName != "" && Contains(ToLower(p.productName), ToLower(query))
  }

  function FilterMatching(ps: seq<Product>, query: string): (r: seq<Product>)
    ensures forall p :: p in r <==> p in ps && MatchesQuery(p, query)
    ensures forall p :: multiset(r)[p] == if MatchesQuery(p, query) then multiset(ps)[p] else 0
    ensures Subsequence(r, ps)
    decreases |ps|
  {
    if ps == [] then []
    else
      assert ps == [ps[0]] + ps[1..];
      assert multiset(ps) == multiset{ps[0]} + multiset(ps[1..]);
      if MatchesQuery(ps[0], query) then
        var r := FilterMatching(ps[1..], query);
        assert multiset([ps[0]] + r) == multiset{ps[0]} + multiset(r);
        [ps[0]] + r
      else
        var r := FilterMatching(ps[1..], query);
        assert r != [] ==> r[0] != ps[0];
        r
  }

  /** `searchUsedProducts`: the stored products that match, in store order. */
  function SearchUsedProducts(t: Tree, query: string): (r: seq<Product>)
    ensures forall p :: p in r <==> p in t.products.Values && MatchesQuery(p, query)
    ensures forall p :: multiset(r)[p] == if MatchesQuery(p, query) then multiset(Values(t.products))[p] else 0
    ensures Subsequence(r, Values(t.products))
    ensures t.products == map[] ==> r == []
  {
    var all := Values(t.products);
    assert forall p :: p in all <==> p in t.products.Values by {
      forall p | p in t.products.Values ensures p in all {
        var k :| k in t.products && t.products[k] == p;
      }
    }
    FilterMatching(all, query)
  }

  /** The query's case does not matter. */
  lemma SearchIgnoresQueryCase(t: Tree, query: string)
    ensures SearchUsedProducts(t, ToLower(query)) == SearchUsedProducts(t, query)
  {
    ToLowerIdempotent(query);
    FilterAgrees(Values(t.products), ToLower(query), query);
  }

  /** Two queries that every product matches alike filter alike. */
  lemma {:induction false} FilterAgrees(ps: seq<Product>, q1: string, q2: string)
    requires forall p :: MatchesQuery(p, q1) == MatchesQuery(p, q2)
    ensures FilterMatching(ps, q1) == FilterMatching(ps, q2)
    decreases |ps|
  {
    if ps != [] {
      FilterAgrees(ps[1..], q1, q2);
    }
  }

  /** The empty query returns every product that has a name. */
  lemma EmptyQueryListsNamedProducts(t: Tree, p: Product)
    requires p in t.products.Values
    ensures p in SearchUsedProducts(t, "") <==> p.productName != ""
  {
    assert ToLower("") == "";
    assert "" <= ToLower(p.productName);
  }

  /** A product just uploaded is found by any part of its name, in any case. */
  lemma {:induction false} UploadedProductIsFound(t: Tree, p: Product, field: Catalog.DateField, i: nat, j: nat)
    requires p.seller.id in t.users && Catalog.Storable(p)
    requires i < j <= |p.productName|
    ensures p in SearchUsedProducts(Catalog.Uploaded(t, p, field), p.productName[i..j])
  {
    var r := Catalog.Uploaded(t, p, field);
    assert r.products[p.id] == p;
    var name := ToLower(p.productName);
    var q := ToLower(p.productName[i..j]);
    assert q == name[i..j];
    assert OccursAt(name, q, i);
    ContainsAt(name, q, i);
  }

  function ProductCreatedAt(p: Product): Option<int>
  {
    p.createdAt
  }

  /** The older `getUsedProducts`: every product, newest first; a product
      without `createdAt` empties the result once there are two or more. */
  function GetUsedProducts(t: Tree): (r: seq<Product>)
    ensures AllStamped(Values(t.products), ProductCreatedAt) ==>
      && multiset(r) == multiset(Values(t.products))
      && Descending(r, StampOrZero(ProductCreatedAt))
    ensures !AllStamped(Values(t.products), ProductCreatedAt) && |t.products| >= 2 ==> r == []
    ensures |t.products| == 1 ==> r == Values(t.products)
    ensures t.products == map[] ==> r == []
  {
    SortedDescOrEmpty(Values(t.products), ProductCreatedAt)
  }

  function EntryUploadDate(e: SellEntry): Option<int>
  {
    e.uploadDate
  }

  /** The older `getMyPageInfo`: the seller's inventory, newest `uploadDate`
      first; an entry without `uploadDate` empties the result once there are
      two or more. */
  function GetMyPageInfo(t: Tree, uid: Key): (r: seq<SellEntry>)
    ensures uid !in t.sellList ==> r == []
    ensures AllStamped(Values(Children(t.sellList, uid)), EntryUploadDate) ==>
      && multiset(r) == multiset(Values(Children(t.sellList, uid)))
      && Descending(r, StampOrZero(EntryUploadDate))
    ensures !AllStamped(Values(Children(t.sellList, uid)), EntryUploadDate) && |Children(t.sellList, uid)| >= 2 ==>
      r == []
    ensures |Children(t.sellList, uid)| == 1 ==> r == Values(Children(t.sellList, uid))
    ensures Children(t.sellList, uid) == map[] ==> r == []
  {
    SortedDescOrEmpty(Values(Children(t.sellList, uid)), EntryUploadDate)
  }

  /** Entries written by the newer upload carry `createdAt` but no
      `uploadDate`, so once a seller has two of them the older inventory page
      shows nothing. */
  lemma NewerUploadsHideOlderInventoryPage(t: Tree, p1: Product, p2: Product)
    requires p1.seller.id == p2.seller.id && p1.seller.id in t.users
    requires Catalog.Storable(p1) && Catalog.Storable(p2)
    requires p1.id != p2.id
    ensures GetMyPageInfo(Catalog.Uploaded(Catalog.Uploaded(t, p1, Catalog.CreatedAtField), p2, Catalog.CreatedAtField), p1.seller.id) == []
  {
    var sid := p1.seller.id;
    var t1 := Catalog.Uploaded(t, p1, Catalog.CreatedAtField);
    var t2 := Catalog.Uploaded(t1, p2, Catalog.CreatedAtField);
    var m := Children(t2.sellList, sid);
    assert p1.id in m && p2.id in m;
    assert {p1.id, p2.id} <= m.Keys;
    assert |{p1.id, p2.id}| == 2;
    SubsetCard({p1.id, p2.id}, m.Keys);
    var vs := Values(m);
    assert m[p1.id].uploadDate == None;
    assert m[p1.id] in vs;
    assert !AllStamped(vs, EntryUploadDate);
  }

  lemma {:induction false} SubsetCard(a: set<Key>, b: set<Key>)
    requires a <= b
    ensures |a| <= |b|
    decreases a
  {
    if a != {} {
      var x :| x in a;
      SubsetCard(a - {x}, b - {x});
    }
  }

  /** `getUsedPageSortData` on one node: its children, newest `createdAt`
      first, or `[]` when a child lacks the field and there are two or more. */
  function GetUsedPageSortData<T(==)>(node: map<Key, T>, createdAt: T -> Option<int>): (r: seq<T>)
    ensures AllStamped(Values(node), createdAt) ==>
      && multiset(r) == multiset(Values(node))
      && Descending(r, StampOrZero(createdAt))
    ensures !AllStamped(Values(node), createdAt) && |node| >= 2 ==> r == []
    ensures |node| == 1 ==> r == Values(node)
    ensures node == map[] ==> r == []
  {
    SortedDescOrEmpty(Values(node), createdAt)
  }

  /** The newer product listing reads `usedProducts` through the sort helper. */
  lemma ListingIsNewestFirst(t: Tree, p: Product, q: Product)
    requires AllStamped(Values(t.products), ProductCreatedAt)
    requires p in t.products.Values && q in t.products.Values
    requires p.createdAt.Some? && q.createdAt.Some? && p.createdAt.value > q.createdAt.value
    ensures var r := GetUsedPageSortData(t.products, ProductCreatedAt);
      exists i, j :: 0 <= i < j < |r| && r[i] == p && r[j] == q
  {
    var vs := Values(t.products);
    var r := GetUsedPageSortData(t.products, ProductCreatedAt);
    assert multiset(r) == multiset(vs);
    var kp :| kp in t.products && t.products[kp] == p;
    var kq :| kq in t.products && t.products[kq] == q;
    assert p in vs && q in vs;
    assert p in multiset(vs) && q in multiset(vs);
    assert p in r && q in r;
    var i :| 0 <= i < |r| && r[i] == p;
    var j :| 0 <= j < |r| && r[j] == q;
    var key := StampOrZero(ProductCreatedAt);
    assert key(r[i]) > key(r[j]);
    DescendingPlacesGreaterFirst(r, key, i, j);
  }

  lemma DescendingPlacesGreaterFirst<T>(s: seq<T>, key: T -> int, i: int, j: int)
    requires Descending(s, key)
    requires 0 <= i < |s| && 0 <= j < |s| && key(s[i]) > key(s[j])
    ensures i < j
  {
  }

  /** `getUsedPageMainInfo` and `getUsedProductDetail`: the child stored at
      `id`, or nothing when it does not exist. */
  function GetUsedPageMainInfo<T>(node: map<Key, T>, id: Key): (r: Option<T>)
    ensures r.Some? <==> id in node
    ensures r.Some? ==> r.value == node[id]
  {
    if id in node then Some(node[id]) else None
  }

  /** An uploaded product reads back unchanged from its detail page. */
  lemma UploadThenDetailRoundTrip(t: Tree, p: Product, field: Catalog.DateField)
    requires p.seller.id in t.users && Catalog.Storable(p)
    ensures GetUsedPageMainInfo(Catalog.Uploaded(t, p, field).products, p.id) == Some(p)
  {
  }
}
