/** The backing key-value tree of the marketplace: its records, the paths an
    `update` may write, the multi-path write itself, and the order in which a
    node's children are listed. */
module Store {

  /** A child key of the tree. Generated keys (uuid, push keys) and record ids
      are abstracted to naturals; their numeric order stands for the order in
      which the store lists the children of a node. */
  type Key = nat

  datatype Option<T> = None | Some(value: T)

  /** `images[0]`, which is `undefined` for an empty array. */
  function FirstImage(images: seq<string>): Option<string>
  {
    if |images| == 0 then None else Some(images[0])
  }

  // ---------------------------------------------------------------------
  // Records (timestamps are absolute instants; an optional one may be
  // missing from the stored record)
  // ---------------------------------------------------------------------

  /** The seller summary embedded in a product (`seller._id`, ...). */
  datatype SellerSummary = SellerSummary(id: Key, username: string, avatar: string, address: string)

  /** `usedProducts/<id>`. */
  datatype Product = Product(
    id: Key,
    seller: SellerSummary,
    images: seq<string>,
    productName: string,
    price: int,
    quantity: int,
    createdAt: Option<int>,
    description: string,
    condition: bool,
    deliveryCharge: bool)

  /** One element of an inventory entry's `buyerInfo` array. */
  datatype BuyerInfo = BuyerInfo(buyerId: Key, address: string, email: string, phone: string, username: string)

  /** `userSellList/<seller>/<product>`: the seller's inventory entry. The
      upload of one API version stores `createdAt`, the other `uploadDate`. */
  datatype SellEntry = SellEntry(
    userId: Key,
    usedProductId: Key,
    createdAt: Option<int>,
    uploadDate: Option<int>,
    isSales: bool,
    image: Option<string>,
    productName: string,
    price: int,
    quantity: int,
    sellsQuantity: int,
    buyerInfo: seq<BuyerInfo>)

  /** `users/<id>`; an absent counter or list reads as 0 or `[]`. */
  datatype User = User(
    id: Key,
    username: string,
    email: string,
    avatar: string,
    serviceJoinDate: seq<string>,
    phone: string,
    address: string,
    listCarts: nat,
    listMessages: seq<Key>,
    listPurchases: nat,
    listSells: nat,
    isAdmin: bool)

  /** The fields a message thread is created with. */
  datatype ThreadInfo = ThreadInfo(
    messageId: Key,
    productId: Key,
    sellerId: Key,
    buyerId: Key,
    createdAt: int,
    salesStatus: string)

  /** `usedMessages/<thread>/messages/<key>`. */
  datatype Message = Message(senderId: Key, text: string, timestamp: int)

  /** `usedMessages/<thread>`: `info` is `None` when the node was created only
      by appending a message to a thread that did not exist. */
  datatype Thread = Thread(info: Option<ThreadInfo>, messages: map<Key, Message>)

  /** `usedPurchaseList/<buyer>/<purchaseId>`. */
  datatype Purchase = Purchase(
    sellerId: Key,
    sellerName: string,
    purchaseId: Key,
    productImage: string,
    productName: string,
    price: int,
    createdAt: int,
    productId: Key,
    productsQuantity: int)

  /** A comment is a schemaless object: field name to value. */
  datatype Scalar = Text(text: string) | Number(number: int)
  type Comment = map<string, Scalar>

  /** The whole tree. */
  datatype Tree = Tree(
    products: map<Key, Product>,
    sellList: map<Key, map<Key, SellEntry>>,
    users: map<Key, User>,
    threads: map<Key, Thread>,
    purchases: map<Key, map<Key, Purchase>>,
    comments: map<Key, map<Key, Comment>>)

  /** The children of `m[k]`; a node without children does not exist. */
  function Children<V>(m: map<Key, map<Key, V>>, k: Key): map<Key, V>
  {
    if k in m then m[k] else map[]
  }

  /** Writing `v` at `<k>/<j>` below `m`. */
  function PutChild<V>(m: map<Key, map<Key, V>>, k: Key, j: Key, v: V): map<Key, map<Key, V>>
  {
    m[k := Children(m, k)[j := v]]
  }

  /** A second write at the same place replaces the first. */
  lemma PutChildTwice<V>(m: map<Key, map<Key, V>>, k: Key, j: Key, a: V, b: V)
    ensures PutChild(PutChild(m, k, j, a), k, j, b) == PutChild(m, k, j, b)
  {
    assert Children(PutChild(m, k, j, a), k) == Children(m, k)[j := a];
    assert Children(m, k)[j := a][j := b] == Children(m, k)[j := b];
  }

  // ---------------------------------------------------------------------
  // What a write to a field below an absent record finds there: a node
  // with no other field, whose missing fields read as unset values.
  // ---------------------------------------------------------------------

  const UnsetSeller := SellerSummary(0, "", "", "")

  function ProductAt(t: Tree, pid: Key): Product
  {
    if pid in t.products then t.products[pid]
    else Product(0, UnsetSeller, [], "", 0, 0, None, "", false, false)
  }

  function EntryAt(t: Tree, seller: Key, pid: Key): SellEntry
  {
    var entries := Children(t.sellList, seller);
    if pid in entries then entries[pid]
    else SellEntry(0, 0, None, None, false, None, "", 0, 0, 0, [])
  }

  function UserAt(t: Tree, uid: Key): User
  {
    if uid in t.users then t.users[uid]
    else User(0, "", "", "", [], "", "", 0, [], 0, 0, false)
  }

  function ThreadAt(t: Tree, tid: Key): Thread
  {
    if tid in t.threads then t.threads[tid] else Thread(None, map[])
  }

  // ---------------------------------------------------------------------
  // Writes
  // ---------------------------------------------------------------------

  /** One path-to-value entry of a write; the path is named in each comment. */
  datatype Write =
    | PutProduct(pid: Key, product: Product)                    // usedProducts/<pid>
    | PutProductQuantity(pid: Key, quantity: int)               // usedProducts/<pid>/quantity
    | PutSellEntry(seller: Key, pid: Key, entry: SellEntry)     // userSellList/<seller>/<pid>
    | PutSellQuantity(seller: Key, pid: Key, quantity: int)     //   .../quantity
    | PutSellsQuantity(seller: Key, pid: Key, sells: int)       //   .../sellsQuantity
    | PutBuyerInfo(seller: Key, pid: Key, buyers: seq<BuyerInfo>) // .../buyerInfo
    | PutListSells(uid: Key, count: nat)                        // users/<uid>/listSells
    | PutListPurchases(uid: Key, count: nat)                    // users/<uid>/listPurchases
    | PutListMessages(uid: Key, ids: seq<Key>)                  // users/<uid>/listMessages
    | PutThread(tid: Key, info: ThreadInfo)                     // usedMessages/<tid>
    | DeleteThread(tid: Key)                                    // usedMessages/<tid> := null
    | PutMessage(tid: Key, key: Key, message: Message)          // usedMessages/<tid>/messages/<key>
    | PutPurchase(buyer: Key, purchaseId: Key, purchase: Purchase) // usedPurchaseList/<buyer>/<purchaseId>
    | PutComment(pid: Key, cid: Key, comment: Comment)          // usedComments/<pid>/<cid>
    | DeleteComment(pid: Key, cid: Key)                         // usedComments/<pid>/<cid> := null
    | MergeComment(pid: Key, cid: Key, patch: Comment)          // update(usedComments/<pid>/<cid>, patch)

  /** The tree after one write. A write below an absent record creates it; an
      empty array is not stored, so writing `[]` as the list of an absent user
      creates nothing; an empty patch changes nothing. */
  function Apply(t: Tree, w: Write): Tree
  {
    match w
    case PutProduct(pid, p) =>
      t.(products := t.products[pid := p])
    case PutProductQuantity(pid, q) =>
      t.(products := t.products[pid := ProductAt(t, pid).(quantity := q)])
    case PutSellEntry(s, pid, e) =>
      t.(sellList := PutChild(t.sellList, s, pid, e))
    case PutSellQuantity(s, pid, q) =>
      t.(sellList := PutChild(t.sellList, s, pid, EntryAt(t, s, pid).(quantity := q)))
    case PutSellsQuantity(s, pid, n) =>
      t.(sellList := PutChild(t.sellList, s, pid, EntryAt(t, s, pid).(sellsQuantity := n)))
    case PutBuyerInfo(s, pid, bs) =>
      t.(sellList := PutChild(t.sellList, s, pid, EntryAt(t, s, pid).(buyerInfo := bs)))
    case PutListSells(u, n) =>
      t.(users := t.users[u := UserAt(t, u).(listSells := n)])
    case PutListPurchases(u, n) =>
      t.(users := t.users[u := UserAt(t, u).(listPurchases := n)])
    case PutListMessages(u, ids) =>
      if ids == [] && u !in t.users then t
      else t.(users := t.users[u := UserAt(t, u).(listMessages := ids)])
    case PutThread(tid, info) =>
      t.(threads := t.threads[tid := Thread(Some(info), map[])])
    case DeleteThread(tid) =>
      t.(threads := t.threads - {tid})
    case PutMessage(tid, k, m) =>
      var th := ThreadAt(t, tid);
      t.(threads := t.threads[tid := th.(messages := th.messages[k := m])])
    case PutPurchase(b, id, rec) =>
      t.(purchases := PutChild(t.purchases, b, id, rec))
    case PutComment(pid, cid, c) =>
      t.(comments := PutChild(t.comments, pid, cid, c))
    case DeleteComment(pid, cid) =>
      if pid in t.comments then t.(comments := t.comments[pid := t.comments[pid] - {cid}]) else t
    case MergeComment(pid, cid, patch) =>
      if patch == map[] then t
      else
        var old_ := Children(t.comments, pid);
        var current := if cid in old_ then old_[cid] else map[];
        t.(comments := PutChild(t.comments, pid, cid, current + patch))
  }

  /** The writes of one `update`, in order. */
  function ApplyAll(t: Tree, ws: seq<Write>): Tree
    decreases |ws|
  {
    if ws == [] then t else ApplyAll(Apply(t, ws[0]), ws[1..])
  }

  lemma ApplyOne(t: Tree, a: Write)
    ensures ApplyAll(t, [a]) == Apply(t, a)
  {
    assert [a][1..] == [];
  }

  lemma ApplyTwo(t: Tree, a: Write, b: Write)
    ensures ApplyAll(t, [a, b]) == Apply(Apply(t, a), b)
  {
    assert [a, b][1..] == [b];
    assert [b][1..] == [];
    assert ApplyAll(t, [a, b]) == ApplyAll(Apply(t, a), [b]);
    assert ApplyAll(Apply(t, a), [b]) == ApplyAll(Apply(Apply(t, a), b), []);
  }

  lemma ApplyThree(t: Tree, a: Write, b: Write, c: Write)
    ensures ApplyAll(t, [a, b, c]) == Apply(Apply(Apply(t, a), b), c)
  {
    assert [a, b, c][1..] == [b, c];
    ApplyTwo(Apply(t, a), b, c);
  }

  /** Applying two batches in turn is applying their concatenation. */
  lemma {:induction false} ApplyAllConcat(t: Tree, a: seq<Write>, b: seq<Write>)
    ensures ApplyAll(t, a + b) == ApplyAll(ApplyAll(t, a), b)
    decreases |a|
  {
    if a == [] {
      assert a + b == b;
    } else {
      assert (a + b)[1..] == a[1..] + b;
      ApplyAllConcat(Apply(t, a[0]), a[1..], b);
    }
  }

  /** The backing store: one tree that every operation reads and writes. */
  class Database {
    var root: Tree

    constructor (initial: Tree)
      ensures root == initial
    {
      root := initial;
    }

    /** The multi-path `update`: every write of `ws` lands, in one step, and no
        state between two of them is ever observable. */
    method Update(ws: seq<Write>)
      modifies this
      ensures root == ApplyAll(old(root), ws)
    {
      root := ApplyAll(root, ws);
    }
  }

  // ---------------------------------------------------------------------
  // Listing a node's children (`Object.values(snapshot.val())`)
  // ---------------------------------------------------------------------

  lemma {:induction false} LeastExists(ks: set<Key>)
    requires ks != {}
    ensures exists k :: k in ks && forall j :: j in ks ==> k <= j
  {
    var x :| x in ks;
    if ks != {x} {
      LeastExists(ks - {x});
      var y :| y in ks - {x} && forall j :: j in ks - {x} ==> y <= j;
      var m := if x <= y then x else y;
      forall j | j in ks
        ensures m <= j
      {
        if j != x {
          assert j in ks - {x};
        }
      }
    } else {
      assert forall j :: j in ks ==> x <= j;
    }
  }

  /** The smallest key of a non-empty set. */
  function Least(ks: set<Key>): (k: Key)
    requires ks != {}
    ensures k in ks && forall j :: j in ks ==> k <= j
  {
    LeastExists(ks);
    var k :| k in ks && forall j :: j in ks ==> k <= j;
    k
  }

  /** The keys of a node in the order the store lists them. */
  function KeysInOrder(ks: set<Key>): (r: seq<Key>)
    ensures |r| == |ks|
    ensures forall k :: k in r <==> k in ks
    ensures forall i, j :: 0 <= i < j < |r| ==> r[i] < r[j]
    decreases ks
  {
    if ks == {} then []
    else
      var k := Least(ks);
      [k] + KeysInOrder(ks - {k})
  }

  /** `Object.values` of a node: one value per child, in key order. */
  function Values<V(==)>(m: map<Key, V>): (r: seq<V>)
    ensures |r| == |m|
    ensures forall i :: 0 <= i < |r| ==> r[i] == m[KeysInOrder(m.Keys)[i]]
    ensures forall i :: 0 <= i < |r| ==> r[i] in m.Values
    ensures forall k :: k in m ==> m[k] in r
  {
    var ks := KeysInOrder(m.Keys);
    assert |ks| == |m.Keys| == |m|;
    var r := seq(|ks|, i requires 0 <= i < |ks| => m[ks[i]]);
    assert forall i :: 0 <= i < |r| ==> r[i] == m[ks[i]];
    ValuesCover(m, ks, r);
    r
  }

  lemma ValuesCover<V>(m: map<Key, V>, ks: seq<Key>, r: seq<V>)
    requires forall k :: k in ks <==> k in m
    requires |r| == |ks|
    requires forall i :: 0 <= i < |r| ==> r[i] == m[ks[i]]
    ensures forall i :: 0 <= i < |r| ==> r[i] in m.Values
    ensures forall k :: k in m ==> m[k] in r
  {
    forall i | 0 <= i < |r| ensures r[i] in m.Values {
      assert ks[i] in m;
    }
    forall k | k in m ensures m[k] in r {
      var i :| 0 <= i < |ks| && ks[i] == k;
      assert r[i] == m[k];
    }
  }
}
