/** Message threads: creation with both participants' thread lists, lookup of
    the buyer's thread for a product, the thread list page, sending and reading
    messages, and removal. */
module Messaging {
  import opened Store
  import opened Sequences

  /** `userData.listMessages || []`, or `[]` when the user does not exist. */
  function ListMessagesOf(t: Tree, uid: Key): seq<Key>
  {
    if uid in t.users then t.users[uid].listMessages else []
  }

  // ---------------------------------------------------------------------
  // Creating a thread
  // ---------------------------------------------------------------------

  function AddThreadWrites(info: ThreadInfo, sellerPrev: seq<Key>, buyerPrev: seq<Key>): seq<Write>
  {
    [ PutThread(info.messageId, info),
      PutListMessages(info.sellerId, sellerPrev + [info.messageId]),
      PutListMessages(info.buyerId, buyerPrev + [info.messageId]) ]
  }

  /** The tree after creating the thread `info`. A participant without a user
      record gets one that holds only the list. */
  function ThreadAdded(t: Tree, info: ThreadInfo): (r: Tree)
    ensures r.threads == t.threads[info.messageId := Thread(Some(info), map[])]
    ensures r.users == t.users
      [info.sellerId := UserAt(t, info.sellerId).(listMessages := ListMessagesOf(t, info.sellerId) + [info.messageId])]
      [info.buyerId := UserAt(t, info.buyerId).(listMessages := ListMessagesOf(t, info.buyerId) + [info.messageId])]
    ensures r.products == t.products && r.sellList == t.sellList
    ensures r.purchases == t.purchases && r.comments == t.comments
  {
    var ws := AddThreadWrites(info, ListMessagesOf(t, info.sellerId), ListMessagesOf(t, info.buyerId));
    ApplyThree(t, ws[0], ws[1], ws[2]);
    ApplyAll(t, ws)
  }

  /** Both participants' lists keep their earlier ids and end with the new one. */
  lemma ThreadListedByBoth(t: Tree, info: ThreadInfo)
    ensures var r := ThreadAdded(t, info);
      && info.sellerId in r.users && info.buyerId in r.users
      && r.users[info.buyerId].listMessages == ListMessagesOf(t, info.buyerId) + [info.messageId]
      && r.users[info.sellerId].listMessages[..|ListMessagesOf(t, info.sellerId)|] == ListMessagesOf(t, info.sellerId)
      && Last(r.users[info.sellerId].listMessages) == info.messageId
  {
  }

  function Last(s: seq<Key>): Key
    requires s != []
  {
    s[|s| - 1]
  }

  /** `addMessagesPage`: one update stores the thread and appends its id to the
      seller's and the buyer's `listMessages`. */
  method AddMessagesPage(db: Database, messageData: ThreadInfo)
    modifies db
    ensures db.root == ThreadAdded(old(db.root), messageData)
  {
    var sellerPrevMessages := ListMessagesOf(db.root, messageData.sellerId);
    var buyerPrevMessages := ListMessagesOf(db.root, messageData.buyerId);
    var updates := AddThreadWrites(messageData, sellerPrevMessages, buyerPrevMessages);
    db.Update(updates);
  }

  // ---------------------------------------------------------------------
  // Finding the buyer's thread for a product
  // ---------------------------------------------------------------------

  /** The thread stored at `id` exists and is about product `pid`. */
  predicate IsThreadFor(threads: map<Key, Thread>, id: Key, pid: Key)
  {
    id in threads && threads[id].info.Some? && threads[id].info.value.productId == pid
  }

  /** The first thread, in the order of `ids`, that is about `pid`; ids of
      missing threads are passed over. */
  function ScanThreads(threads: map<Key, Thread>, ids: seq<Key>, pid: Key): (r: Option<Thread>)
    ensures r.None? <==> forall j :: 0 <= j < |ids| ==> !IsThreadFor(threads, ids[j], pid)
    ensures r.Some? ==> exists i :: FirstMatchAt(threads, ids, pid, i) && r.value == threads[ids[i]]
  {
    if ids == [] then None
    else if IsThreadFor(threads, ids[0], pid) then
      assert FirstMatchAt(threads, ids, pid, 0);
      Some(threads[ids[0]])
    else
      var r := ScanThreads(threads, ids[1..], pid);
      assert r.Some? ==> exists i :: FirstMatchAt(threads, ids, pid, i) && r.value == threads[ids[i]] by {
        if r.Some? {
          var i :| FirstMatchAt(threads, ids[1..], pid, i) && r.value == threads[ids[1..][i]];
          assert FirstMatchAt(threads, ids, pid, i + 1);
        }
      }
      r
  }

  /** `ids[i]` is a thread about `pid` and no earlier id is. */
  predicate FirstMatchAt(threads: map<Key, Thread>, ids: seq<Key>, pid: Key, i: int)
  {
    && 0 <= i < |ids|
    && IsThreadFor(threads, ids[i], pid)
    && forall j :: 0 <= j < i ==> !IsThreadFor(threads, ids[j], pid)
  }

  /** What `checkMessage` answers for `buyer` and `pid`. */
  function FirstThreadFor(t: Tree, buyer: Key, pid: Key): (r: Option<Thread>)
    ensures buyer !in t.users || t.users[buyer].listMessages == [] ==> r == None
    ensures r.Some? ==> r.value.info.Some? && r.value.info.value.productId == pid
  {
    if buyer in t.users then ScanThreads(t.threads, t.users[buyer].listMessages, pid) else None
  }

  /** `checkMessage`: scans the buyer's `listMessages` in order and returns the
      first stored thread about the product, or `None`. */
  method CheckMessage(db: Database, buyerId: Key, productId: Key) returns (r: Option<Thread>)
    ensures r == FirstThreadFor(db.root, buyerId, productId)
  {
    if buyerId !in db.root.users {
      return None;
    }
    var listMessages := db.root.users[buyerId].listMessages;
    if |listMessages| == 0 {
      return None;
    }
    for i := 0 to |listMessages|
      invariant forall j :: 0 <= j < i ==> !IsThreadFor(db.root.threads, listMessages[j], productId)
    {
      var messageId := listMessages[i];
      if messageId in db.root.threads {
        var messageData := db.root.threads[messageId];
        if messageData.info.Some? && messageData.info.value.productId == productId {
          assert FirstMatchAt(db.root.threads, listMessages, productId, i);
          ghost var found := ScanThreads(db.root.threads, listMessages, productId);
          ghost var k :| FirstMatchAt(db.root.threads, listMessages, productId, k) && found.value == db.root.threads[listMessages[k]];
          assert k == i;
          return Some(messageData);
        }
      }
    }
    return None;
  }

  lemma {:induction false} ScanFindsAppendedThread(threads: map<Key, Thread>, ids: seq<Key>, pid: Key, tid: Key, th: Thread)
    requires ScanThreads(threads, ids, pid).None?
    requires th.info.Some? && th.info.value.productId == pid
    ensures ScanThreads(threads[tid := th], ids + [tid], pid) == Some(th)
    decreases |ids|
  {
    var threads' := threads[tid := th];
    if ids == [] {
      assert [] + [tid] == [tid];
    } else {
      assert (ids + [tid])[0] == ids[0];
      assert (ids + [tid])[1..] == ids[1..] + [tid];
      if ids[0] != tid {
        assert !IsThreadFor(threads, ids[0], pid);
        assert !IsThreadFor(threads', ids[0], pid);
        assert ScanThreads(threads, ids[1..], pid).None?;
        ScanFindsAppendedThread(threads, ids[1..], pid, tid, th);
      }
    }
  }

  /** The contact flow of the product page: when `checkMessage` found nothing a
      thread is created, and the next `checkMessage` for the same buyer and
      product returns that thread, so no second thread is made. */
  lemma FindOrCreateReusesThread(t: Tree, info: ThreadInfo)
    requires FirstThreadFor(t, info.buyerId, info.productId).None?
    ensures FirstThreadFor(ThreadAdded(t, info), info.buyerId, info.productId)
         == Some(Thread(Some(info), map[]))
  {
    var ids := ListMessagesOf(t, info.buyerId);
    assert ScanThreads(t.threads, ids, info.productId).None?;
    ScanFindsAppendedThread(t.threads, ids, info.productId, info.messageId, Thread(Some(info), map[]));
  }

  // ---------------------------------------------------------------------
  // The thread list page
  // ---------------------------------------------------------------------

  /** One row of the thread list: the product's fields, then the thread's own
      fields spread over them. */
  datatype MessageResult = MessageResult(
    productName: string,
    productImage: string,
    price: int,
    quantity: int,
    seller: SellerSummary,
    info: ThreadInfo,
    messages: map<Key, Message>)

  /** A row reads `images[0]`, which throws for a product with no images (the
      store keeps no empty list, so the field is absent). */
  function Joined(p: Product, th: Thread): MessageResult
    requires th.info.Some? && p.images != []
  {
    MessageResult(p.productName, p.images[0], p.price, p.quantity, p.seller, th.info.value, th.messages)
  }

  /** The first loop: the stored threads of `ids`, in order. */
  function ExistingThreads(threads: map<Key, Thread>, ids: seq<Key>): seq<Thread>
  {
    if ids == [] then []
    else
      var last := ids[|ids| - 1];
      ExistingThreads(threads, ids[..|ids| - 1]) + (if last in threads then [threads[last]] else [])
  }

  /** One step of the second loop: a row for `th` when its product exists,
      or a throw when that product has no images. */
  function JoinStep(products: map<Key, Product>, before: Option<seq<MessageResult>>, th: Thread): Option<seq<MessageResult>>
  {
    if before.None? then None
    else if th.info.Some? && th.info.value.productId in products then
      var p := products[th.info.value.productId];
      if p.images == [] then None else Some(before.value + [Joined(p, th)])
    else before
  }

  /** The second loop: a row for each thread whose product exists, or `None`
      once a product without images makes the loop throw. */
  function JoinProducts(products: map<Key, Product>, found: seq<Thread>): Option<seq<MessageResult>>
  {
    if found == [] then Some([])
    else JoinStep(products, JoinProducts(products, found[..|found| - 1]), found[|found| - 1])
  }

  /** Joining two runs of threads: a throw in either is a throw. */
  function Chain(a: Option<seq<MessageResult>>, b: Option<seq<MessageResult>>): Option<seq<MessageResult>>
  {
    if a.None? || b.None? then None else Some(a.value + b.value)
  }

  /** What `getMessageList` returns: the rows, or `[]` when the loop threw.
      There is at most one row per listed id. */
  function MessageList(t: Tree, ids: seq<Key>): (r: seq<MessageResult>)
    ensures ids == [] ==> r == []
    ensures (exists i :: 0 <= i < |ids| && Throws(t, ids[i])) ==> r == []
    ensures |r| <= |ids|
  {
    ListedThrows(t, ids);
    var rows := JoinProducts(t.products, ExistingThreads(t.threads, ids));
    if rows.None? then [] else rows.value
  }

  /** The thread at `id` exists and so does its product. */
  predicate Resolves(t: Tree, id: Key)
  {
    id in t.threads && t.threads[id].info.Some? && t.threads[id].info.value.productId in t.products
  }

  /** The thread at `id` resolves to a product whose `images[0]` throws. */
  predicate Throws(t: Tree, id: Key)
  {
    Resolves(t, id) && t.products[t.threads[id].info.value.productId].images == []
  }

  function RowFor(t: Tree, id: Key): MessageResult
    requires Resolves(t, id) && !Throws(t, id)
  {
    Joined(t.products[t.threads[id].info.value.productId], t.threads[id])
  }

  lemma {:induction false} JoinProductsAppend(products: map<Key, Product>, a: seq<Thread>, b: seq<Thread>)
    ensures JoinProducts(products, a + b) == Chain(JoinProducts(products, a), JoinProducts(products, b))
    decreases |b|
  {
    if b == [] {
      assert a + b == a;
      var x := JoinProducts(products, a);
      if x.Some? {
        assert x.value + [] == x.value;
      }
    } else {
      var init, th := b[..|b| - 1], b[|b| - 1];
      assert (a + b)[..|a + b| - 1] == a + init && (a + b)[|a + b| - 1] == th;
      JoinProductsAppend(products, a, init);
      var x, y := JoinProducts(products, a), JoinProducts(products, init);
      if x.Some? && y.Some? && th.info.Some? && th.info.value.productId in products {
        var p := products[th.info.value.productId];
        if p.images != [] {
          assert (x.value + y.value) + [Joined(p, th)] == x.value + (y.value + [Joined(p, th)]);
        }
      }
    }
  }

  /** The rows of `ids + [id]`: the rows of `ids` followed by the row for `id`
      when its thread and product exist; `None` once any of them throws. */
  lemma ListedAppend(t: Tree, ids: seq<Key>, id: Key)
    ensures var before := JoinProducts(t.products, ExistingThreads(t.threads, ids));
      JoinProducts(t.products, ExistingThreads(t.threads, ids + [id]))
        == if before.None? || Throws(t, id) then None
           else Some(before.value + (if Resolves(t, id) then [RowFor(t, id)] else []))
  {
    var found := ExistingThreads(t.threads, ids);
    assert (ids + [id])[..|ids|] == ids;
    if id in t.threads {
      var th := t.threads[id];
      assert ExistingThreads(t.threads, ids + [id]) == found + [th];
      JoinProductsAppend(t.products, found, [th]);
      JoinSingle(t.products, th);
      var before := JoinProducts(t.products, found);
      if Resolves(t, id) && !Throws(t, id) {
        assert [] + [RowFor(t, id)] == [RowFor(t, id)];
        assert JoinStep(t.products, Some([]), th) == Some([RowFor(t, id)]);
      } else if !Resolves(t, id) {
        assert JoinStep(t.products, Some([]), th) == Some([]);
        if before.Some? {
          assert before.value + [] == before.value;
        }
      }
    } else {
      assert ExistingThreads(t.threads, ids + [id]) == found + [];
      assert found + [] == found;
      var before := JoinProducts(t.products, found);
      if before.Some? {
        assert before.value + [] == before.value;
      }
    }
  }

  /** One thread joins as one step from the empty list. */
  lemma JoinSingle(products: map<Key, Product>, th: Thread)
    ensures JoinProducts(products, [th]) == JoinStep(products, Some([]), th)
  {
    assert [th][..0] == [];
  }

  /** When no listed thread throws, the list for `ids + [id]` is the list for
      `ids` followed by the row for `id` when its thread and product exist;
      a thread that throws empties the list. */
  lemma MessageListAppend(t: Tree, ids: seq<Key>, id: Key)
    requires JoinProducts(t.products, ExistingThreads(t.threads, ids)).Some?
    ensures Throws(t, id) ==> MessageList(t, ids + [id]) == []
    ensures !Throws(t, id) ==>
      MessageList(t, ids + [id]) == MessageList(t, ids) + (if Resolves(t, id) then [RowFor(t, id)] else [])
  {
    ListedAppend(t, ids, id);
  }

  /** The join throws exactly when some listed thread's product has no
      images; otherwise it yields at most one row per listed id. */
  lemma {:induction false} ListedThrows(t: Tree, ids: seq<Key>)
    ensures JoinProducts(t.products, ExistingThreads(t.threads, ids)).None?
        <==> exists i :: 0 <= i < |ids| && Throws(t, ids[i])
    ensures JoinProducts(t.products, ExistingThreads(t.threads, ids)).Some? ==>
      |JoinProducts(t.products, ExistingThreads(t.threads, ids)).value| <= |ids|
    decreases |ids|
  {
    if ids != [] {
      var init := ids[..|ids| - 1];
      var id := ids[|ids| - 1];
      assert ids == init + [id];
      ListedAppend(t, init, id);
      ListedThrows(t, init);
      forall i | 0 <= i < |init|
        ensures init[i] == ids[i]
      {
      }
      if exists i :: 0 <= i < |ids| && Throws(t, ids[i]) {
        var i :| 0 <= i < |ids| && Throws(t, ids[i]);
        if i < |init| {
          assert Throws(t, init[i]);
        }
      }
    }
  }

  /** When no listed thread's product lacks images, a row is listed exactly
      when it is the row of some listed id whose thread and product exist. */
  lemma {:induction false} MessageListRows(t: Tree, ids: seq<Key>, row: MessageResult)
    requires forall i :: 0 <= i < |ids| ==> !Throws(t, ids[i])
    ensures row in MessageList(t, ids)
       <==> exists i :: 0 <= i < |ids| && Resolves(t, ids[i]) && !Throws(t, ids[i]) && row == RowFor(t, ids[i])
    decreases |ids|
  {
    if ids != [] {
      var init := ids[..|ids| - 1];
      var id := ids[|ids| - 1];
      assert ids == init + [id];
      ListedThrows(t, init);
      assert forall i :: 0 <= i < |init| ==> init[i] == ids[i];
      MessageListAppend(t, init, id);
      MessageListRows(t, init, row);
      if exists i :: 0 <= i < |ids| && Resolves(t, ids[i]) && !Throws(t, ids[i]) && row == RowFor(t, ids[i]) {
        var i :| 0 <= i < |ids| && Resolves(t, ids[i]) && !Throws(t, ids[i]) && row == RowFor(t, ids[i]);
        if i < |init| {
          assert init[i] == ids[i];
        }
      }
    }
  }

  /** `getMessageList`: collects the stored threads of `listMessages`, then a
      row for each whose product exists; a product without images throws and
      the catch returns `[]`. */
  method GetMessageList(db: Database, listMessages: seq<Key>) returns (r: seq<MessageResult>)
    ensures r == MessageList(db.root, listMessages)
  {
    var messagesDb: seq<Thread> := [];
    for i := 0 to |listMessages|
      invariant messagesDb == ExistingThreads(db.root.threads, listMessages[..i])
    {
      var messageId := listMessages[i];
      assert listMessages[..i + 1][..i] == listMessages[..i];
      if messageId in db.root.threads {
        messagesDb := messagesDb + [db.root.threads[messageId]];
      }
    }
    assert listMessages[..|listMessages|] == listMessages;
    if |messagesDb| > 0 {
      var messageResults: seq<MessageResult> := [];
      for i := 0 to |messagesDb|
        invariant JoinProducts(db.root.products, messagesDb[..i]) == Some(messageResults)
      {
        var messages := messagesDb[i];
        assert messagesDb[..i + 1][..i] == messagesDb[..i];
        if messages.info.Some? && messages.info.value.productId in db.root.products {
          var product := db.root.products[messages.info.value.productId];
          if product.images == [] {
            assert messagesDb == messagesDb[..i + 1] + messagesDb[i + 1..];
            JoinProductsAppend(db.root.products, messagesDb[..i + 1], messagesDb[i + 1..]);
            return [];
          }
          messageResults := messageResults + [Joined(product, messages)];
        }
      }
      assert messagesDb[..|messagesDb|] == messagesDb;
      return messageResults;
    }
    return [];
  }

  // ---------------------------------------------------------------------
  // Sending and reading messages
  // ---------------------------------------------------------------------

  /** The tree after storing `message` under the fresh push key `key`; a thread
      that does not exist is created holding only that message. */
  function MessageSent(t: Tree, tid: Key, key: Key, message: Message): (r: Tree)
    ensures tid in r.threads && r.threads[tid].info == ThreadAt(t, tid).info
    ensures r.threads[tid].messages == ThreadAt(t, tid).messages[key := message]
    ensures forall other :: other != tid ==> (other in r.threads <==> other in t.threads)
    ensures forall other :: other != tid && other in t.threads ==> r.threads[other] == t.threads[other]
    ensures r.products == t.products && r.sellList == t.sellList && r.users == t.users
    ensures r.purchases == t.purchases && r.comments == t.comments
  {
    ApplyOne(t, PutMessage(tid, key, message));
    ApplyAll(t, [PutMessage(tid, key, message)])
  }

  /** `sendMessages`: one write under `usedMessages/<thread>/messages`. */
  method SendMessages(db: Database, messageId: Key, key: Key, currentMessages: Message)
    modifies db
    ensures db.root == MessageSent(old(db.root), messageId, key, currentMessages)
  {
    db.Update([PutMessage(messageId, key, currentMessages)]);
  }

  /** A message as the reader sees it: with its sender's id, avatar and name. */
  datatype MessageView = MessageView(
    senderId: Key, text: string, timestamp: int, userId: Key, avatar: string, username: string)

  function Stamp(v: MessageView): int
  {
    v.timestamp
  }

  function MessageStamp(m: Message): int
  {
    m.timestamp
  }

  predicate SendersKnown(t: Tree, ms: seq<Message>)
  {
    forall i :: 0 <= i < |ms| ==> ms[i].senderId in t.users
  }

  function WithSenders(t: Tree, ms: seq<Message>): (r: seq<MessageView>)
    requires SendersKnown(t, ms)
    ensures |r| == |ms|
  {
    seq(|ms|, i requires 0 <= i < |ms| =>
      var u := t.users[ms[i].senderId];
      MessageView(ms[i].senderId, ms[i].text, ms[i].timestamp, u.id, u.avatar, u.username))
  }

  function StoredMessages(t: Tree, tid: Key): seq<Message>
  {
    if tid in t.threads then Values(t.threads[tid].messages) else []
  }

  /** `getMessages`: each stored message joined with its sender's record, oldest
      first; a sender without a record makes the join throw, and the catch
      returns `[]`. */
  function GetMessages(t: Tree, tid: Key): (r: seq<MessageView>)
    ensures Ascending(r, Stamp)
    ensures StoredMessages(t, tid) == [] ==> r == []
    ensures SendersKnown(t, StoredMessages(t, tid)) ==>
      multiset(r) == multiset(WithSenders(t, StoredMessages(t, tid)))
    ensures !SendersKnown(t, StoredMessages(t, tid)) ==> r == []
  {
    var ms := StoredMessages(t, tid);
    if ms == [] then []
    else if SendersKnown(t, ms) then SortAscending(WithSenders(t, ms), Stamp)
    else []
  }

  /** The older `getMessages`: the stored messages, newest first. */
  function GetMessagesNewestFirst(t: Tree, tid: Key): (r: seq<Message>)
    ensures Descending(r, MessageStamp)
    ensures multiset(r) == multiset(StoredMessages(t, tid))
  {
    var ms := StoredMessages(t, tid);
    if ms == [] then [] else SortDescending(ms, MessageStamp)
  }

  /** A sent message is among those read back from its thread. */
  lemma SentMessageIsRead(t: Tree, tid: Key, key: Key, message: Message)
    ensures message in GetMessagesNewestFirst(MessageSent(t, tid, key, message), tid)
  {
    var r := MessageSent(t, tid, key, message);
    var m := r.threads[tid].messages;
    assert key in m && m[key] == message;
    var ms := StoredMessages(r, tid);
    assert ms == Values(m);
    assert message in ms;
    var read := GetMessagesNewestFirst(r, tid);
    assert multiset(read) == multiset(ms);
    assert message in multiset(read);
  }

  // ---------------------------------------------------------------------
  // Removing a thread
  // ---------------------------------------------------------------------

  /** `ids.filter(x => x !== id)`. */
  function Without(ids: seq<Key>, id: Key): (r: seq<Key>)
    ensures multiset(r) == multiset(ids)[id := 0]
    ensures Subsequence(r, ids)
  {
    if ids == [] then []
    else
      assert ids == [ids[0]] + ids[1..];
      if ids[0] == id then
        var r := Without(ids[1..], id);
        assert r != [] ==> r[0] in multiset(r) && r[0] != ids[0];
        r
      else [ids[0]] + Without(ids[1..], id)
  }

  /** The tree after `user` removes thread `tid`. */
  function MessageRemoved(t: Tree, user: Key, tid: Key): (r: Tree)
    ensures r.threads == t.threads - {tid}
    ensures user in t.users ==>
      r.users == t.users[user := t.users[user].(listMessages := Without(t.users[user].listMessages, tid))]
    ensures user !in t.users ==> r.users == t.users
    ensures r.products == t.products && r.sellList == t.sellList
    ensures r.purchases == t.purchases && r.comments == t.comments
  {
    var ws := [DeleteThread(tid), PutListMessages(user, Without(ListMessagesOf(t, user), tid))];
    ApplyTwo(t, ws[0], ws[1]);
    ApplyAll(t, ws)
  }

  /** `removeMessage`: deletes the thread and drops its id from the initiating
      user's list only. */
  method RemoveMessage(db: Database, userId: Key, messageId: Key)
    modifies db
    ensures db.root == MessageRemoved(old(db.root), userId, messageId)
  {
    var updatedListMessages := Without(ListMessagesOf(db.root, userId), messageId);
    db.Update([DeleteThread(messageId), PutListMessages(userId, updatedListMessages)]);
  }

  /** The other participant's list still holds the id of the deleted thread. */
  lemma RemovalLeavesCounterpartDangling(t: Tree, user: Key, other: Key, tid: Key)
    requires other != user && other in t.users && tid in t.users[other].listMessages
    ensures var r := MessageRemoved(t, user, tid);
      other in r.users && tid in r.users[other].listMessages && tid !in r.threads
  {
  }
}
