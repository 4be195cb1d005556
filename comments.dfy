/** Product comments: schemaless records under `usedComments/<product>`,
    added under a generated key, removed, patched and listed newest first. */
module Comments {
  import opened Store
  import opened Sequences

  function CommentsOf(t: Tree, pid: Key): map<Key, Comment>
  {
    Children(t.comments, pid)
  }

  /** The stored comment: the caller's fields plus `commentId`, the key. */
  function WithId(c: Comment, key: Key): Comment
  {
    c["commentId" := Number(key)]
  }

  /** The tree after adding `c` under the generated key `key`. */
  function CommentAdded(t: Tree, pid: Key, key: Key, c: Comment): (r: Tree)
    ensures r.comments == t.comments[pid := CommentsOf(t, pid)[key := WithId(c, key)]]
    ensures r.products == t.products && r.sellList == t.sellList && r.users == t.users
    ensures r.threads == t.threads && r.purchases == t.purchases
  {
    ApplyOne(t, PutComment(pid, key, WithId(c, key)));
    ApplyAll(t, [PutComment(pid, key, WithId(c, key))])
  }

  /** `addUsedComment`: `key` is the fresh key `push` generates. */
  method AddUsedComment(db: Database, productId: Key, comment: Comment, key: Key)
    modifies db
    ensures db.root == CommentAdded(old(db.root), productId, key, comment)
  {
    ApplyOne(db.root, PutComment(productId, key, WithId(comment, key)));
    db.Update([PutComment(productId, key, WithId(comment, key))]);
  }

  /** The tree after removing comment `cid` of product `pid`. */
  function CommentRemoved(t: Tree, pid: Key, cid: Key): (r: Tree)
    ensures CommentsOf(r, pid) == CommentsOf(t, pid) - {cid}
    ensures forall q :: q != pid ==> CommentsOf(r, q) == CommentsOf(t, q)
    ensures r.products == t.products && r.sellList == t.sellList && r.users == t.users
    ensures r.threads == t.threads && r.purchases == t.purchases
  {
    ApplyOne(t, DeleteComment(pid, cid));
    ApplyAll(t, [DeleteComment(pid, cid)])
  }

  /** `removeUsedComment`. */
  method RemoveUsedComment(db: Database, productId: Key, commentId: Key)
    modifies db
    ensures db.root == CommentRemoved(old(db.root), productId, commentId)
  {
    ApplyOne(db.root, DeleteComment(productId, commentId));
    db.Update([DeleteComment(productId, commentId)]);
  }

  /** The comment `cid` as stored, or no fields when it does not exist. */
  function CommentAt(t: Tree, pid: Key, cid: Key): Comment
  {
    if cid in CommentsOf(t, pid) then CommentsOf(t, pid)[cid] else map[]
  }

  /** The tree after patching comment `cid` with `patch`. */
  function CommentEdited(t: Tree, pid: Key, cid: Key, patch: Comment): (r: Tree)
    ensures patch == map[] ==> r == t
    ensures patch != map[] ==>
      r == t.(comments := t.comments[pid := CommentsOf(t, pid)[cid := CommentAt(t, pid, cid) + patch]])
  {
    ApplyOne(t, MergeComment(pid, cid, patch));
    ApplyAll(t, [MergeComment(pid, cid, patch)])
  }

  /** A non-empty patch overwrites its own fields and keeps every other field
      of the comment; a comment that does not exist is created from the patch
      alone; other comments do not change. */
  lemma EditKeepsUnpatchedFields(t: Tree, pid: Key, cid: Key, patch: Comment)
    requires patch != map[]
    ensures var r := CommentEdited(t, pid, cid, patch);
      && cid in CommentsOf(r, pid)
      && (forall f :: f in CommentsOf(r, pid)[cid] <==> f in patch || f in CommentAt(t, pid, cid))
      && (forall f :: f in patch ==> CommentsOf(r, pid)[cid][f] == patch[f])
      && (forall f :: f !in patch && f in CommentAt(t, pid, cid) ==>
            CommentsOf(r, pid)[cid][f] == CommentAt(t, pid, cid)[f])
      && (forall k :: k != cid && k in CommentsOf(t, pid) ==>
            k in CommentsOf(r, pid) && CommentsOf(r, pid)[k] == CommentsOf(t, pid)[k])
      && (forall q :: q != pid ==> CommentsOf(r, q) == CommentsOf(t, q))
  {
  }

  /** `editUsedComment`: an `update` on the comment's own path. */
  method EditUsedComment(db: Database, productId: Key, commentId: Key, editCommentData: Comment)
    modifies db
    ensures db.root == CommentEdited(old(db.root), productId, commentId, editCommentData)
  {
    ApplyOne(db.root, MergeComment(productId, commentId, editCommentData));
    db.Update([MergeComment(productId, commentId, editCommentData)]);
  }

  /** Removing a comment just added under a fresh key restores the product's
      comments. */
  lemma RemoveUndoesAdd(t: Tree, pid: Key, key: Key, c: Comment)
    requires key !in CommentsOf(t, pid)
    ensures CommentsOf(CommentRemoved(CommentAdded(t, pid, key, c), pid, key), pid) == CommentsOf(t, pid)
  {
    var m := CommentsOf(t, pid);
    assert m[key := WithId(c, key)] - {key} == m;
  }

  /** Applying the same patch twice is applying it once. */
  lemma EditIsIdempotent(t: Tree, pid: Key, cid: Key, patch: Comment)
    ensures CommentEdited(CommentEdited(t, pid, cid, patch), pid, cid, patch) == CommentEdited(t, pid, cid, patch)
  {
    if patch != map[] {
      var cur := CommentAt(t, pid, cid);
      var once := CommentEdited(t, pid, cid, patch);
      assert CommentAt(once, pid, cid) == cur + patch;
      assert (cur + patch) + patch == cur + patch;
      assert CommentsOf(t, pid)[cid := cur + patch][cid := cur + patch] == CommentsOf(t, pid)[cid := cur + patch];
    }
  }

  /** `createdAt` when it is a stored timestamp; otherwise the comparator's
      `createdAt.join` throws. */
  function CommentCreatedAt(c: Comment): Option<int>
  {
    if "createdAt" in c && c["createdAt"].Number? then Some(c["createdAt"].number) else None
  }

  /** `getUsedComment`: the product's comments, newest first. */
  function GetUsedComment(t: Tree, pid: Key): (r: seq<Comment>)
    ensures CommentsOf(t, pid) == map[] ==> r == []
    ensures AllStamped(Values(CommentsOf(t, pid)), CommentCreatedAt) ==>
      && multiset(r) == multiset(Values(CommentsOf(t, pid)))
      && Descending(r, StampOrZero(CommentCreatedAt))
    ensures !AllStamped(Values(CommentsOf(t, pid)), CommentCreatedAt) && |CommentsOf(t, pid)| >= 2 ==> r == []
    ensures |CommentsOf(t, pid)| == 1 ==> r == Values(CommentsOf(t, pid))
  {
    SortedDescOrEmpty(Values(CommentsOf(t, pid)), CommentCreatedAt)
  }

  /** A dated comment added to dated comments is listed, with its key. */
  lemma AddedCommentIsListed(t: Tree, pid: Key, key: Key, c: Comment)
    requires CommentCreatedAt(c).Some?
    requires AllStamped(Values(CommentsOf(t, pid)), CommentCreatedAt)
    ensures WithId(c, key) in GetUsedComment(CommentAdded(t, pid, key, c), pid)
  {
    var r := CommentAdded(t, pid, key, c);
    var before := CommentsOf(t, pid);
    var after := CommentsOf(r, pid);
    assert after == before[key := WithId(c, key)];
    AllStampedValues(before, CommentCreatedAt);
    assert CommentCreatedAt(WithId(c, key)) == CommentCreatedAt(c);
    AllStampedValues(after, CommentCreatedAt);
    var vs := Values(after);
    assert key in after && after[key] == WithId(c, key);
    assert after[key] in vs;
    var listed := GetUsedComment(r, pid);
    assert multiset(listed) == multiset(vs);
    assert WithId(c, key) in multiset(listed);
  }
}
