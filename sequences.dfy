/** Order-related facts about the arrays the read side returns: filtering that
    keeps order, and `Array.prototype.sort` by a timestamp key. */
module Sequences {
  import opened Store

  /** `a` is `b` with some elements left out and the rest kept in order. */
  predicate Subsequence<T(==)>(a: seq<T>, b: seq<T>)
    decreases |b|
  {
    if a == [] then true
    else if b == [] then false
    else if a[0] == b[0] then Subsequence(a[1..], b[1..])
    else Subsequence(a, b[1..])
  }

  ghost predicate Ascending<T>(s: seq<T>, key: T -> int)
  {
    forall i, j :: 0 <= i < j < |s| ==> key(s[i]) <= key(s[j])
  }

  ghost predicate Descending<T>(s: seq<T>, key: T -> int)
  {
    forall i, j :: 0 <= i < j < |s| ==> key(s[i]) >= key(s[j])
  }

  /** Places `x` after every element of `s` whose key is not greater. */
  function Insert<T(==)>(x: T, s: seq<T>, key: T -> int): (r: seq<T>)
    requires Ascending(s, key)
    ensures |r| == |s| + 1
    ensures forall i :: 0 <= i < |r| ==> r[i] == x || r[i] in s
    ensures Ascending(r, key)
    ensures multiset(r) == multiset(s) + multiset{x}
  {
    if s == [] || key(x) < key(s[0]) then [x] + s
    else
      var rest := Insert(x, s[1..], key);
      assert forall j :: 0 <= j < |rest| ==> key(s[0]) <= key(rest[j]) by {
        forall j | 0 <= j < |rest| ensures key(s[0]) <= key(rest[j]) {
          if rest[j] != x {
            var k :| 0 <= k < |s[1..]| && s[1..][k] == rest[j];
            assert s[k + 1] == rest[j];
          }
        }
      }
      assert s == [s[0]] + s[1..];
      [s[0]] + rest
  }

  /** A stable ascending sort: each element goes after the equal keys before it. */
  function SortAscending<T(==)>(s: seq<T>, key: T -> int): (r: seq<T>)
    ensures Ascending(r, key)
    ensures multiset(r) == multiset(s)
    decreases |s|
  {
    if s == [] then []
    else
      var init := s[..|s| - 1];
      assert s == init + [s[|s| - 1]];
      Insert(s[|s| - 1], SortAscending(init, key), key)
  }

  /** The descending sort `(a, b) => key(b) - key(a)`. */
  function SortDescending<T(==)>(s: seq<T>, key: T -> int): (r: seq<T>)
    ensures Descending(r, key)
    ensures multiset(r) == multiset(s)
  {
    var neg := (x: T) => -key(x);
    var r := SortAscending(s, neg);
    assert forall i, j :: 0 <= i < j < |r| ==> neg(r[i]) <= neg(r[j]);
    r
  }

  predicate AllStamped<T>(s: seq<T>, stamp: T -> Option<int>)
  {
    forall i :: 0 <= i < |s| ==> stamp(s[i]).Some?
  }

  /** The children of a node are all stamped exactly when each child is. */
  lemma AllStampedValues<T>(m: map<Key, T>, stamp: T -> Option<int>)
    ensures AllStamped(Values(m), stamp) <==> forall k :: k in m ==> stamp(m[k]).Some?
  {
    var vs := Values(m);
    var ks := KeysInOrder(m.Keys);
    if AllStamped(vs, stamp) {
      forall k | k in m ensures stamp(m[k]).Some? {
        var i :| 0 <= i < |ks| && ks[i] == k;
        assert vs[i] == m[k];
      }
    }
    if forall k :: k in m ==> stamp(m[k]).Some? {
      forall i | 0 <= i < |vs| ensures stamp(vs[i]).Some? {
        assert ks[i] in m && vs[i] == m[ks[i]];
      }
    }
  }

  function StampOrZero<T>(stamp: T -> Option<int>): T -> int
  {
    (x: T) => if stamp(x).Some? then stamp(x).value else 0
  }

  /** `try { return s.sort((a, b) => date(b.stamp) - date(a.stamp)) } catch { return [] }`:
      with two or more elements every element reaches the comparator, and one
      whose stamp is missing throws there; one element is returned unsorted. */
  function SortedDescOrEmpty<T(==)>(s: seq<T>, stamp: T -> Option<int>): (r: seq<T>)
    ensures AllStamped(s, stamp) ==>
      && multiset(r) == multiset(s)
      && AllStamped(r, stamp)
      && Descending(r, StampOrZero(stamp))
    ensures !AllStamped(s, stamp) && |s| >= 2 ==> r == []
    ensures |s| < 2 ==> r == s
  {
    if |s| < 2 then s
    else if AllStamped(s, stamp) then
      var r := SortDescending(s, StampOrZero(stamp));
      assert forall i :: 0 <= i < |r| ==> r[i] in multiset(s);
      r
    else []
  }
}
