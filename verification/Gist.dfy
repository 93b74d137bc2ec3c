/**
 Searching a generalised search tree.  A leaf entry is returned when it passes the leaf test;
 an inner entry is descended into only when its key passes the inner test.
 */
module Gist {
  import opened Bytes

  datatype Tree<K> = Leaf(key: K) | Node(key: K, children: seq<Tree<K>>)

  function Leaves<K>(t: Tree<K>): seq<K>
    decreases t, 0
  {
    match t
    case Leaf(k) => [k]
    case Node(_, ts) => LeavesOf(ts)
  }

  function LeavesOf<K>(ts: seq<Tree<K>>): seq<K>
    decreases ts, 1
  {
    if ts == [] then [] else Leaves(ts[0]) + LeavesOf(ts[1..])
  }

  /** The keys of the entries of a page. */
  function Keys<K>(ts: seq<Tree<K>>): seq<K> {
    seq(|ts|, i requires 0 <= i < |ts| => ts[i].key)
  }

  ghost function IfMatching<K>(k: K, leaf: K -> bool): seq<K> {
    if leaf(k) then [k] else []
  }

  /** The entries that pass, in order. */
  ghost function Matching<K>(keys: seq<K>, leaf: K -> bool): seq<K> {
    if keys == [] then [] else IfMatching(keys[0], leaf) + Matching(keys[1..], leaf)
  }

  /** The places, in ascending order, of exactly the entries that pass; found lists what is there. */
  ghost predicate PickedAt<K>(found: seq<K>, keys: seq<K>, leaf: K -> bool, at: seq<nat>) {
    && |at| == |found|
    && (forall i, j :: 0 <= i < j < |at| ==> at[i] < at[j])
    && (forall i :: 0 <= i < |at| ==> at[i] < |keys| && found[i] == keys[at[i]])
    && (forall j :: 0 <= j < |keys| ==> (j in at <==> leaf(keys[j])))
  }

  /** Every entry that passes, once and in its order, and nothing else. */
  ghost predicate Picked<K>(found: seq<K>, keys: seq<K>, leaf: K -> bool) {
    exists at :: PickedAt(found, keys, leaf, at)
  }

  /** What a search returns from a subtree, and from the entries of a page. */
  ghost function Found<K>(t: Tree<K>, leaf: K -> bool, inner: K -> bool): seq<K>
    decreases t, 0
  {
    match t
    case Leaf(k) => IfMatching(k, leaf)
    case Node(k, ts) => if inner(k) then FoundOn(ts, leaf, inner) else []
  }

  ghost function FoundOn<K>(ts: seq<Tree<K>>, leaf: K -> bool, inner: K -> bool): seq<K>
    decreases ts, 1
  {
    if ts == [] then [] else Found(ts[0], leaf, inner) + FoundOn(ts[1..], leaf, inner)
  }

  /** The search from one entry: never more than the matches, and all of them exactly when nothing is lost. */
  method SearchBy<K>(t: Tree<K>, leaf: K -> bool, inner: K -> bool) returns (found: seq<K>)
    ensures found == Found(t, leaf, inner)
    ensures |found| <= |Matching(Leaves(t), leaf)|
    ensures found == Matching(Leaves(t), leaf) <==> NothingLost(t, leaf, inner)
    ensures NothingLost(t, leaf, inner) ==> Picked(found, Leaves(t), leaf)
    decreases t, 0
  {
    MatchingIsPicked(Leaves(t), leaf);
    match t {
      case Leaf(k) => found := if leaf(k) then [k] else [];
      case Node(k, ts) =>
        found := [];
        if inner(k) {
          found := SearchPageBy(ts, leaf, inner);
        }
    }
    FoundExactly(t, leaf, inner);
  }

  /** The search from a page, such as the root, whose entries nothing has chosen. */
  method SearchPageBy<K>(ts: seq<Tree<K>>, leaf: K -> bool, inner: K -> bool) returns (found: seq<K>)
    ensures found == FoundOn(ts, leaf, inner)
    ensures |found| <= |Matching(LeavesOf(ts), leaf)|
    ensures found == Matching(LeavesOf(ts), leaf) <==> forall i :: 0 <= i < |ts| ==> NothingLost(ts[i], leaf, inner)
    ensures (forall i :: 0 <= i < |ts| ==> NothingLost(ts[i], leaf, inner)) ==> Picked(found, LeavesOf(ts), leaf)
    decreases ts, 1
  {
    MatchingIsPicked(LeavesOf(ts), leaf);
    if ts == [] {
      found := [];
    } else {
      var first := SearchBy(ts[0], leaf, inner);
      var rest := SearchPageBy(ts[1..], leaf, inner);
      found := first + rest;
    }
    FoundOnExactly(ts, leaf, inner);
  }

  /** No inner key turns down a subtree that holds a match. */
  ghost predicate NothingLost<K>(t: Tree<K>, leaf: K -> bool, inner: K -> bool) {
    t.Node? ==>
      && ((exists k :: k in Leaves(t) && leaf(k)) ==> inner(t.key))
      && forall i :: 0 <= i < |t.children| ==> NothingLost(t.children[i], leaf, inner)
  }

  lemma {:induction false} MatchingConcat<K>(a: seq<K>, b: seq<K>, leaf: K -> bool)
    ensures Matching(a + b, leaf) == Matching(a, leaf) + Matching(b, leaf)
  {
    if a == [] {
      assert a + b == b && Matching(a, leaf) == [];
    } else {
      hide Matching, IfMatching;
      MatchingConcat(a[1..], b, leaf);
      MatchingCons(a[0], a[1..], leaf);
      MatchingCons(a[0], a[1..] + b, leaf);
      assert a == [a[0]] + a[1..] && a + b == [a[0]] + (a[1..] + b);
      Associate(IfMatching(a[0], leaf), Matching(a[1..], leaf), Matching(b, leaf));
    }
  }

  lemma {:induction false} MatchingPicks<K>(keys: seq<K>, leaf: K -> bool) returns (at: seq<nat>)
    ensures PickedAt(Matching(keys, leaf), keys, leaf, at)
  {
    if keys == [] {
      at := [];
    } else {
      hide Matching, PickedAt, OneUp;
      var k, rest := keys[0], keys[1..];
      var later := MatchingPicks(rest, leaf);
      MatchingCons(k, rest, leaf);
      assert keys == [k] + rest;
      if leaf(k) {
        PickFirst(Matching(rest, leaf), k, rest, leaf, later);
        at := [0] + OneUp(later);
      } else {
        PickNext(Matching(rest, leaf), k, rest, leaf, later);
        assert [] + Matching(rest, leaf) == Matching(rest, leaf);
        at := OneUp(later);
      }
    }
  }

  function OneUp(at: seq<nat>): (up: seq<nat>)
    ensures |up| == |at|
  {
    seq(|at|, i requires 0 <= i < |at| => at[i] + 1)
  }

  lemma InOneUp(at: seq<nat>, j: nat)
    ensures j in OneUp(at) <==> 0 < j && j - 1 in at
  {
    if 0 < j && j - 1 in at {
      var i :| 0 <= i < |at| && at[i] == j - 1;
      assert OneUp(at)[i] == j;
    }
  }

  lemma PickNext<K>(found: seq<K>, k: K, keys: seq<K>, leaf: K -> bool, at: seq<nat>)
    requires PickedAt(found, keys, leaf, at) && !leaf(k)
    ensures PickedAt(found, [k] + keys, leaf, OneUp(at))
  {
    forall j: nat | j < |[k] + keys| ensures j in OneUp(at) <==> leaf(([k] + keys)[j]) {
      InOneUp(at, j);
      if 0 < j {
        assert ([k] + keys)[j] == keys[j - 1];
      }
    }
  }

  lemma PickFirst<K>(found: seq<K>, k: K, keys: seq<K>, leaf: K -> bool, at: seq<nat>)
    requires PickedAt(found, keys, leaf, at) && leaf(k)
    ensures PickedAt([k] + found, [k] + keys, leaf, [0] + OneUp(at))
  {
    forall j: nat | j < |[k] + keys| ensures j in [0] + OneUp(at) <==> leaf(([k] + keys)[j]) {
      InOneUp(at, j);
      if 0 < j {
        assert ([k] + keys)[j] == keys[j - 1];
      }
    }
  }

  /** What passes is all there, once and in order. */
  lemma MatchingIsPicked<K>(keys: seq<K>, leaf: K -> bool)
    ensures Picked(Matching(keys, leaf), keys, leaf)
  {
    var at := MatchingPicks(keys, leaf);
  }

  /** As often as an entry is there, and not at all if it does not pass. */
  lemma {:induction false} MatchingCounts<K>(keys: seq<K>, leaf: K -> bool, k: K)
    ensures multiset(Matching(keys, leaf))[k] == if leaf(k) then multiset(keys)[k] else 0
  {
    if keys != [] {
      MatchingCounts(keys[1..], leaf, k);
      assert keys == [keys[0]] + keys[1..];
    }
  }

  lemma Associate<K>(x: seq<K>, y: seq<K>, z: seq<K>)
    ensures x + (y + z) == x + y + z
  {
  }

  lemma MatchingCons<K>(k: K, rest: seq<K>, leaf: K -> bool)
    ensures Matching([k] + rest, leaf) == IfMatching(k, leaf) + Matching(rest, leaf)
  {
  }

  lemma {:induction false} NoneMatching<K>(keys: seq<K>, leaf: K -> bool)
    ensures Matching(keys, leaf) == [] <==> forall k :: k in keys ==> !leaf(k)
  {
    if keys != [] {
      NoneMatching(keys[1..], leaf);
      assert forall k :: k in keys <==> k == keys[0] || k in keys[1..];
    }
  }

  /** A search never returns more than the matching leaves, and returns all exactly when nothing is lost. */
  lemma {:induction false} FoundExactly<K>(t: Tree<K>, leaf: K -> bool, inner: K -> bool)
    ensures |Found(t, leaf, inner)| <= |Matching(Leaves(t), leaf)|
    ensures Found(t, leaf, inner) == Matching(Leaves(t), leaf) <==> NothingLost(t, leaf, inner)
    ensures |Found(t, leaf, inner)| == |Matching(Leaves(t), leaf)| ==> NothingLost(t, leaf, inner)
    decreases t, 0
  {
    match t
    case Leaf(k) =>
      assert Matching([k], leaf) == IfMatching(k, leaf) + Matching([k][1..], leaf);
    case Node(k, ts) =>
      NoneMatching(Leaves(t), leaf);
      FoundOnExactly(ts, leaf, inner);
      if !inner(k) && Matching(Leaves(t), leaf) == [] {
        NothingToLose(ts, leaf, inner);
      }
  }

  lemma {:induction false} FoundOnExactly<K>(ts: seq<Tree<K>>, leaf: K -> bool, inner: K -> bool)
    ensures |FoundOn(ts, leaf, inner)| <= |Matching(LeavesOf(ts), leaf)|
    ensures FoundOn(ts, leaf, inner) == Matching(LeavesOf(ts), leaf)
       <==> forall i :: 0 <= i < |ts| ==> NothingLost(ts[i], leaf, inner)
    ensures |FoundOn(ts, leaf, inner)| == |Matching(LeavesOf(ts), leaf)|
        ==> forall i :: 0 <= i < |ts| ==> NothingLost(ts[i], leaf, inner)
    decreases ts, 1
  {
    hide Matching, NothingLost;
    if ts == [] {
      NoneMatching<K>([], leaf);
    } else {
      MatchingConcat(Leaves(ts[0]), LeavesOf(ts[1..]), leaf);
      FoundExactly(ts[0], leaf, inner);
      FoundOnExactly(ts[1..], leaf, inner);
      assert forall i :: 0 < i < |ts| ==> ts[i] == ts[1..][i - 1];
      assert (forall i :: 0 <= i < |ts| ==> NothingLost(ts[i], leaf, inner))
        <==> NothingLost(ts[0], leaf, inner) && forall i :: 0 <= i < |ts[1..]| ==> NothingLost(ts[1..][i], leaf, inner);
    }
  }

  lemma {:induction false} NothingToLose<K>(ts: seq<Tree<K>>, leaf: K -> bool, inner: K -> bool)
    requires forall k :: k in LeavesOf(ts) ==> !leaf(k)
    ensures forall i :: 0 <= i < |ts| ==> NothingLost(ts[i], leaf, inner)
    decreases ts
  {
    forall i | 0 <= i < |ts| ensures NothingLost(ts[i], leaf, inner) {
      LeavesOfChild(ts, i);
      if ts[i].Node? {
        NothingToLose(ts[i].children, leaf, inner);
      }
    }
  }

  lemma {:induction false} LeavesOfChild<K>(ts: seq<Tree<K>>, i: nat)
    requires i < |ts|
    ensures forall k :: k in Leaves(ts[i]) ==> k in LeavesOf(ts)
  {
    if 0 < i {
      LeavesOfChild(ts[1..], i - 1);
    }
  }

  lemma LeavesOfTwo<K>(a: K, b: K)
    ensures LeavesOf([Leaf(a), Leaf(b)]) == [a, b]
  {
    var ts := [Leaf(a), Leaf(b)];
    assert ts[1..] == [Leaf(b)] && ts[1..][1..] == [];
    assert LeavesOf(ts[1..]) == Leaves(Leaf(b)) + LeavesOf(ts[1..][1..]);
  }

  lemma {:induction false} ChildWith<K>(ts: seq<Tree<K>>, k: K) returns (i: nat)
    requires k in LeavesOf(ts)
    ensures i < |ts| && k in Leaves(ts[i])
  {
    if k in Leaves(ts[0]) {
      i := 0;
    } else {
      var j := ChildWith(ts[1..], k);
      i := j + 1;
    }
  }

  lemma {:induction false} FoundOnPage<K>(ts: seq<Tree<K>>, i: nat, k: K, leaf: K -> bool, inner: K -> bool)
    requires i < |ts| && k in Found(ts[i], leaf, inner)
    ensures k in FoundOn(ts, leaf, inner)
  {
    if 0 < i {
      FoundOnPage(ts[1..], i - 1, k, leaf, inner);
    }
  }

  /** Every inner key accounts for every leaf below it. */
  ghost predicate Holds<K>(t: Tree<K>, accounts: (K, K) -> bool) {
    t.Node? ==>
      && (forall k :: k in Leaves(t) ==> accounts(t.key, k))
      && forall i :: 0 <= i < |t.children| ==> Holds(t.children[i], accounts)
  }

  lemma {:induction false} HoldsLosesNothing<K(!new)>(t: Tree<K>, accounts: (K, K) -> bool,
                                                      leaf: K -> bool, inner: K -> bool)
    requires Holds(t, accounts)
    requires forall key, k :: accounts(key, k) && k in Leaves(t) && leaf(k) ==> inner(key)
    ensures NothingLost(t, leaf, inner)
  {
    if t.Node? {
      forall i | 0 <= i < |t.children| ensures NothingLost(t.children[i], leaf, inner) {
        LeavesOfChild(t.children, i);
        HoldsLosesNothing(t.children[i], accounts, leaf, inner);
      }
    }
  }

  // ---------- Insertion ----------

  /** The path leads down from a page to the one that takes the new leaf. */
  predicate Leads<K>(ts: seq<Tree<K>>, path: seq<nat>)
    decreases |path|
  {
    path == [] || (path[0] < |ts| && ts[path[0]].Node? && Leads(ts[path[0]].children, path[1..]))
  }

  /** What an insertion makes of a page or of an entry, and the key that is then taken up, if any. */
  datatype Placed<T, K> = Placed(now: T, up: Option<K>)

  /** gistplacetopage where there is room: the new leaf goes last, and so does an entry whose key has changed. */
  function InsertInto<K>(ts: seq<Tree<K>>, path: seq<nat>, e: K, adjust: (K, K) -> Option<K>): Placed<seq<Tree<K>>, K>
    requires Leads(ts, path)
    decreases |path|, 0
  {
    if path == [] then Placed(ts + [Leaf(e)], Some(e))
    else
      var i := path[0];
      var entry := InsertBelow(ts[i], path[1..], e, adjust);
      Placed(if entry.up.None? then ts[i := entry.now] else ts[..i] + ts[i + 1..] + [entry.now], entry.up)
  }

  /**
   One turn of gistmakedeal: the entry's key is adjusted to the key taken up from its page, and
   the walk is over where a key does not change.
   */
  function InsertBelow<K>(t: Tree<K>, path: seq<nat>, e: K, adjust: (K, K) -> Option<K>): Placed<Tree<K>, K>
    requires t.Node? && Leads(t.children, path)
    decreases |path|, 1
  {
    var page := InsertInto(t.children, path, e, adjust);
    var key := if page.up.None? then None else adjust(t.key, page.up.value);
    Placed(Node(if key.None? then t.key else key.value, page.now), key)
  }

  /**
   A page holds the keys it held before, in order, if nothing is taken up; otherwise the key taken up
   is its last, and the one it replaces, if any, is gone.
   */
  lemma KeysAfter<K>(ts: seq<Tree<K>>, path: seq<nat>, e: K, adjust: (K, K) -> Option<K>)
    requires Leads(ts, path)
    ensures var page := InsertInto(ts, path, e, adjust);
            if page.up.None? then Keys(page.now) == Keys(ts)
            else
              && Keys(page.now)
                 == (if path == [] then Keys(ts) else Keys(ts)[..path[0]] + Keys(ts)[path[0] + 1..]) + [page.up.value]
              && forall i :: 0 <= i < |page.now| ==> page.now[i].key in Keys(ts) || page.now[i].key == page.up.value
  {
    forall i | 0 <= i < |ts| ensures ts[i].key in Keys(ts) {
      assert Keys(ts)[i] == ts[i].key;
    }
  }

  lemma {:induction false} LeavesOfConcat<K>(a: seq<Tree<K>>, b: seq<Tree<K>>)
    ensures LeavesOf(a + b) == LeavesOf(a) + LeavesOf(b)
  {
    if a == [] {
      assert a + b == b;
    } else {
      LeavesOfConcat(a[1..], b);
      assert (a + b)[1..] == a[1..] + b;
      Associate(Leaves(a[0]), LeavesOf(a[1..]), LeavesOf(b));
    }
  }

  lemma LeavesOfParts<K>(ts: seq<Tree<K>>, i: nat)
    requires i < |ts|
    ensures LeavesOf(ts) == LeavesOf(ts[..i]) + (Leaves(ts[i]) + LeavesOf(ts[i + 1..]))
  {
    assert ts == ts[..i] + ts[i..] && ts[i..][1..] == ts[i + 1..];
    LeavesOfConcat(ts[..i], ts[i..]);
  }

  lemma LeavesOfOne<K>(t: Tree<K>)
    ensures LeavesOf([t]) == Leaves(t)
  {
    assert [t][1..] == [];
  }

  /** An entry replaced by another, in place or at the end, leaves the other leaves as they were. */
  lemma LeavesOfReplaced<K>(ts: seq<Tree<K>>, i: nat, t: Tree<K>) returns (others: multiset<K>)
    requires i < |ts|
    ensures multiset(LeavesOf(ts)) == others + multiset(Leaves(ts[i]))
    ensures multiset(LeavesOf(ts[i := t])) == others + multiset(Leaves(t))
    ensures multiset(LeavesOf(ts[..i] + ts[i + 1..] + [t])) == others + multiset(Leaves(t))
  {
    hide Leaves, LeavesOf;
    others := multiset(LeavesOf(ts[..i])) + multiset(LeavesOf(ts[i + 1..]));
    var us := ts[i := t];
    LeavesOfParts(ts, i);
    LeavesOfParts(us, i);
    assert us[..i] == ts[..i] && us[i + 1..] == ts[i + 1..];
    LeavesOfConcat(ts[..i] + ts[i + 1..], [t]);
    LeavesOfConcat(ts[..i], ts[i + 1..]);
    LeavesOfOne(t);
  }

  /** An insertion adds the one leaf and loses none. */
  lemma {:induction false} InsertAddsOne<K>(ts: seq<Tree<K>>, path: seq<nat>, e: K, adjust: (K, K) -> Option<K>)
    requires Leads(ts, path)
    ensures multiset(LeavesOf(InsertInto(ts, path, e, adjust).now)) == multiset(LeavesOf(ts)) + multiset{e}
    decreases |path|
  {
    hide Leaves, LeavesOf;
    if path == [] {
      LeavesOfConcat(ts, [Leaf(e)]);
      LeavesOfOne(Leaf(e));
      LeafIsItsLeaf(e);
    } else {
      var t := ts[path[0]];
      var entry := InsertBelow(t, path[1..], e, adjust);
      InsertAddsOne(t.children, path[1..], e, adjust);
      LeavesOfNode(t);
      LeavesOfNode(entry.now);
      var others := LeavesOfReplaced(ts, path[0], entry.now);
    }
  }

  lemma LeavesOfNode<K>(t: Tree<K>)
    requires t.Node?
    ensures Leaves(t) == LeavesOf(t.children)
  {
  }

  lemma LeafIsItsLeaf<K>(e: K)
    ensures Leaves(Leaf(e)) == [e]
  {
  }

  lemma NewLeafIsThere<K>(ts: seq<Tree<K>>, path: seq<nat>, e: K, adjust: (K, K) -> Option<K>)
    requires Leads(ts, path)
    ensures e in LeavesOf(InsertInto(ts, path, e, adjust).now)
  {
    hide LeavesOf, InsertInto;
    InsertAddsOne(ts, path, e, adjust);
    assert e in multiset(LeavesOf(InsertInto(ts, path, e, adjust).now));
  }
}
