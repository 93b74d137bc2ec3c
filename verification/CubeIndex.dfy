/**
 The GiST operator class for boxes: keys of inner pages are unions of what is below them,
 and a search descends only where the key may hold a match.
 */
module CubeIndex {
  import opened Bytes
  import opened Cubes
  import opened CubeOrder
  import opened Gist
  import opened Strategies

  // ---------- Union of many ----------

  function UnionAll(entries: seq<NDBox>): NDBox
    requires entries != []
  {
    if |entries| == 1 then entries[0]
    else Union(UnionAll(entries[..|entries| - 1]), entries[|entries| - 1])
  }

  /** g_cube_union; of a single entry the source makes no union at all */
  method GCubeUnion(entries: seq<NDBox>) returns (out: Option<NDBox>)
    requires entries != []
    ensures out.Some? <==> 2 <= |entries|
    ensures out.Some? ==> out.value == UnionAll(entries)
  {
    var tmp := entries[0];
    out := None;
    for i := 1 to |entries|
      invariant tmp == UnionAll(entries[..i])
      invariant out == if i == 1 then None else Some(tmp)
    {
      assert entries[..i + 1][..i] == entries[..i];
      var u := CubeUnion(tmp, entries[i]);
      out := Some(u);
      tmp := u;
    }
    assert entries[..|entries|] == entries;
  }

  lemma CoversTransitive(a: NDBox, b: NDBox, c: NDBox)
    requires Covers(a, b) && Covers(b, c)
    ensures Covers(a, c)
  {
  }

  /** The union covers every entry, and is the least box that does. */
  lemma {:induction false} UnionAllIsLeast(entries: seq<NDBox>)
    requires entries != []
    ensures forall k :: 0 <= k < |entries| ==> Covers(UnionAll(entries), entries[k])
    ensures forall c: NDBox ::
              (forall k :: 0 <= k < |entries| ==> Covers(c, entries[k])) ==> Covers(c, UnionAll(entries))
  {
    hide Covers, Union;
    var n := |entries| - 1;
    if n == 0 {
      CoversItself(entries[0]);
    } else {
      var u := UnionAll(entries[..n]);
      UnionAllIsLeast(entries[..n]);
      UnionIsLeast(u, entries[n]);
      forall k | 0 <= k <= n ensures Covers(UnionAll(entries), entries[k]) {
        if k < n {
          assert Covers(u, entries[..n][k]);
          CoversTransitive(UnionAll(entries), u, entries[k]);
        }
      }
      forall c: NDBox | forall k :: 0 <= k < |entries| ==> Covers(c, entries[k])
        ensures Covers(c, UnionAll(entries))
      {
        assert forall k :: 0 <= k < n ==> Covers(c, entries[..n][k]);
        assert Covers(c, u) && Covers(c, entries[n]);
      }
    }
  }

  lemma CoversItself(a: NDBox)
    ensures Covers(a, a)
  {
  }

  // ---------- Consistency ----------

  /** Does the box on a leaf page satisfy the query? */
  ghost predicate LeafMatch(key: NDBox, query: NDBox, strategy: int) {
    if strategy == RT_OVERLAP then Overlaps(key, query)
    else if strategy == RT_SAME then SameBox(key, query)
    else if strategy == RT_CONTAINS || strategy == RT_OLD_CONTAINS then Contains(key, query)
    else if strategy == RT_CONTAINED_BY || strategy == RT_OLD_CONTAINED_BY then Contains(query, key)
    else false
  }

  /** Each strategy number in terms of points. */
  lemma LeafMatchPoints(key: NDBox, query: NDBox, strategy: int)
    ensures LeafMatch(key, query, 3)
       <==> exists p: seq<real> :: |p| == MaxDim(key, query) && In(p, key) && In(p, query)
    ensures LeafMatch(key, query, 6)
       <==> key.dim == query.dim && forall p: seq<real> :: |p| == key.dim ==> (In(p, key) <==> In(p, query))
    ensures LeafMatch(key, query, 7) <==> forall p: seq<real> :: |p| == query.dim && In(p, query) ==> In(p, key)
    ensures LeafMatch(key, query, 8) <==> forall p: seq<real> :: |p| == key.dim && In(p, key) ==> In(p, query)
    ensures LeafMatch(key, query, 13) == LeafMatch(key, query, 7)
    ensures LeafMatch(key, query, 14) == LeafMatch(key, query, 8)
    ensures LeafMatch(key, query, strategy) ==> strategy in {3, 6, 7, 8, 13, 14}
  {
    hide In;
    OverlapsPoints(key, query);
    ContainsPoints(key, query);
    ContainsPoints(query, key);
    if key.dim == query.dim {
      SameByContainment(key, query);
    }
  }

  lemma SameByContainment(a: NDBox, b: NDBox)
    requires a.dim == b.dim
    ensures SameBox(a, b) <==> Contains(a, b) && Contains(b, a)
  {
  }

  /** g_cube_leaf_consistent */
  method LeafConsistent(key: NDBox, query: NDBox, strategy: int) returns (r: bool)
    ensures r <==> LeafMatch(key, query, strategy)
  {
    if strategy == RT_OVERLAP {
      r := CubeOverlap(key, query);
    } else if strategy == RT_SAME {
      var c := CubeCmp(key, query);
      EqualExactlyOnSame(key, query);
      r := c == 0;
    } else if strategy == RT_CONTAINS || strategy == RT_OLD_CONTAINS {
      r := CubeContains(key, query);
    } else if strategy == RT_CONTAINED_BY || strategy == RT_OLD_CONTAINED_BY {
      r := CubeContains(query, key);
    } else {
      r := false;
    }
  }

  /** May something below this key satisfy the query? */
  ghost predicate MayMatch(key: NDBox, query: NDBox, strategy: int) {
    if strategy == RT_OVERLAP then Overlaps(key, query)
    else if strategy == RT_SAME || strategy == RT_CONTAINS || strategy == RT_OLD_CONTAINS then Contains(key, query)
    else if strategy == RT_CONTAINED_BY || strategy == RT_OLD_CONTAINED_BY then Overlaps(key, query)
    else false
  }

  /** g_cube_internal_consistent */
  method InternalConsistent(key: NDBox, query: NDBox, strategy: int) returns (r: bool)
    ensures r <==> MayMatch(key, query, strategy)
  {
    if strategy == RT_OVERLAP {
      r := CubeOverlap(key, query);
    } else if strategy == RT_SAME || strategy == RT_CONTAINS || strategy == RT_OLD_CONTAINS {
      r := CubeContains(key, query);
    } else if strategy == RT_CONTAINED_BY || strategy == RT_OLD_CONTAINED_BY {
      r := CubeOverlap(key, query);
    } else {
      r := false;
    }
  }

  /** Along the axes the query has and the box lacks, the query reaches zero. */
  ghost predicate ReachesZero(query: NDBox, box: NDBox) {
    forall i :: box.dim <= i < query.dim ==> Lo(query, i) <= 0.0 <= Hi(query, i)
  }

  /** What a search needs of a matching box for it to be found; only containment in the query asks for anything. */
  ghost predicate Findable(box: NDBox, query: NDBox, strategy: int) {
    strategy == RT_CONTAINED_BY || strategy == RT_OLD_CONTAINED_BY ==> ReachesZero(query, box)
  }

  ghost predicate AllFindable(boxes: seq<NDBox>, query: NDBox, strategy: int) {
    forall box :: box in boxes && LeafMatch(box, query, strategy) ==> Findable(box, query, strategy)
  }

  /** A key that covers a matching box is never turned down. */
  lemma NeverTurnedDown(key: NDBox, box: NDBox, query: NDBox, strategy: int)
    requires Covers(key, box) && LeafMatch(box, query, strategy) && Findable(box, query, strategy)
    ensures MayMatch(key, query, strategy)
  {
  }

  /** For every strategy but one, a key is let through exactly when it may cover a match that can be found. */
  lemma MayMatchExactly(key: NDBox, query: NDBox, strategy: int)
    requires strategy != RT_SAME
    ensures MayMatch(key, query, strategy)
       <==> exists box: NDBox ::
              Covers(key, box) && LeafMatch(box, query, strategy) && Findable(box, query, strategy)
  {
    hide Covers, Overlaps, Contains, ReachesZero;
    if box: NDBox :| Covers(key, box) && LeafMatch(box, query, strategy) && Findable(box, query, strategy) {
      NeverTurnedDown(key, box, query, strategy);
    }
    if MayMatch(key, query, strategy) {
      if strategy == RT_CONTAINED_BY || strategy == RT_OLD_CONTAINED_BY {
        IntersectionWithin(key, query);
        assert LeafMatch(Intersection(key, query), query, strategy);
      } else {
        CoversItself(key);
        assert LeafMatch(key, query, strategy) && Findable(key, query, strategy);
      }
    }
  }

  lemma IntersectionWithin(key: NDBox, query: NDBox)
    requires Overlaps(key, query)
    ensures var box := Intersection(key, query); Covers(key, box) && Contains(query, box) && ReachesZero(query, box)
  {
    hide Intersection, Lo, Hi;
    assert Intersection(key, query).dim == MaxDim(key, query) by { IntersectionDim(key, query); }
    forall i: nat
      ensures Lo(Intersection(key, query), i) == Max(Lo(key, i), Lo(query, i))
      ensures Hi(Intersection(key, query), i) == Min(Hi(key, i), Hi(query, i))
    {
      IntersectionAxes(key, query, i);
    }
  }

  lemma IntersectionDim(a: NDBox, b: NDBox)
    ensures Intersection(a, b).dim == MaxDim(a, b)
  {
  }

  /** For equality the test ignores the key's further axes: it is let through in vain where they stay off zero. */
  lemma MaySameExactly(key: NDBox, query: NDBox)
    ensures (exists box: NDBox :: Covers(key, box) && LeafMatch(box, query, RT_SAME))
       <==> MayMatch(key, query, RT_SAME) && ReachesZero(key, query)
  {
    if box: NDBox :| Covers(key, box) && LeafMatch(box, query, RT_SAME) {
      assert forall i: nat :: Lo(key, i) <= Lo(query, i) && Hi(query, i) <= Hi(key, i);
    }
    if MayMatch(key, query, RT_SAME) && ReachesZero(key, query) {
      assert Covers(key, query) && LeafMatch(query, query, RT_SAME);
    }
  }

  /**
   And only then: a box inside a query that stays off zero on a further axis is turned down
   by the key made of that box alone.
   */
  lemma TurnedDown(box: NDBox, query: NDBox)
    requires Contains(query, box)
    ensures MayMatch(UnionAll([box, box]), query, RT_CONTAINED_BY) <==> ReachesZero(query, box)
  {
  }

  // ---------- Searching a tree ----------

  type BoxTree = Tree<NDBox>

  /** Every inner key covers the keys right below it. */
  ghost predicate Keyed(t: BoxTree) {
    t.Node? ==> forall i :: 0 <= i < |t.children| ==> Covers(t.key, t.children[i].key) && Keyed(t.children[i])
  }

  /** A page given the union of its entries' keys is properly keyed; a lone entry is entered twice. */
  lemma UnionKeysThePage(ts: seq<BoxTree>)
    requires ts != [] && forall i :: 0 <= i < |ts| ==> Keyed(ts[i])
    ensures Keyed(Node(UnionAll(if |ts| == 1 then Keys(ts + ts) else Keys(ts)), ts))
  {
    var ks := if |ts| == 1 then Keys(ts + ts) else Keys(ts);
    UnionAllIsLeast(ks);
    assert forall i :: 0 <= i < |ts| ==> ks[i] == ts[i].key;
  }

  ghost function LeafTest(query: NDBox, strategy: int): NDBox -> bool {
    (box: NDBox) => LeafMatch(box, query, strategy)
  }

  ghost function InnerTest(query: NDBox, strategy: int): NDBox -> bool {
    (key: NDBox) => MayMatch(key, query, strategy)
  }

  ghost function Cover(): (NDBox, NDBox) -> bool {
    (a: NDBox, b: NDBox) => Covers(a, b)
  }

  /** A key covers every leaf below it, at any depth. */
  lemma {:induction false} KeyCoversLeaves(t: BoxTree, box: NDBox)
    requires Keyed(t) && box in Leaves(t)
    ensures Covers(t.key, box)
  {
    hide Covers;
    if t.Leaf? {
      CoversItself(box);
    } else {
      var i := ChildWith(t.children, box);
      KeyCoversLeaves(t.children[i], box);
      CoversTransitive(t.key, t.children[i].key, box);
    }
  }

  lemma {:induction false} KeyedHolds(t: BoxTree)
    requires Keyed(t)
    ensures Holds(t, Cover())
  {
    hide Covers;
    if t.Node? {
      forall box | box in Leaves(t) ensures Covers(t.key, box) {
        KeyCoversLeaves(t, box);
      }
      forall i | 0 <= i < |t.children| ensures Holds(t.children[i], Cover()) {
        KeyedHolds(t.children[i]);
      }
    }
  }

  /** The search returns exactly the matching leaves, in order, from a tree of any depth. */
  lemma SearchIsExact(t: BoxTree, query: NDBox, strategy: int)
    requires Keyed(t)
    requires AllFindable(Leaves(t), query, strategy)
    ensures Found(t, LeafTest(query, strategy), InnerTest(query, strategy))
         == Matching(Leaves(t), LeafTest(query, strategy))
  {
    hide LeafMatch, MayMatch, Findable, Covers, Keyed;
    KeyedHolds(t);
    forall key: NDBox, box: NDBox | Cover()(key, box) && box in Leaves(t) && LeafTest(query, strategy)(box)
      ensures InnerTest(query, strategy)(key)
    {
      NeverTurnedDown(key, box, query, strategy);
    }
    HoldsLosesNothing(t, Cover(), LeafTest(query, strategy), InnerTest(query, strategy));
    FoundExactly(t, LeafTest(query, strategy), InnerTest(query, strategy));
  }

  /** The same from a page of entries: a scan starts at the root page, which has no key of its own. */
  lemma PageSearchIsExact(ts: seq<BoxTree>, query: NDBox, strategy: int)
    requires forall i :: 0 <= i < |ts| ==> Keyed(ts[i])
    requires AllFindable(LeavesOf(ts), query, strategy)
    ensures FoundOn(ts, LeafTest(query, strategy), InnerTest(query, strategy))
         == Matching(LeavesOf(ts), LeafTest(query, strategy))
  {
    forall i | 0 <= i < |ts| ensures NothingLost(ts[i], LeafTest(query, strategy), InnerTest(query, strategy)) {
      LeavesOfChild(ts, i);
      SearchIsExact(ts[i], query, strategy);
      FoundExactly(ts[i], LeafTest(query, strategy), InnerTest(query, strategy));
    }
    FoundOnExactly(ts, LeafTest(query, strategy), InnerTest(query, strategy));
  }

  /** The search by g_cube_consistent. */
  method Search(t: BoxTree, query: NDBox, strategy: int) returns (found: seq<NDBox>)
    ensures found == Found(t, LeafTest(query, strategy), InnerTest(query, strategy))
    ensures Keyed(t) && AllFindable(Leaves(t), query, strategy) ==>
              && found == Matching(Leaves(t), LeafTest(query, strategy))
              && Picked(found, Leaves(t), LeafTest(query, strategy))
    decreases t, 0
  {
    hide LeafMatch, MayMatch, AllFindable;
    match t {
      case Leaf(box) =>
        var ok := LeafConsistent(box, query, strategy);
        found := if ok then [box] else [];
      case Node(key, children) =>
        var ok := InternalConsistent(key, query, strategy);
        found := [];
        if ok {
          found := SearchPage(children, query, strategy);
        }
    }
    if Keyed(t) && AllFindable(Leaves(t), query, strategy) {
      SearchIsExact(t, query, strategy);
      MatchingIsPicked(Leaves(t), LeafTest(query, strategy));
    }
  }

  /** The entries of one page. */
  method SearchPage(ts: seq<BoxTree>, query: NDBox, strategy: int) returns (found: seq<NDBox>)
    ensures found == FoundOn(ts, LeafTest(query, strategy), InnerTest(query, strategy))
    ensures (forall i :: 0 <= i < |ts| ==> Keyed(ts[i])) && AllFindable(LeavesOf(ts), query, strategy) ==>
              && found == Matching(LeavesOf(ts), LeafTest(query, strategy))
              && Picked(found, LeavesOf(ts), LeafTest(query, strategy))
    decreases ts, 1
  {
    hide AllFindable;
    if ts == [] {
      found := [];
    } else {
      var first := Search(ts[0], query, strategy);
      var rest := SearchPage(ts[1..], query, strategy);
      found := first + rest;
    }
    if (forall i :: 0 <= i < |ts| ==> Keyed(ts[i])) && AllFindable(LeavesOf(ts), query, strategy) {
      PageSearchIsExact(ts, query, strategy);
      MatchingIsPicked(LeavesOf(ts), LeafTest(query, strategy));
    }
  }

  // ---------- Insertion ----------

  /** gistgetadjusted with g_cube_same: the union of the two keys, unless that is the old key */
  function Adjusted(): (NDBox, NDBox) -> Option<NDBox> {
    (key: NDBox, e: NDBox) => if Order(key, Union(key, e)) == 0 then None else Some(Union(key, e))
  }

  /** Adjusted or not, the key covers itself as it was and what was taken up. */
  lemma AdjustedCovers(key: NDBox, e: NDBox)
    ensures var adjusted := Adjusted()(key, e);
            var now := if adjusted.None? then key else adjusted.value;
            Covers(now, key) && Covers(now, e)
  {
    hide Order, Union;
    UnionIsLeast(key, e);
    EqualExactlyOnSame(key, Union(key, e));
  }

  /** The walk stops exactly where the key already covers what is taken up, and has as many dimensions. */
  lemma UnchangedExactly(key: NDBox, e: NDBox)
    ensures Adjusted()(key, e).None? <==> Covers(key, e) && e.dim <= key.dim
  {
    var u := Union(key, e);
    assert u.dim == MaxDim(key, e);
    hide Order, Union;
    UnionIsLeast(key, e);
    EqualExactlyOnSame(key, u);
    if Covers(key, e) {
      CoversItself(key);
      assert Covers(key, u);
    }
  }

  /** Inserting a box below any page, at any depth, keeps all entries properly keyed. */
  lemma {:induction false} InsertKeepsKeyed(ts: seq<BoxTree>, path: seq<nat>, e: NDBox)
    requires Leads(ts, path) && forall i :: 0 <= i < |ts| ==> Keyed(ts[i])
    ensures var us := InsertInto(ts, path, e, Adjusted()).now; forall i :: 0 <= i < |us| ==> Keyed(us[i])
    decreases |path|
  {
    if path != [] {
      var t := ts[path[0]];
      InsertKeepsKeyed(t.children, path[1..], e);
      EntryStaysKeyed(t, path[1..], e);
    }
  }

  lemma EntryStaysKeyed(t: BoxTree, path: seq<nat>, e: NDBox)
    requires Keyed(t) && t.Node? && Leads(t.children, path)
    requires var us := InsertInto(t.children, path, e, Adjusted()).now; forall i :: 0 <= i < |us| ==> Keyed(us[i])
    ensures Keyed(InsertBelow(t, path, e, Adjusted()).now)
  {
    hide Covers, InsertInto, Adjusted;
    var page, now := InsertInto(t.children, path, e, Adjusted()), InsertBelow(t, path, e, Adjusted()).now;
    KeysAfter(t.children, path, e, Adjusted());
    CoversItself(t.key);
    if page.up.Some? {
      AdjustedCovers(t.key, page.up.value);
    }
    forall i | 0 <= i < |page.now| ensures Covers(now.key, page.now[i].key) {
      assert Keys(page.now)[i] == page.now[i].key;
      if page.up.None? || page.now[i].key != page.up.value {
        var j :| 0 <= j < |t.children| && Keys(t.children)[j] == page.now[i].key;
        CoversTransitive(now.key, t.key, t.children[j].key);
      }
    }
  }

  // ---------- Containment in the query, exactly ----------

  /** A findable match is found, whatever else the tree holds. */
  lemma {:induction false} EachIsFound(t: BoxTree, box: NDBox, query: NDBox, strategy: int)
    requires Keyed(t) && box in Leaves(t) && LeafMatch(box, query, strategy) && Findable(box, query, strategy)
    ensures box in Found(t, LeafTest(query, strategy), InnerTest(query, strategy))
    decreases t
  {
    hide LeafMatch, MayMatch, Findable, Covers;
    KeyCoversLeaves(t, box);
    if t.Node? {
      NeverTurnedDown(t.key, box, query, strategy);
      var i := ChildWith(t.children, box);
      EachIsFound(t.children[i], box, query, strategy);
      FoundOnPage(t.children, i, box, LeafTest(query, strategy), InnerTest(query, strategy));
    }
  }

  /** The tree made of one box, entered twice. */
  function Pair(box: NDBox): BoxTree {
    Node(UnionAll([box, box]), [Leaf(box), Leaf(box)])
  }

  lemma PairIsKeyed(box: NDBox)
    ensures Keyed(Pair(box)) && box in Leaves(Pair(box))
  {
    var t := Pair(box);
    assert Keys(t.children) == [box, box];
    UnionKeysThePage(t.children);
    assert Leaves(t) == Leaves(Leaf(box)) + LeavesOf(t.children[1..]);
    assert Leaves(Leaf(box))[0] == box;
  }

  /**
   A box inside the query is found in every tree that holds it exactly when the query
   reaches zero along the axes the box lacks.
   */
  lemma FoundInEveryTree(box: NDBox, query: NDBox)
    requires Contains(query, box)
    ensures (forall t: BoxTree :: Keyed(t) && box in Leaves(t) ==>
               box in Found(t, LeafTest(query, RT_CONTAINED_BY), InnerTest(query, RT_CONTAINED_BY)))
       <==> ReachesZero(query, box)
  {
    var leaf, inner := LeafTest(query, RT_CONTAINED_BY), InnerTest(query, RT_CONTAINED_BY);
    if ReachesZero(query, box) {
      forall t: BoxTree | Keyed(t) && box in Leaves(t) ensures box in Found(t, leaf, inner) {
        hide Contains, ReachesZero, Keyed;
        EachIsFound(t, box, query, RT_CONTAINED_BY);
      }
    } else {
      hide Contains, ReachesZero, Keyed, Leaves;
      TurnedDown(box, query);
      PairIsKeyed(box);
      assert Found(Pair(box), leaf, inner) == [];
    }
  }
}
