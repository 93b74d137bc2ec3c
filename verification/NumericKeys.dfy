/**
 The fixed-width B-tree-like operator classes of btree_gist (btree_utils_num.c).  A key is a
 range; a leaf key is the range of one value.  Nothing is used of the values but their order,
 which may hold different values equal (as float8 does with its two zeroes).
 */
module NumericKeys {
  import opened Bytes
  import opened Gist
  import opened PageSplit
  import opened Strategies

  type Order<!T> = (T, T) -> bool

  ghost predicate Total<T(!new)>(le: Order<T>) {
    && (forall a, b :: le(a, b) || le(b, a))
    && (forall a, b, c :: le(a, b) && le(b, c) ==> le(a, c))
  }

  // The comparison functions of the type description.
  predicate Lt<T>(le: Order<T>, a: T, b: T) {
    !le(b, a)
  }

  predicate Eq<T>(le: Order<T>, a: T, b: T) {
    le(a, b) && le(b, a)
  }

  datatype Range<T> = Range(lower: T, upper: T)

  // ---------- Union ----------

  predicate Covers<T>(le: Order<T>, a: Range<T>, b: Range<T>) {
    le(a.lower, b.lower) && le(b.upper, a.upper)
  }

  /** r covers all the ranges, and each of its ends is an end of one of them. */
  ghost predicate Spans<T>(le: Order<T>, r: Range<T>, ranges: seq<Range<T>>) {
    && (forall k :: 0 <= k < |ranges| ==> Covers(le, r, ranges[k]))
    && (exists k :: 0 <= k < |ranges| && r.lower == ranges[k].lower)
    && (exists k :: 0 <= k < |ranges| && r.upper == ranges[k].upper)
  }

  /** The range a widened just enough to cover e. */
  function Widened<T>(le: Order<T>, a: Range<T>, e: Range<T>): Range<T> {
    Range(if Lt(le, e.lower, a.lower) then e.lower else a.lower, if Lt(le, a.upper, e.upper) then e.upper else a.upper)
  }

  lemma SpansMore<T(!new)>(le: Order<T>, r: Range<T>, ranges: seq<Range<T>>, e: Range<T>)
    requires Total(le) && Spans(le, r, ranges)
    ensures Spans(le, Widened(le, r, e), ranges + [e])
  {
    var w, all := Widened(le, r, e), ranges + [e];
    var lo :| 0 <= lo < |ranges| && r.lower == ranges[lo].lower;
    var hi :| 0 <= hi < |ranges| && r.upper == ranges[hi].upper;
    assert all[lo] == ranges[lo] && all[hi] == ranges[hi] && all[|ranges|] == e;
    forall k | 0 <= k < |all| ensures Covers(le, w, all[k]) {
      if k < |ranges| {
        assert Covers(le, r, ranges[k]);
      }
    }
    assert w.lower == all[if Lt(le, e.lower, r.lower) then |ranges| else lo].lower;
    assert w.upper == all[if Lt(le, r.upper, e.upper) then |ranges| else hi].upper;
  }

  lemma SpansOne<T(!new)>(le: Order<T>, e: Range<T>)
    requires Total(le)
    ensures Spans(le, e, [e])
  {
    assert [e][0] == e;
  }

  /** gbt_num_union */
  method NumUnion<T(!new)>(le: Order<T>, entries: seq<Range<T>>) returns (out: Range<T>)
    requires Total(le) && entries != []
    ensures Spans(le, out, entries)
    ensures |entries| == 2 ==> out == Widened(le, entries[0], entries[1])
  {
    out := entries[0];
    SpansOne(le, out);
    for i := 1 to |entries|
      invariant Spans(le, out, entries[..i])
      invariant i == 1 ==> out == entries[0]
      invariant i == 2 ==> out == Widened(le, entries[0], entries[1])
    {
      SpansMore(le, out, entries[..i], entries[i]);
      assert entries[..i] + [entries[i]] == entries[..i + 1];
      var cur := entries[i];
      var lower, upper := out.lower, out.upper;
      if Lt(le, cur.lower, lower) {
        out := out.(lower := cur.lower);
      }
      if Lt(le, upper, cur.upper) {
        out := out.(upper := cur.upper);
      }
    }
    assert entries[..|entries|] == entries;
  }

  /** gbt_num_bin_union: a union not yet started takes the first range as it is */
  method NumBinUnion<T(!new)>(le: Order<T>, u: Option<Range<T>>, e: Range<T>, ghost ranges: seq<Range<T>>)
    returns (u': Option<Range<T>>)
    requires Total(le) && (if u.None? then ranges == [] else Spans(le, u.value, ranges))
    ensures u'.Some? && Spans(le, u'.value, ranges + [e])
  {
    if u.None? {
      SpansOne(le, e);
      assert ranges + [e] == [e];
      return Some(e);
    }
    SpansMore(le, u.value, ranges, e);
    var r := u.value;
    var lower, upper := r.lower, r.upper;
    if Lt(le, e.lower, lower) {
      r := r.(lower := e.lower);
    }
    if Lt(le, upper, e.upper) {
      r := r.(upper := e.upper);
    }
    u' := Some(r);
  }

  // ---------- Consistency ----------

  /** gbt_num_consistent */
  predicate Consistent<T>(le: Order<T>, key: Range<T>, query: T, strategy: int, isLeaf: bool) {
    if strategy == BT_LESS_EQUAL then le(key.lower, query)
    else if strategy == BT_LESS then if isLeaf then Lt(le, key.lower, query) else le(key.lower, query)
    else if strategy == BT_EQUAL then
      if isLeaf then Eq(le, query, key.lower) else le(key.lower, query) && le(query, key.upper)
    else if strategy == BT_GREATER then if isLeaf then Lt(le, query, key.upper) else le(query, key.upper)
    else if strategy == BT_GREATER_EQUAL then le(query, key.upper)
    else false
  }

  /** The operator the strategy stands for, between an indexed value and the query. */
  predicate Satisfies<T>(le: Order<T>, v: T, query: T, strategy: int) {
    if strategy == BT_LESS then Lt(le, v, query)
    else if strategy == BT_LESS_EQUAL then le(v, query)
    else if strategy == BT_EQUAL then Eq(le, v, query)
    else if strategy == BT_GREATER_EQUAL then le(query, v)
    else if strategy == BT_GREATER then Lt(le, query, v)
    else false
  }

  /** The operators by their numbers: less, less or equal, equal, greater or equal, greater. */
  lemma SatisfiesByNumber<T(!new)>(le: Order<T>, v: T, query: T, strategy: int)
    requires Total(le)
    ensures Satisfies(le, v, query, 1) <==> le(v, query) && !le(query, v)
    ensures Satisfies(le, v, query, 2) <==> le(v, query)
    ensures Satisfies(le, v, query, 3) <==> le(v, query) && le(query, v)
    ensures Satisfies(le, v, query, 4) <==> le(query, v)
    ensures Satisfies(le, v, query, 5) <==> le(query, v) && !le(v, query)
    ensures Satisfies(le, v, query, strategy) ==> 1 <= strategy <= 5
  {
  }

  /** An inner key is let through exactly when some value in its range satisfies the operator, strictness apart. */
  lemma InnerExactly<T(!new)>(le: Order<T>, key: Range<T>, query: T, strategy: int)
    requires Total(le) && le(key.lower, key.upper)
    ensures Consistent(le, key, query, strategy, false)
       <==> exists v :: le(key.lower, v) && le(v, key.upper) && Satisfies(le, v, query, Weak(strategy))
  {
    if Consistent(le, key, query, strategy, false) {
      var v := if strategy == BT_EQUAL then query
               else if strategy == BT_LESS || strategy == BT_LESS_EQUAL then key.lower else key.upper;
      assert le(key.lower, v) && le(v, key.upper) && Satisfies(le, v, query, Weak(strategy));
    }
  }

  // ---------- Searching a tree ----------

  /** Leaf keys are single values and every inner key covers the keys right below it. */
  ghost predicate Keyed<T>(le: Order<T>, t: Tree<Range<T>>) {
    match t
    case Leaf(key) => key.lower == key.upper
    case Node(key, ts) => forall i :: 0 <= i < |ts| ==> Covers(le, key, ts[i].key) && Keyed(le, ts[i])
  }

  /** A page given a key that spans its entries' keys is properly keyed. */
  lemma SpanningKeysThePage<T>(le: Order<T>, key: Range<T>, ts: seq<Tree<Range<T>>>)
    requires Spans(le, key, Keys(ts))
    requires forall i :: 0 <= i < |ts| ==> Keyed(le, ts[i])
    ensures Keyed(le, Node(key, ts))
  {
    forall i | 0 <= i < |ts| ensures Covers(le, key, ts[i].key) {
      assert Keys(ts)[i] == ts[i].key;
    }
  }

  ghost function Cover<T>(le: Order<T>): (Range<T>, Range<T>) -> bool {
    (a, b) => Covers(le, a, b) && b.lower == b.upper
  }

  function LeafTest<T>(le: Order<T>, query: T, strategy: int): Range<T> -> bool {
    key => Consistent(le, key, query, strategy, true)
  }

  function InnerTest<T>(le: Order<T>, query: T, strategy: int): Range<T> -> bool {
    key => Consistent(le, key, query, strategy, false)
  }

  lemma {:induction false} KeyCoversLeaves<T(!new)>(le: Order<T>, t: Tree<Range<T>>, k: Range<T>)
    requires Total(le) && Keyed(le, t) && k in Leaves(t)
    ensures Covers(le, t.key, k) && k.lower == k.upper
  {
    if t.Node? {
      var i := ChildWith(t.children, k);
      KeyCoversLeaves(le, t.children[i], k);
    }
  }

  lemma {:induction false} KeyedHolds<T(!new)>(le: Order<T>, t: Tree<Range<T>>)
    requires Total(le) && Keyed(le, t)
    ensures Holds(t, Cover(le))
  {
    if t.Node? {
      forall k | k in Leaves(t) ensures Cover(le)(t.key, k) {
        KeyCoversLeaves(le, t, k);
      }
      forall i | 0 <= i < |t.children| ensures Holds(t.children[i], Cover(le)) {
        KeyedHolds(le, t.children[i]);
      }
    }
  }

  /** The search returns exactly the values that satisfy the operator, in order, from a tree of any depth. */
  lemma SearchIsExact<T(!new)>(le: Order<T>, t: Tree<Range<T>>, query: T, strategy: int)
    requires Total(le) && Keyed(le, t)
    ensures Found(t, LeafTest(le, query, strategy), InnerTest(le, query, strategy))
         == Matching(Leaves(t), LeafTest(le, query, strategy))
    ensures forall k :: k in Leaves(t) ==>
              (LeafTest(le, query, strategy)(k) <==> Satisfies(le, k.lower, query, strategy))
  {
    forall k | k in Leaves(t) ensures LeafTest(le, query, strategy)(k) <==> Satisfies(le, k.lower, query, strategy) {
      KeyCoversLeaves(le, t, k);
    }
    KeyedHolds(le, t);
    HoldsLosesNothing(t, Cover(le), LeafTest(le, query, strategy), InnerTest(le, query, strategy));
    FoundExactly(t, LeafTest(le, query, strategy), InnerTest(le, query, strategy));
  }

  /** A scan starts at the root page, which has no key of its own. */
  method Search<T(!new)>(le: Order<T>, ts: seq<Tree<Range<T>>>, query: T, strategy: int) returns (found: seq<Range<T>>)
    requires Total(le)
    ensures found == FoundOn(ts, LeafTest(le, query, strategy), InnerTest(le, query, strategy))
    ensures (forall i :: 0 <= i < |ts| ==> Keyed(le, ts[i])) ==>
              && found == Matching(LeavesOf(ts), LeafTest(le, query, strategy))
              && Picked(found, LeavesOf(ts), LeafTest(le, query, strategy))
              && forall k :: k in LeavesOf(ts) ==>
                   (LeafTest(le, query, strategy)(k) <==> Satisfies(le, k.lower, query, strategy))
  {
    found := SearchPageBy(ts, LeafTest(le, query, strategy), InnerTest(le, query, strategy));
    if forall i :: 0 <= i < |ts| ==> Keyed(le, ts[i]) {
      forall i | 0 <= i < |ts|
        ensures NothingLost(ts[i], LeafTest(le, query, strategy), InnerTest(le, query, strategy))
      {
        SearchIsExact(le, ts[i], query, strategy);
        FoundExactly(ts[i], LeafTest(le, query, strategy), InnerTest(le, query, strategy));
      }
      forall k | k in LeavesOf(ts)
        ensures LeafTest(le, query, strategy)(k) <==> Satisfies(le, k.lower, query, strategy)
      {
        var i := ChildWith(ts, k);
        SearchIsExact(le, ts[i], query, strategy);
      }
    }
  }

  // ---------- Insertion ----------

  /** gbt_num_same */
  predicate Same<T>(le: Order<T>, a: Range<T>, b: Range<T>) {
    Eq(le, a.lower, b.lower) && Eq(le, a.upper, b.upper)
  }

  /** gistgetadjusted: the union of the two keys, unless that is the same as the old key */
  function Adjusted<T>(le: Order<T>): (Range<T>, Range<T>) -> Option<Range<T>> {
    (key, e) => if Same(le, key, Widened(le, key, e)) then None else Some(Widened(le, key, e))
  }

  /** Adjusted or not, the key covers itself as it was and what was taken up. */
  lemma AdjustedCovers<T(!new)>(le: Order<T>, key: Range<T>, e: Range<T>)
    requires Total(le)
    ensures var adjusted := Adjusted(le)(key, e);
            var now := if adjusted.None? then key else adjusted.value;
            Covers(le, now, key) && Covers(le, now, e)
  {
  }

  /** The walk stops exactly where the key already covers what is taken up. */
  lemma UnchangedExactly<T(!new)>(le: Order<T>, key: Range<T>, e: Range<T>)
    requires Total(le)
    ensures Adjusted(le)(key, e).None? <==> Covers(le, key, e)
  {
  }

  /** Inserting a value below any page, at any depth, keeps all entries properly keyed. */
  lemma {:induction false} InsertKeepsKeyed<T(!new)>(le: Order<T>, ts: seq<Tree<Range<T>>>, path: seq<nat>, v: T)
    requires Total(le) && Leads(ts, path) && forall i :: 0 <= i < |ts| ==> Keyed(le, ts[i])
    ensures var us := InsertInto(ts, path, Range(v, v), Adjusted(le)).now;
            forall i :: 0 <= i < |us| ==> Keyed(le, us[i])
    decreases |path|
  {
    if path != [] {
      var t := ts[path[0]];
      InsertKeepsKeyed(le, t.children, path[1..], v);
      EntryStaysKeyed(le, t, path[1..], v);
    }
  }

  lemma EntryStaysKeyed<T(!new)>(le: Order<T>, t: Tree<Range<T>>, path: seq<nat>, v: T)
    requires Total(le) && Keyed(le, t) && t.Node? && Leads(t.children, path)
    requires var us := InsertInto(t.children, path, Range(v, v), Adjusted(le)).now;
             forall i :: 0 <= i < |us| ==> Keyed(le, us[i])
    ensures Keyed(le, InsertBelow(t, path, Range(v, v), Adjusted(le)).now)
  {
    hide InsertInto, Adjusted;
    var e := Range(v, v);
    var page, now := InsertInto(t.children, path, e, Adjusted(le)), InsertBelow(t, path, e, Adjusted(le)).now;
    KeysAfter(t.children, path, e, Adjusted(le));
    if page.up.Some? {
      AdjustedCovers(le, t.key, page.up.value);
    }
    forall i | 0 <= i < |page.now| ensures Covers(le, now.key, page.now[i].key) {
      assert Keys(page.now)[i] == page.now[i].key;
      if page.up.None? || page.now[i].key != page.up.value {
        var j :| 0 <= j < |t.children| && Keys(t.children)[j] == page.now[i].key;
        assert Covers(le, t.key, t.children[j].key);
      }
    }
  }

  // ---------- Splitting a page ----------

  /** The order in which a page is sorted: by lower end, then by upper end. */
  predicate KeyLe<T>(le: Order<T>, a: Range<T>, b: Range<T>) {
    Lt(le, a.lower, b.lower) || (Eq(le, a.lower, b.lower) && le(a.upper, b.upper))
  }

  /** That is, by lower ends, and by upper ends where those are equal. */
  lemma KeyLeOrders<T(!new)>(le: Order<T>, a: Range<T>, b: Range<T>)
    requires Total(le)
    ensures KeyLe(le, a, b) <==> le(a.lower, b.lower) && (le(b.lower, a.lower) ==> le(a.upper, b.upper))
  {
  }

  function KeyOrder<T>(le: Order<T>): Order<Range<T>> {
    (a, b) => KeyLe(le, a, b)
  }

  type Entry<T> = Numbered<Range<T>>

  /** Half the page, cut out of the sorted page, with its offsets and its key. */
  ghost predicate Half<T>(le: Order<T>, side: seq<Entry<T>>, offsets: seq<nat>, datum: Option<Range<T>>) {
    && Lists(offsets, side)
    && if side == [] then datum.None? else datum.Some? && Spans(le, datum.value, KeysOf(side))
  }

  lemma HalfMore<T>(le: Order<T>, side: seq<Entry<T>>, offsets: seq<nat>, datum: Option<Range<T>>,
                    e: Entry<T>, datum': Option<Range<T>>)
    requires Half(le, side, offsets, datum)
    requires datum'.Some? && Spans(le, datum'.value, KeysOf(side) + [e.key])
    ensures Half(le, side + [e], offsets + [e.i], datum')
  {
    KeysOfMore(side, e);
  }

  /**
   gbt_num_picksplit: the sorted page is cut in two halves; whatever is in the left half is
   no greater than whatever is in the right half.
   */
  method PickSplit<T(!new)>(le: Order<T>, entries: seq<Range<T>>, qsort: seq<Entry<T>> -> seq<Entry<T>>,
                            left: array<nat>, right: array<nat>)
    returns (nleft: nat, nright: nat, ldatum: Option<Range<T>>, rdatum: Option<Range<T>>,
             ghost lside: seq<Entry<T>>, ghost rside: seq<Entry<T>>)
    requires Total(le) && entries != [] && Sorts(KeyOrder(le), qsort)
    requires left.Length == right.Length == |entries| + 1 && left != right
    modifies left, right
    ensures nleft == (|entries| - 1) / 2 && nleft + nright == |entries| - 1
    ensures multiset(lside) + multiset(rside) == multiset(Number(entries))
    ensures Half(le, lside, left[..nleft], ldatum) && Half(le, rside, right[..nright], rdatum)
    ensures forall a, b :: a in lside && b in rside ==> KeyLe(le, a.key, b.key) && le(a.key.lower, b.key.lower)
  {
    hide Total, Spans, Half, KeyLe;
    var arr := qsort(Number(entries));
    SameSize(arr, Number(entries));
    var maxoff := |entries| - 1;
    nleft, nright, ldatum, rdatum := 0, 0, None, None;
    lside, rside := [], [];
    HalfNone(le);
    for i := 1 to maxoff + 1
      invariant lside + rside == arr[..i - 1]
      invariant nleft == |lside| && nright == |rside|
      invariant |lside| == if i - 1 <= maxoff / 2 then i - 1 else maxoff / 2
      invariant Half(le, lside, left[..nleft], ldatum) && Half(le, rside, right[..nright], rdatum)
    {
      var e := arr[i - 1];
      assert arr[..i] == arr[..i - 1] + [e];
      if i <= maxoff / 2 {
        assert rside == [];
        HalfSpans(le, lside, left[..nleft], ldatum);
        var d := NumBinUnion(le, ldatum, e.key, KeysOf(lside));
        HalfMore(le, lside, left[..nleft], ldatum, e, d);
        Append(left, nleft, e.i);
        ldatum, nleft, lside := d, nleft + 1, lside + [e];
      } else {
        HalfSpans(le, rside, right[..nright], rdatum);
        var d := NumBinUnion(le, rdatum, e.key, KeysOf(rside));
        HalfMore(le, rside, right[..nright], rdatum, e, d);
        Append(right, nright, e.i);
        rdatum, nright, rside := d, nright + 1, rside + [e];
      }
    }
    assert lside + rside == arr;
    LeftBelowRight(KeyOrder(le), lside, rside);
    forall a, b | a in lside && b in rside ensures KeyLe(le, a.key, b.key) && le(a.key.lower, b.key.lower) {
      KeyLeOrders(le, a.key, b.key);
    }
  }

  lemma HalfNone<T>(le: Order<T>)
    ensures Half(le, [], [], None)
  {
  }

  lemma HalfSpans<T>(le: Order<T>, side: seq<Entry<T>>, offsets: seq<nat>, datum: Option<Range<T>>)
    requires Half(le, side, offsets, datum)
    ensures if datum.None? then KeysOf(side) == [] else Spans(le, datum.value, KeysOf(side))
  {
  }
}
