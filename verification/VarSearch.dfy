/**
 Searching an index of byte strings (gbt_var_consistent).  A search makes up for the cutting
 of keys by also accepting any query that has an end of the key as a prefix.
 */
module VarSearch {
  import opened Bytes
  import opened ByteStrings
  import opened Gist
  import opened Strategies
  import opened VarKeys

  // ---------- Consistency ----------

  /** gbt_var_node_pf_match */
  predicate NodePfMatch(key: VarKey, query: Bytea) {
    key.Lower() <= query || key.Upper() <= query
  }

  /** gbt_var_consistent */
  predicate Consistent(key: VarKey, query: Bytea, strategy: int, isLeaf: bool) {
    if strategy == BT_LESS_EQUAL then
      if isLeaf then Le(key.Lower(), query) else Le(key.Lower(), query) || NodePfMatch(key, query)
    else if strategy == BT_LESS then
      if isLeaf then Lt(key.Lower(), query) else Le(key.Lower(), query) || NodePfMatch(key, query)
    else if strategy == BT_EQUAL then
      if isLeaf then query == key.Lower()
      else (Le(key.Lower(), query) && Le(query, key.Upper())) || NodePfMatch(key, query)
    else if strategy == BT_GREATER then
      if isLeaf then Lt(query, key.Upper()) else Le(query, key.Upper()) || NodePfMatch(key, query)
    else if strategy == BT_GREATER_EQUAL then
      if isLeaf then Le(query, key.Upper()) else Le(query, key.Upper()) || NodePfMatch(key, query)
    else false
  }

  /** The operator the strategy stands for, between an indexed value and the query. */
  predicate Satisfies(v: Bytea, query: Bytea, strategy: int) {
    if strategy == BT_LESS then Lt(v, query)
    else if strategy == BT_LESS_EQUAL then Le(v, query)
    else if strategy == BT_EQUAL then v == query
    else if strategy == BT_GREATER_EQUAL then Le(query, v)
    else if strategy == BT_GREATER then Lt(query, v)
    else false
  }

  // ---------- What a key lets through ----------

  /** The string is not below the key, and not above it unless it has an end of the key as a prefix. */
  predicate Reaches(key: VarKey, v: Bytea) {
    Le(key.Lower(), v) && (Le(v, key.Upper()) || NodePfMatch(key, v))
  }

  lemma LetThrough(key: VarKey, v: Bytea, query: Bytea, strategy: int)
    requires InOrder(key) && Reaches(key, v) && Satisfies(v, query, strategy)
    ensures Consistent(key, query, strategy, false)
  {
    hide Le;
    var l, u := key.Lower(), key.Upper();
    LeTotal(v, query);
    LeTotal(query, u);
    if strategy == BT_LESS || strategy == BT_LESS_EQUAL {
      LeTransitive(l, v, query);
    } else if strategy != BT_EQUAL && !Le(query, u) {
      if Le(v, u) {
        LeTransitive(query, v, u);
      } else if u <= v {
        BetweenPrefixAndWhole(u, query, v);
      } else {
        LeTransitive(l, u, query);
        BetweenPrefixAndWhole(l, query, v);
      }
    }
  }

  /** A key is never turned down for a string that satisfies the operator exactly when it reaches that string. */
  lemma NeverTurnedDownExactly(key: VarKey, v: Bytea)
    requires InOrder(key)
    ensures (forall query, strategy :: Satisfies(v, query, strategy) ==> Consistent(key, query, strategy, false))
       <==> Reaches(key, v)
  {
    hide Le, Reaches;
    if Reaches(key, v) {
      forall query, strategy | Satisfies(v, query, strategy) ensures Consistent(key, query, strategy, false) {
        LetThrough(key, v, query, strategy);
      }
    } else {
      assert Satisfies(v, v, BT_EQUAL);
      EqualReaches(key, v);
    }
  }

  lemma EqualReaches(key: VarKey, v: Bytea)
    requires InOrder(key)
    ensures Consistent(key, v, BT_EQUAL, false) <==> Reaches(key, v)
  {
    hide Le;
    if key.Lower() <= v {
      PrefixLe(key.Lower(), v);
    }
    if key.Upper() <= v {
      PrefixLe(key.Upper(), v);
      LeTransitive(key.Lower(), key.Upper(), v);
    }
  }

  /** The operators by their numbers: less, less or equal, equal, greater or equal, greater. */
  lemma SatisfiesByNumber(v: Bytea, query: Bytea, strategy: int)
    ensures Satisfies(v, query, 1) <==> Le(v, query) && v != query
    ensures Satisfies(v, query, 2) <==> Le(v, query)
    ensures Satisfies(v, query, 3) <==> v == query
    ensures Satisfies(v, query, 4) <==> Le(query, v)
    ensures Satisfies(v, query, 5) <==> Le(query, v) && v != query
    ensures Satisfies(v, query, strategy) ==> 1 <= strategy <= 5
  {
    hide Le;
    LeTotal(v, query);
    LeReflexive(v);
  }

  /** An inner key is let through exactly when some string it reaches satisfies the operator, strictness apart. */
  lemma InnerExactly(key: VarKey, query: Bytea, strategy: int)
    requires InOrder(key)
    ensures Consistent(key, query, strategy, false)
       <==> exists v :: Reaches(key, v) && Satisfies(v, query, Weak(strategy))
  {
    hide Le, Reaches;
    if v :| Reaches(key, v) && Satisfies(v, query, Weak(strategy)) {
      LetThrough(key, v, query, Weak(strategy));
    }
    if Consistent(key, query, strategy, false) {
      var v := SomeReached(key, query, strategy);
    }
  }

  lemma SomeReached(key: VarKey, query: Bytea, strategy: int) returns (v: Bytea)
    requires InOrder(key) && Consistent(key, query, strategy, false)
    ensures Reaches(key, v) && Satisfies(v, query, Weak(strategy))
  {
    hide Le;
    var l, u := key.Lower(), key.Upper();
    LeReflexive(l);
    LeReflexive(u);
    LeReflexive(query);
    if NodePfMatch(key, query) {
      v := query;
      PfMatchReaches(key, query);
    } else if strategy == BT_EQUAL {
      v := query;
    } else if strategy == BT_LESS || strategy == BT_LESS_EQUAL {
      v := l;
    } else {
      v := u;
    }
  }

  lemma PfMatchReaches(key: VarKey, query: Bytea)
    requires InOrder(key) && NodePfMatch(key, query)
    ensures Reaches(key, query)
  {
    hide Le;
    if key.Lower() <= query {
      PrefixLe(key.Lower(), query);
    } else {
      PrefixLe(key.Upper(), query);
      LeTransitive(key.Lower(), key.Upper(), query);
    }
  }

  /** What may lie below an entry: a string its key accounts for, past the upper end only as an extension of it. */
  predicate Stands(key: VarKey, v: Bytea) {
    Accounts(key, v) && (Le(v, key.Upper()) || key.Upper() <= v)
  }

  lemma StandsForOwnEnds(key: VarKey)
    requires InOrder(key)
    ensures Stands(key, key.Lower()) && Stands(key, key.Upper())
  {
    AccountsForOwnEnds(key);
    LeReflexive(key.Upper());
  }

  /** Past a key cut two bytes past its common prefix, what is accounted for extends the upper end. */
  lemma TightStands(key: VarKey, v: Bytea)
    requires Tight(key) && Accounts(key, v)
    ensures Stands(key, v)
  {
    hide Le, Common;
    if !Le(v, key.Upper()) {
      CommonIsPrefix(key.Upper(), v, |key.Upper()|);
    }
  }

  /** A key is never turned down when it stands for a match. */
  lemma NeverTurnedDown(key: VarKey, v: Bytea, query: Bytea, strategy: int)
    requires InOrder(key) && Stands(key, v) && Satisfies(v, query, strategy)
    ensures Consistent(key, query, strategy, false)
  {
    hide Le, Common;
    LetThrough(key, v, query, strategy);
  }

  /** No match below these entries is turned down by the key. */
  ghost predicate TurnsNothingDown(key: VarKey, entries: seq<VarKey>) {
    forall k, v, query, strategy :: 0 <= k < |entries| && Stands(entries[k], v) && Satisfies(v, query, strategy) ==>
      Consistent(key, query, strategy, false)
  }

  ghost predicate ReachesAll(key: VarKey, entries: seq<VarKey>) {
    forall k, v :: 0 <= k < |entries| && Stands(entries[k], v) ==> Reaches(key, v)
  }

  lemma TurnsNothingDownExactly(key: VarKey, entries: seq<VarKey>)
    requires InOrder(key)
    ensures TurnsNothingDown(key, entries) <==> ReachesAll(key, entries)
  {
    hide Stands, Reaches, Satisfies, Consistent, InOrder;
    if ReachesAll(key, entries) {
      forall k, v, query, strategy | 0 <= k < |entries| && Stands(entries[k], v) && Satisfies(v, query, strategy)
        ensures Consistent(key, query, strategy, false)
      {
        LetThrough(key, v, query, strategy);
      }
    }
    if TurnsNothingDown(key, entries) {
      forall k, v | 0 <= k < |entries| && Stands(entries[k], v) ensures Reaches(key, v) {
        NeverTurnedDownExactly(key, v);
      }
    }
  }

  /** The key of a page turns no match below its entries down exactly when no lower end is lost. */
  lemma PageTurnsNothingDownExactly(entries: seq<VarKey>)
    requires entries != [] && AllInOrder(entries)
    ensures TurnsNothingDown(PageKey(entries), entries) <==> NoLowerEndLost(entries)
  {
    hide Le, Common, PageKey, NoLowerEndLost, AccountsForAll, TurnsNothingDown;
    PageKeyExactly(entries);
    TurnsNothingDownExactly(PageKey(entries), entries);
    NoLowerEndLostExactly(entries);
    if AccountsForAll(PageKey(entries), entries) {
      PageReachesAll(PageKey(entries), entries);
    }
    if ReachesAll(PageKey(entries), entries) {
      forall k | 0 <= k < |entries| ensures Le(PageKey(entries).Lower(), entries[k].Lower()) {
        StandsForOwnEnds(entries[k]);
        assert Reaches(PageKey(entries), entries[k].Lower());
      }
    }
  }

  lemma PageReachesAll(key: VarKey, entries: seq<VarKey>)
    requires Tight(key) && AccountsForAll(key, entries)
    ensures ReachesAll(key, entries)
  {
    hide Le, Common, Tight;
    forall k, v | 0 <= k < |entries| && Stands(entries[k], v) ensures Reaches(key, v) {
      TightStands(key, v);
    }
  }

  /** Whatever strings are on a leaf page, in whatever order, the page's cut key loses none of the matches. */
  lemma LeafPageLosesNothing(entries: seq<VarKey>, k: nat, query: Bytea, strategy: int)
    requires LeafPage(entries) && k < |entries| && Consistent(entries[k], query, strategy, true)
    ensures Consistent(PageKey(entries), query, strategy, false)
  {
    hide Le, Common, PageKey, Consistent, NoLowerEndLost, Stands;
    LeafPageMovesOneEnd(entries);
    OneEndIsEnough(entries);
    PageTurnsNothingDownExactly(entries);
    LeafStands(entries[k], query, strategy);
  }

  lemma LeafStands(e: VarKey, query: Bytea, strategy: int)
    requires e.LeafKey?
    ensures Stands(e, e.value) && (Consistent(e, query, strategy, true) <==> Satisfies(e.value, query, strategy))
  {
    LeReflexive(e.value);
  }

  // ---------- Searching a tree ----------

  type VarTree = Tree<VarKey>

  /** An entry on its page: leaf keys are single strings, node keys stand for all the strings below. */
  ghost predicate Keyed(t: VarTree) {
    match t
    case Leaf(key) => key.LeafKey?
    case Node(key, ts) =>
      && InOrder(key)
      && (forall k :: k in Leaves(t) ==> k.LeafKey? && Stands(key, k.value))
      && AllKeyed(ts)
  }

  ghost predicate AllKeyed(ts: seq<VarTree>) {
    forall i :: 0 <= i < |ts| ==> Keyed(ts[i])
  }

  lemma KeyedEntry(t: VarTree, k: VarKey)
    requires Keyed(t) && k in Leaves(t)
    ensures k.LeafKey? && Stands(t.key, k.value)
  {
    if t.Leaf? {
      LeReflexive(k.value);
    }
  }

  lemma KeyedInOrder(ts: seq<VarTree>)
    requires AllKeyed(ts)
    ensures AllInOrder(Keys(ts))
  {
    forall i | 0 <= i < |ts| ensures InOrder(Keys(ts)[i]) {
      assert Keyed(ts[i]);
      if ts[i].Leaf? {
        LeReflexive(ts[i].key.value);
      }
    }
  }

  /** The key stands for whatever may lie below the entries. */
  ghost predicate StandsForAll(key: VarKey, entries: seq<VarKey>) {
    forall k, v :: 0 <= k < |entries| && Stands(entries[k], v) ==> Stands(key, v)
  }

  /** Such a key keys the page. */
  lemma StandingKeysThePage(key: VarKey, ts: seq<VarTree>)
    requires AllKeyed(ts) && InOrder(key) && StandsForAll(key, Keys(ts))
    ensures Keyed(Node(key, ts))
  {
    hide Stands, InOrder;
    forall k | k in LeavesOf(ts) ensures k.LeafKey? && Stands(key, k.value) {
      var i := ChildWith(ts, k);
      KeyedEntry(ts[i], k);
      assert Keys(ts)[i] == ts[i].key;
    }
  }

  /** The union of entries stands for all that they stand for, if no lower end is lost. */
  lemma UnionStandsForAll(entries: seq<VarKey>)
    requires entries != [] && AllInOrder(entries) && NoLowerEndLost(entries)
    ensures InOrder(PageKey(entries)) && StandsForAll(PageKey(entries), entries)
  {
    hide Le, Common, PageKey, NoLowerEndLost, AllInOrder;
    PageKeyExactly(entries);
    forall k, v | 0 <= k < |entries| && Stands(entries[k], v) ensures Stands(PageKey(entries), v) {
      TightStands(PageKey(entries), v);
    }
  }

  /** A page keyed by gbt_var_union is properly keyed, at whatever depth, if no lower end is lost. */
  lemma UnionKeysThePage(ts: seq<VarTree>)
    requires ts != [] && AllKeyed(ts) && NoLowerEndLost(Keys(ts))
    ensures Keyed(Node(PageKey(Keys(ts)), ts))
  {
    hide PageKey, NoLowerEndLost, AllKeyed, Keyed, StandsForAll;
    KeyedInOrder(ts);
    UnionStandsForAll(Keys(ts));
    StandingKeysThePage(PageKey(Keys(ts)), ts);
  }

  function LeafTest(query: Bytea, strategy: int): VarKey -> bool {
    key => Consistent(key, query, strategy, true)
  }

  function InnerTest(query: Bytea, strategy: int): VarKey -> bool {
    key => Consistent(key, query, strategy, false)
  }

  ghost function StandsFor(): (VarKey, VarKey) -> bool {
    (key: VarKey, k: VarKey) => k.LeafKey? && InOrder(key) && Stands(key, k.value)
  }

  lemma {:induction false} KeyedHolds(t: VarTree)
    requires Keyed(t)
    ensures Holds(t, StandsFor())
  {
    hide Stands, InOrder;
    if t.Node? {
      forall i | 0 <= i < |t.children| ensures Holds(t.children[i], StandsFor()) {
        KeyedHolds(t.children[i]);
      }
    }
  }

  /** The search returns exactly the matching leaves, in order. */
  ghost predicate FoundAll(t: VarTree, query: Bytea, strategy: int) {
    Found(t, LeafTest(query, strategy), InnerTest(query, strategy)) == Matching(Leaves(t), LeafTest(query, strategy))
  }

  /** The search returns exactly the strings that satisfy the operator, in order, from a tree of any depth. */
  lemma SearchIsExact(t: VarTree, query: Bytea, strategy: int)
    requires Keyed(t)
    ensures FoundAll(t, query, strategy)
    ensures forall k :: k in Leaves(t) ==>
              k.LeafKey? && (LeafTest(query, strategy)(k) <==> Satisfies(k.value, query, strategy))
  {
    hide Stands, InOrder;
    forall k | k in Leaves(t)
      ensures k.LeafKey? && (LeafTest(query, strategy)(k) <==> Satisfies(k.value, query, strategy))
    {
      KeyedEntry(t, k);
    }
    KeyedHolds(t);
    forall key, k | StandsFor()(key, k) && k in Leaves(t) && LeafTest(query, strategy)(k)
      ensures InnerTest(query, strategy)(key)
    {
      NeverTurnedDown(key, k.value, query, strategy);
    }
    HoldsLosesNothing(t, StandsFor(), LeafTest(query, strategy), InnerTest(query, strategy));
    FoundExactly(t, LeafTest(query, strategy), InnerTest(query, strategy));
  }

  /** A scan starts at the root page, which has no key of its own. */
  method Search(ts: seq<VarTree>, query: Bytea, strategy: int) returns (found: seq<VarKey>)
    ensures found == FoundOn(ts, LeafTest(query, strategy), InnerTest(query, strategy))
    ensures AllKeyed(ts) ==>
              && found == Matching(LeavesOf(ts), LeafTest(query, strategy))
              && Picked(found, LeavesOf(ts), LeafTest(query, strategy))
              && forall k :: k in LeavesOf(ts) ==>
                   k.LeafKey? && (LeafTest(query, strategy)(k) <==> Satisfies(k.value, query, strategy))
  {
    hide Keyed, Satisfies, Consistent;
    found := SearchPageBy(ts, LeafTest(query, strategy), InnerTest(query, strategy));
    if AllKeyed(ts) {
      forall i | 0 <= i < |ts| ensures NothingLost(ts[i], LeafTest(query, strategy), InnerTest(query, strategy)) {
        SearchIsExact(ts[i], query, strategy);
        FoundExactly(ts[i], LeafTest(query, strategy), InnerTest(query, strategy));
      }
      forall k | k in LeavesOf(ts)
        ensures k.LeafKey? && (LeafTest(query, strategy)(k) <==> Satisfies(k.value, query, strategy))
      {
        var i := ChildWith(ts, k);
        SearchIsExact(ts[i], query, strategy);
      }
    }
  }

  // ---------- When a key loses a match ----------

  /** A key that turns a query down loses every match below it. */
  lemma LostUnder(key: VarKey, ts: seq<VarTree>, v: Bytea, query: Bytea, strategy: int)
    requires LeafKey(v) in LeavesOf(ts) && Satisfies(v, query, strategy) && !Consistent(key, query, strategy, false)
    ensures LeafKey(v) in Leaves(Node(key, ts)) && LeafTest(query, strategy)(LeafKey(v))
    ensures Found(Node(key, ts), LeafTest(query, strategy), InnerTest(query, strategy)) == []
    ensures !FoundAll(Node(key, ts), query, strategy)
  {
    hide Satisfies, Consistent;
    LeafStands(LeafKey(v), query, strategy);
    NoneMatching(Leaves(Node(key, ts)), LeafTest(query, strategy));
  }

  /** A key that turns nothing down finds all there is below it. */
  lemma FoundUnderNode(key: VarKey, ts: seq<VarTree>, query: Bytea, strategy: int)
    requires AllKeyed(ts) && TurnsNothingDown(key, Keys(ts))
    ensures FoundAll(Node(key, ts), query, strategy)
  {
    hide Satisfies, Consistent, Stands, Keyed;
    var t, leaf, inner := Node(key, ts), LeafTest(query, strategy), InnerTest(query, strategy);
    forall k | k in Leaves(t) && leaf(k) ensures inner(key) {
      var i := ChildWith(ts, k);
      KeyedEntry(ts[i], k);
      LeafStands(k, query, strategy);
      assert Keys(ts)[i] == ts[i].key;
    }
    forall i | 0 <= i < |ts| ensures NothingLost(ts[i], leaf, inner) {
      SearchIsExact(ts[i], query, strategy);
      FoundExactly(ts[i], leaf, inner);
    }
    FoundExactly(t, leaf, inner);
  }

  /** A tree with this key that holds a string the key stands for. */
  function Holding(key: VarKey, v: Bytea): VarTree {
    if key.LeafKey? then Leaf(key) else Node(key, [Leaf(LeafKey(key.lo)), Leaf(LeafKey(v))])
  }

  lemma LeavesAreKeyed(a: VarKey, b: VarKey)
    requires a.LeafKey? && b.LeafKey?
    ensures AllKeyed([Leaf(a), Leaf(b)])
  {
  }

  lemma {:induction false} CommonWithSelf(a: Bytea)
    ensures Common(a, a) == |a|
  {
    if a != [] {
      CommonWithSelf(a[1..]);
    }
  }

  /** A leaf key stands for its own string only. */
  lemma LeafStandsForItself(key: VarKey, v: Bytea)
    requires key.LeafKey? && Stands(key, v)
    ensures v == key.value
  {
    hide Le, Common;
    LeTotal(key.value, v);
    CommonWithSelf(key.value);
  }

  lemma HoldingIsKeyed(key: VarKey, v: Bytea)
    requires InOrder(key) && Stands(key, v)
    ensures Keyed(Holding(key, v)) && Holding(key, v).key == key && LeafKey(v) in Leaves(Holding(key, v))
  {
    if key.LeafKey? {
      LeafStandsForItself(key, v);
    } else {
      hide Stands, InOrder;
      StandsForOwnEnds(key);
      LeavesOfTwo(LeafKey(key.lo), LeafKey(v));
      LeavesAreKeyed(LeafKey(key.lo), LeafKey(v));
      assert Leaves(Holding(key, v)) == [LeafKey(key.lo), LeafKey(v)];
    }
  }

  /** Pages with the given keys, the k-th of which holds v. */
  function Pages(entries: seq<VarKey>, k: nat, v: Bytea): (ts: seq<VarTree>)
    ensures |ts| == |entries|
  {
    seq(|entries|, i requires 0 <= i < |entries| => Holding(entries[i], if i == k then v else entries[i].Upper()))
  }

  lemma PagesAreKeyed(entries: seq<VarKey>, k: nat, v: Bytea)
    requires AllInOrder(entries) && k < |entries| && Stands(entries[k], v)
    ensures AllKeyed(Pages(entries, k, v)) && Keys(Pages(entries, k, v)) == entries
    ensures LeafKey(v) in LeavesOf(Pages(entries, k, v))
  {
    hide Keyed, Holding, InOrder, Stands;
    var ts := Pages(entries, k, v);
    forall i | 0 <= i < |entries| ensures Keyed(ts[i]) && ts[i].key == entries[i] {
      StandsForOwnEnds(entries[i]);
      HoldingIsKeyed(entries[i], if i == k then v else entries[i].Upper());
    }
    HoldingIsKeyed(entries[k], v);
    LeavesOfChild(ts, k);
  }

  /** Every search in every tree finds all its matches, wherever a page with these entries has this key. */
  ghost predicate FoundUnder(key: VarKey, entries: seq<VarKey>) {
    forall ts: seq<VarTree>, query, strategy :: Keys(ts) == entries && AllKeyed(ts) ==>
      FoundAll(Node(key, ts), query, strategy)
  }

  /** That is so exactly when the key turns nothing down that its entries stand for. */
  lemma FoundUnderExactly(key: VarKey, entries: seq<VarKey>)
    requires AllInOrder(entries)
    ensures FoundUnder(key, entries) <==> TurnsNothingDown(key, entries)
  {
    hide Stands, Satisfies, Consistent, FoundAll, AllKeyed, InOrder;
    if TurnsNothingDown(key, entries) {
      forall ts: seq<VarTree>, query, strategy | Keys(ts) == entries && AllKeyed(ts)
        ensures FoundAll(Node(key, ts), query, strategy)
      {
        FoundUnderNode(key, ts, query, strategy);
      }
    } else {
      var k, v, query, strategy :| 0 <= k < |entries| && Stands(entries[k], v) && Satisfies(v, query, strategy)
        && !Consistent(key, query, strategy, false);
      PagesAreKeyed(entries, k, v);
      LostUnder(key, Pages(entries, k, v), v, query, strategy);
    }
  }

  /** Under the key that gbt_var_union gives a page, it is so exactly when no lower end is lost. */
  lemma FoundUnderEveryPageExactly(entries: seq<VarKey>)
    requires entries != [] && AllInOrder(entries)
    ensures FoundUnder(PageKey(entries), entries) <==> NoLowerEndLost(entries)
  {
    hide FoundUnder, PageKey, NoLowerEndLost, TurnsNothingDown;
    FoundUnderExactly(PageKey(entries), entries);
    PageTurnsNothingDownExactly(entries);
  }

  // ---------- A union that loses a match ----------

  /** A leaf page of two strings, keyed by its union. */
  function PageOf(x: Bytea, y: Bytea): VarTree {
    Node(PageKey([LeafKey(x), LeafKey(y)]), [Leaf(LeafKey(x)), Leaf(LeafKey(y))])
  }

  lemma KeyOfTwo(x: Bytea, y: Bytea)
    requires Le(x, y)
    ensures PageKey([LeafKey(x), LeafKey(y)]) == NodeKey(Cut(x, Common(x, y) + 2), Cut(y, Common(x, y) + 2))
  {
    hide Le, Common, Cut;
    var es := [LeafKey(x), LeafKey(y)];
    LeTotal(x, y);
    assert es[..1] == [LeafKey(x)];
    assert UnionAll(es[..1]) == NodeKey(x, x);
    assert BinUnion(NodeKey(x, x), LeafKey(y)) == NodeKey(x, y);
    hide BinUnion;
    assert UnionAll(es) == BinUnion(UnionAll(es[..1]), es[1]);
  }

  lemma PageOfIsKeyed(x: Bytea, y: Bytea)
    ensures Keyed(PageOf(x, y)) && LeafKey(x) in Leaves(PageOf(x, y)) && LeafKey(y) in Leaves(PageOf(x, y))
  {
    hide PageKey, NoLowerEndLost, Keyed;
    var ts := [Leaf(LeafKey(x)), Leaf(LeafKey(y))];
    assert Keys(ts) == [LeafKey(x), LeafKey(y)];
    LeavesAreKeyed(LeafKey(x), LeafKey(y));
    LeafPageMovesOneEnd(Keys(ts));
    OneEndIsEnough(Keys(ts));
    UnionKeysThePage(ts);
    LeavesOfTwo(LeafKey(x), LeafKey(y));
  }

  lemma OneByteOrder(x: Byte, y: Byte)
    ensures Le([x], [y]) <==> x <= y
    ensures x != y ==> Common([x], [y]) == 0
  {
  }

  lemma UnionMovingBothEnds()
    ensures var es := [NodeKey([98], [99]), NodeKey([97], [100])];
            && WidensBothEnds(es[0], es[1]) && PageKey(es) == NodeKey([98], [100])
            && !Consistent(PageKey(es), [97], BT_EQUAL, false)
    ensures PageOf([98], [99]).key == NodeKey([98], [99]) && PageOf([97], [100]).key == NodeKey([97], [100])
  {
    var es := [NodeKey([98], [99]), NodeKey([97], [100])];
    OneByteOrder(98, 99);
    OneByteOrder(97, 100);
    OneByteOrder(98, 97);
    OneByteOrder(100, 99);
    OneByteOrder(98, 100);
    KeyOfTwo([98], [99]);
    KeyOfTwo([97], [100]);
    assert es[..1] == [es[0]] && UnionAll([es[0]]) == es[0];
    assert UnionAll(es) == NodeKey([98], [100]);
  }

  /**
   Two properly keyed pages, "b" to "c" and "a" to "d", put together in that order: the
   union is "b" to "d", and a search for "a" finds nothing.
   */
  lemma MovingBothEndsLosesAMatch()
    ensures var ts := [PageOf([98], [99]), PageOf([97], [100])];
            && AllKeyed(ts) && WidensBothEnds(ts[0].key, ts[1].key)
            && var t := Node(PageKey(Keys(ts)), ts);
               && LeafKey([97]) in Leaves(t) && LeafTest([97], BT_EQUAL)(LeafKey([97]))
               && Found(t, LeafTest([97], BT_EQUAL), InnerTest([97], BT_EQUAL)) == []
  {
    hide PageKey, WidensBothEnds, Keyed, LeafTest, InnerTest, Found, Consistent, PageOf, Le;
    var ts := [PageOf([98], [99]), PageOf([97], [100])];
    UnionMovingBothEnds();
    PageOfIsKeyed([98], [99]);
    PageOfIsKeyed([97], [100]);
    assert Keys(ts) == [NodeKey([98], [99]), NodeKey([97], [100])];
    LeavesOfChild(ts, 1);
    assert ts[1] == PageOf([97], [100]);
    LostUnder(PageKey(Keys(ts)), ts, [97], [97], BT_EQUAL);
  }
}
