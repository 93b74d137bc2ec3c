/**
 Inserting below a key that stands for the ends of the keys on its page, but perhaps not for all
 that they stand for: the key of a split page's half.
 */
module VarInsertHalf {
  import opened ByteStrings
  import opened Gist
  import opened Strategies
  import opened VarInsert
  import opened VarKeys
  import opened VarSearch
  import opened VarSplit

  // ---------- Where the walk stops ----------

  /** Cut as gbt_var_union cuts keys. */
  predicate CutByUnion(key: VarKey) {
    Same(key, CutPast(key.Lower(), key.Upper()))
  }

  lemma UnionsAreCut(lo: Bytea, hi: Bytea)
    ensures CutByUnion(CutPast(lo, hi))
  {
    hide Common, Cut;
    var n := Common(lo, hi) + 2;
    CutOfCut(lo, n, n);
    CutOfCut(hi, n, n);
    SameCuts(lo, hi, Cut(lo, n), Cut(hi, n));
  }

  /** A string leaves a key as it is exactly when the key was cut by a union and stands for the string. */
  lemma UnchangedExactly(key: VarKey, e: Bytea)
    requires InOrder(key)
    ensures Same(key, PageKey([key, LeafKey(e)])) <==> CutByUnion(key) && Stands(key, e)
  {
    hide Le, Common, Cut, PageKey;
    var l, u := key.Lower(), key.Upper();
    UnionWithString(key, e);
    if Same(key, PageKey([key, LeafKey(e)])) {
      AdjustedStands(key, e);
      UnionsAreCut(Lesser(l, e), Greater(u, e));
    }
    if CutByUnion(key) && Stands(key, e) {
      if !Le(e, u) {
        PastTheCut(key, e);
        SameCuts(l, u, l, e);
      }
    }
  }

  lemma PastTheCut(key: VarKey, e: Bytea)
    requires InOrder(key) && CutByUnion(key) && Stands(key, e) && !Le(e, key.Upper())
    ensures var n := Common(key.Lower(), key.Upper()) + 2; Cut(e, n) == Cut(key.Upper(), n)
  {
    hide Le, Common;
  }

  // ---------- Below a key that need not stand for all ----------

  /** All searches find all their matches. */
  ghost predicate Whole(t: VarTree) {
    forall query, strategy :: FoundAll(t, query, strategy)
  }

  /** The entry after an insertion somewhere below it. */
  function Grown(key: VarKey, ts: seq<VarTree>, path: seq<nat>, e: Bytea): VarTree
    requires Leads(ts, path)
  {
    InsertBelow(Node(key, ts), path, LeafKey(e), Adjusted()).now
  }

  ghost predicate Finds(t: VarTree, e: Bytea) {
    LeafKey(e) in Found(t, LeafTest(e, BT_EQUAL), InnerTest(e, BT_EQUAL))
  }

  /** Whatever nested trees have these entries, every insertion below the key leaves all matches to be found. */
  ghost predicate WholeAfter(key: VarKey, entries: seq<VarKey>) {
    forall ts: seq<VarTree>, path, e :: Keys(ts) == entries && AllNested(ts) && Leads(ts, path) ==>
      Whole(Grown(key, ts, path, e))
  }

  /** Every inserted string is found afterwards. */
  ghost predicate FoundAfter(key: VarKey, entries: seq<VarKey>) {
    forall ts: seq<VarTree>, path, e :: Keys(ts) == entries && AllNested(ts) && Leads(ts, path) ==>
      Finds(Grown(key, ts, path, e), e)
  }

  /** Where all matches were found before, they are after every insertion. */
  ghost predicate StaysWhole(key: VarKey, entries: seq<VarKey>) {
    forall ts: seq<VarTree>, path, e ::
      Keys(ts) == entries && AllNested(ts) && Leads(ts, path) && Whole(Node(key, ts)) ==>
        Whole(Grown(key, ts, path, e))
  }

  /** What the inner key stands for and the outer one does not extends the inner upper end, within the outer one. */
  lemma ExtendsInnerEnd(key: VarKey, c: VarKey, v: Bytea)
    requires InOrder(key) && InOrder(c) && StandsForEnds(key, c) && Stands(c, v) && !Stands(key, v)
    ensures Le(key.Lower(), v) && Open(c) && c.Upper() <= v && (Le(v, key.Upper()) || c.Upper() <= key.Upper())
  {
    hide Le, Common;
    var l, u, cu := key.Lower(), key.Upper(), c.Upper();
    LeTransitive(l, c.Lower(), v);
    LeTotal(v, u);
    if !Le(cu, u) {
      if Le(v, cu) {
        BetweenPrefixAndWhole(u, v, cu);
      }
      OpenStands(key, v);
    } else if Le(v, cu) {
      LeTransitive(v, cu, u);
    } else {
      BetweenPrefixAndWhole(cu, u, v);
    }
  }

  /** It does not extend the outer upper end. */
  lemma NotOuterEnd(key: VarKey, c: VarKey, v: Bytea)
    requires InOrder(key) && InOrder(c) && StandsForEnds(key, c) && Open(c)
    requires c.Upper() <= key.Upper() && key.Upper() <= v
    ensures Stands(key, v)
  {
    hide Le, Common;
    var l, cu := key.Lower(), c.Upper();
    CommonBetween(l, c.Lower(), cu);
    PrefixLe(cu, key.Upper());
    CommonElsewhere(l, cu, key.Upper());
    OpenStands(key, v);
  }

  /** A string reached though not stood for extends an end that goes two bytes past the key's lower end. */
  lemma ReachedByLower(key: VarKey, c: VarKey, v: Bytea)
    requires InOrder(key) && InOrder(c) && StandsForEnds(key, c) && Stands(c, v) && Reaches(key, v) && !Stands(key, v)
    ensures key.Lower() <= v && c.Upper() <= v && c.Upper() <= key.Upper() && |key.Lower()| + 2 <= |c.Upper()|
  {
    hide Le, Common;
    var l, cl, cu := key.Lower(), c.Lower(), c.Upper();
    ExtendsInnerEnd(key, c, v);
    if key.Upper() <= v {
      NotOuterEnd(key, c, v);
    }
    LeTransitive(l, cl, cu);
    PrefixOfExtension(l, cu, v);
    BetweenPrefixAndWhole(l, cl, cu);
    PrefixLe(l, cu);
    CommonBetween(l, cl, cu);
  }

  /** A string that a key reaches below an entry is reached by the key adjusted to any other string. */
  lemma StillReached(key: VarKey, c: VarKey, e: Bytea, v: Bytea)
    requires InOrder(key) && InOrder(c) && StandsForEnds(key, c) && Stands(c, v) && Reaches(key, v)
    ensures Reaches(PageKey([key, LeafKey(e)]), v)
  {
    hide Le, Common, PageKey, Cut, StandsForEnds;
    var l, now := key.Lower(), PageKey([key, LeafKey(e)]);
    var a := Lesser(l, e);
    AdjustedStands(key, e);
    if Stands(key, v) {
      assert Stands([key, LeafKey(e)][0], v);
      StandsIsReached(now, v);
    } else {
      UnionWithString(key, e);
      EndsOfUnion(key, e);
      ReachedByLower(key, c, v);
      PrefixLe(now.Lower(), a);
      LeTransitive(now.Lower(), a, l);
      LeTransitive(now.Lower(), l, v);
      if Lt(e, l) {
        CutWithinEnd(key, c, e);
      }
    }
  }

  lemma CutWithinEnd(key: VarKey, c: VarKey, e: Bytea)
    requires InOrder(key) && Lt(e, key.Lower())
    requires c.Upper() <= key.Upper() && |key.Lower()| + 2 <= |c.Upper()|
    ensures PageKey([key, LeafKey(e)]).Upper() <= c.Upper()
  {
    hide Le, Common, PageKey;
    LeTotal(e, key.Lower());
    LeTransitive(e, key.Lower(), key.Upper());
    UnionWithString(key, e);
    CommonBetween(e, key.Lower(), key.Upper());
  }

  lemma ReachesAfter(key: VarKey, before: seq<VarKey>, e: Bytea, k: VarKey, after: seq<VarKey>)
    requires InOrder(key) && AllInOrder(before) && StandsForAllEnds(key, before) && TakenUp(before, e, k)
    requires ReachesAll(key, before)
    requires forall i :: 0 <= i < |after| ==> after[i] in before || after[i] == k
    ensures ReachesAll(PageKey([key, k]), after)
  {
    hide InOrder, PageKey, Stands, Reaches, StandsForEnds, TakenUp;
    AdjustsAlike(key, before, e, k);
    forall i, v | 0 <= i < |after| && Stands(after[i], v) ensures Reaches(PageKey([key, k]), v) {
      if after[i] == k {
        assert Stands([key, k][1], v);
        StandsIsReached(PageKey([key, k]), v);
      } else {
        var j :| 0 <= j < |before| && before[j] == after[i];
        StillReached(key, before[j], e, v);
      }
    }
  }

  lemma SameTurnsDown(a: VarKey, b: VarKey, entries: seq<VarKey>)
    requires Same(a, b) && TurnsNothingDown(b, entries)
    ensures TurnsNothingDown(a, entries)
  {
    hide Stands, Satisfies;
    forall k, v, query, strategy | 0 <= k < |entries| && Stands(entries[k], v) && Satisfies(v, query, strategy)
      ensures Consistent(a, query, strategy, false)
    {
      assert Consistent(b, query, strategy, false);
    }
  }

  lemma NestedAreKeyed(ts: seq<VarTree>)
    requires AllNested(ts)
    ensures AllKeyed(ts)
  {
    hide Nested, Keyed;
    forall i | 0 <= i < |ts| ensures Keyed(ts[i]) {
      NestedIsKeyed(ts[i]);
    }
  }

  /** Below a key that turns nothing down, an insertion leaves all matches to be found. */
  lemma GrownIsWhole(key: VarKey, ts: seq<VarTree>, path: seq<nat>, e: Bytea)
    requires InOrder(key) && AllNested(ts) && Leads(ts, path)
    requires StandsForAllEnds(key, Keys(ts)) && TurnsNothingDown(key, Keys(ts))
    ensures Whole(Grown(key, ts, path, e))
  {
    hide InOrder, PageKey, AllNested, StandsForAllEnds, TurnsNothingDown, InsertInto, Same, ReachesAll, TakenUp;
    hide FoundAll;
    var page, now := InsertInto(ts, path, LeafKey(e), Adjusted()), Grown(key, ts, path, e);
    InsertKeepsNested(ts, path, e);
    KeysAfter(ts, path, LeafKey(e), Adjusted());
    NestedInOrder(ts);
    if page.up.Some? {
      var k := page.up.value;
      TurnsNothingDownExactly(key, Keys(ts));
      ReachesAfter(key, Keys(ts), e, k, Keys(page.now));
      AdjustsAlike(key, Keys(ts), e, k);
      TurnsNothingDownExactly(PageKey([key, k]), Keys(page.now));
      if Same(key, PageKey([key, k])) {
        SameTurnsDown(key, PageKey([key, k]), Keys(page.now));
      }
    }
    assert TurnsNothingDown(now.key, Keys(page.now));
    NestedAreKeyed(page.now);
    forall query, strategy ensures FoundAll(now, query, strategy) {
      FoundUnderNode(now.key, page.now, query, strategy);
    }
  }

  // ---------- Where it does not ----------

  /** A page that holds one string, below an entry with the given key. */
  function Lone(key: VarKey, v: Bytea): VarTree {
    Node(key, [Node(NodeKey(v, v), [Leaf(LeafKey(v))])])
  }

  lemma PointStandsForItself(v: Bytea, w: Bytea)
    ensures Stands(NodeKey(v, v), w) <==> w == v
  {
    hide Le, Common;
    LeTotal(v, w);
    LeReflexive(v);
    CommonWithSelf(v);
  }

  lemma LoneIsNested(key: VarKey, v: Bytea)
    requires InOrder(key) && Stands(key, v)
    ensures Nested(Lone(key, v))
  {
    hide Le, Stands;
    var page := Node(NodeKey(v, v), [Leaf(LeafKey(v))]);
    LeReflexive(v);
    forall w ensures Stands(NodeKey(v, v), w) <==> w == v {
      PointStandsForItself(v, w);
    }
    forall w | Stands(LeafKey(v), w) ensures w == v {
      LeafStandsForItself(LeafKey(v), w);
    }
    assert StandsForAll(NodeKey(v, v), Keys([Leaf(LeafKey(v))]));
    LeafIsNested(v);
    assert Nested(page);
    assert StandsForAll(key, Keys([page]));
  }

  /** Putting the string in once more changes no key. */
  lemma LoneStays(key: VarKey, v: Bytea)
    ensures Leads(Lone(key, v).children, [0])
    ensures InsertBelow(Lone(key, v), [0], LeafKey(v), Adjusted()).up.None?
  {
    hide Le, PageKey, Stands, CutPast;
    var page := Node(NodeKey(v, v), [Leaf(LeafKey(v))]);
    LeReflexive(v);
    PointStandsForItself(v, v);
    PointIsCut(v);
    UnchangedExactly(NodeKey(v, v), v);
    assert InsertBelow(page, [], LeafKey(v), Adjusted()).up.None?;
  }

  lemma PointIsCut(v: Bytea)
    ensures CutByUnion(NodeKey(v, v))
  {
    CommonWithSelf(v);
  }

  lemma HoldingIsNested(key: VarKey, v: Bytea)
    requires InOrder(key) && Stands(key, v)
    ensures Nested(Holding(key, v)) && Holding(key, v).key == key
  {
    hide Stands, InOrder;
    if key.NodeKey? {
      var ts := [Leaf(LeafKey(key.lo)), Leaf(LeafKey(v))];
      StandsForOwnEnds(key);
      LeafIsNested(key.lo);
      LeafIsNested(v);
      forall k, w | 0 <= k < |ts| && Stands(Keys(ts)[k], w) ensures Stands(key, w) {
        LeafStandsForItself(Keys(ts)[k], w);
      }
    }
  }

  /** Pages with the given keys; the k-th is another tree with its key. */
  function PagesWith(entries: seq<VarKey>, k: nat, t: VarTree): seq<VarTree> {
    seq(|entries|, i requires 0 <= i < |entries| => if i == k then t else Holding(entries[i], entries[i].Upper()))
  }

  lemma PagesAreNested(entries: seq<VarKey>, k: nat, t: VarTree)
    requires AllInOrder(entries) && k < |entries| && Nested(t) && t.key == entries[k]
    ensures AllNested(PagesWith(entries, k, t)) && Keys(PagesWith(entries, k, t)) == entries
  {
    hide InOrder, Nested, Stands;
    forall i | 0 <= i < |entries| ensures Nested(PagesWith(entries, k, t)[i]) {
      StandsForOwnEnds(entries[i]);
      HoldingIsNested(entries[i], entries[i].Upper());
    }
  }

  /** A key that is not adjusted, and does not reach the new string, loses it. */
  lemma LostAfter(key: VarKey, ts: seq<VarTree>, path: seq<nat>, v: Bytea)
    requires InOrder(key) && Leads(ts, path) && !Reaches(key, v)
    requires InsertInto(ts, path, LeafKey(v), Adjusted()).up.None?
    ensures !Whole(Grown(key, ts, path, v)) && !Finds(Grown(key, ts, path, v), v)
  {
    hide Reaches, Consistent, InsertInto, FoundAll, Found, LeafTest, InnerTest, LeavesOf;
    var us := InsertInto(ts, path, LeafKey(v), Adjusted()).now;
    NewLeafIsThere(ts, path, LeafKey(v), Adjusted());
    EqualReaches(key, v);
    LostUnder(key, us, v, v, BT_EQUAL);
  }

  lemma NotReached(key: VarKey, entries: seq<VarKey>) returns (k: nat, v: Bytea)
    requires InOrder(key) && !TurnsNothingDown(key, entries)
    ensures k < |entries| && Stands(entries[k], v) && !Reaches(key, v)
  {
    hide Stands, Reaches, TurnsNothingDown;
    TurnsNothingDownExactly(key, entries);
    var i, w :| 0 <= i < |entries| && Stands(entries[i], w) && !Reaches(key, w);
    k, v := i, w;
  }

  /**
   Below a key that stands for the ends of its entries, all matches and every inserted string
   are found after every insertion exactly when the key turns nothing down that its entries
   stand for.
   */
  lemma InsertionExactly(key: VarKey, entries: seq<VarKey>)
    requires InOrder(key) && AllInOrder(entries) && StandsForAllEnds(key, entries)
    ensures WholeAfter(key, entries) <==> TurnsNothingDown(key, entries)
    ensures FoundAfter(key, entries) <==> TurnsNothingDown(key, entries)
  {
    hide InOrder, StandsForAllEnds, TurnsNothingDown, Whole, Finds, Grown, AllNested, Leads;
    if TurnsNothingDown(key, entries) {
      forall ts: seq<VarTree>, path, e | Keys(ts) == entries && AllNested(ts) && Leads(ts, path)
        ensures Whole(Grown(key, ts, path, e)) && Finds(Grown(key, ts, path, e), e)
      {
        GrownIsWhole(key, ts, path, e);
        WholeFinds(key, ts, path, e);
      }
    } else {
      var k, v := NotReached(key, entries);
      var t := Lone(entries[k], v);
      LoneIsNested(entries[k], v);
      PagesAreNested(entries, k, t);
      LoneStaysOnPage(entries, k, v);
      LostAfter(key, PagesWith(entries, k, t), [k, 0], v);
    }
  }

  lemma LoneStaysOnPage(entries: seq<VarKey>, k: nat, v: Bytea)
    requires k < |entries|
    ensures var ts := PagesWith(entries, k, Lone(entries[k], v));
            Leads(ts, [k, 0]) && InsertInto(ts, [k, 0], LeafKey(v), Adjusted()).up.None?
  {
    hide Adjusted;
    LoneStays(entries[k], v);
    var path: seq<nat> := [k, 0];
    assert path[1..] == [0];
  }

  lemma WholeFinds(key: VarKey, ts: seq<VarTree>, path: seq<nat>, e: Bytea)
    requires Leads(ts, path) && Whole(Grown(key, ts, path, e))
    ensures Finds(Grown(key, ts, path, e), e)
  {
    hide InsertInto, Found, InnerTest, LeavesOf, Matching;
    var us, leaf := InsertInto(ts, path, LeafKey(e), Adjusted()).now, LeafTest(e, BT_EQUAL);
    NewLeafIsThere(ts, path, LeafKey(e), Adjusted());
    assert FoundAll(Grown(key, ts, path, e), e, BT_EQUAL);
    MatchIsMatching(LeavesOf(us), LeafKey(e), leaf);
  }

  lemma {:induction false} MatchIsMatching(keys: seq<VarKey>, k: VarKey, leaf: VarKey -> bool)
    requires k in keys && leaf(k)
    ensures k in Matching(keys, leaf)
  {
    if keys[0] != k {
      MatchIsMatching(keys[1..], k, leaf);
    }
  }

  /** Of entries cut by unions, exactly then does an insertion never lose what could be found before it. */
  lemma InsertionStaysWholeExactly(key: VarKey, entries: seq<VarKey>)
    requires InOrder(key) && AllInOrder(entries) && StandsForAllEnds(key, entries)
    requires forall i :: 0 <= i < |entries| ==> CutByUnion(entries[i])
    ensures StaysWhole(key, entries) <==> TurnsNothingDown(key, entries)
  {
    hide InOrder, TurnsNothingDown, Whole, Grown, Nested, Leads, Stands, Reaches, CutByUnion, Keys, InsertInto, Holding;
    if TurnsNothingDown(key, entries) {
      InsertionExactly(key, entries);
    } else {
      var k, v := NotReached(key, entries);
      InnerEntry(key, entries[k], v);
      var t := Holding(entries[k], entries[k].Upper());
      StandsForOwnEnds(entries[k]);
      HoldingIsNested(entries[k], entries[k].Upper());
      PagesAreNested(entries, k, t);
      HoldingStaysOnPage(entries, k, v);
      EndsAreFound(key, entries, k);
      LostAfter(key, PagesWith(entries, k, t), [k], v);
    }
  }

  /** An entry that stands for a string out of the key's reach is an inner one. */
  lemma InnerEntry(key: VarKey, c: VarKey, v: Bytea)
    requires StandsForEnds(key, c) && Stands(c, v) && !Reaches(key, v)
    ensures c.NodeKey?
  {
    hide Stands, Reaches;
    if c.LeafKey? {
      LeafStandsForItself(c, v);
      StandsIsReached(key, v);
    }
  }

  lemma HoldingStaysOnPage(entries: seq<VarKey>, k: nat, v: Bytea)
    requires k < |entries| && entries[k].NodeKey? && InOrder(entries[k])
    requires CutByUnion(entries[k]) && Stands(entries[k], v)
    ensures var ts := PagesWith(entries, k, Holding(entries[k], entries[k].Upper()));
            Leads(ts, [k]) && InsertInto(ts, [k], LeafKey(v), Adjusted()).up.None?
  {
    hide InOrder, CutByUnion, Stands, PageKey;
    UnchangedExactly(entries[k], v);
    var path: seq<nat> := [k];
    assert path[1..] == [];
    assert InsertBelow(Holding(entries[k], entries[k].Upper()), [], LeafKey(v), Adjusted()).up.None?;
  }

  /** The ends themselves can all be found. */
  lemma EndsAreFound(key: VarKey, entries: seq<VarKey>, k: nat)
    requires InOrder(key) && AllInOrder(entries) && StandsForAllEnds(key, entries) && k < |entries|
    ensures Whole(Node(key, PagesWith(entries, k, Holding(entries[k], entries[k].Upper()))))
  {
    hide InOrder, Stands, FoundAll, AllKeyed;
    var ts := PagesWith(entries, k, Holding(entries[k], entries[k].Upper()));
    StandsForOwnEnds(entries[k]);
    HoldingIsNested(entries[k], entries[k].Upper());
    PagesAreNested(entries, k, ts[k]);
    NestedAreKeyed(ts);
    forall x | x in LeavesOf(ts) ensures x.LeafKey? && Stands(key, x.value) {
      var i := ChildWith(ts, x);
      assert StandsForEnds(key, entries[i]);
      LeavesOfHolding(entries[i], x);
    }
    assert Keyed(Node(key, ts));
    forall query, strategy ensures FoundAll(Node(key, ts), query, strategy) {
      SearchIsExact(Node(key, ts), query, strategy);
    }
  }

  lemma LeavesOfHolding(key: VarKey, x: VarKey)
    requires x in Leaves(Holding(key, key.Upper()))
    ensures x.LeafKey? && (x.value == key.Lower() || x.value == key.Upper())
  {
    if key.NodeKey? {
      LeavesOfTwo(LeafKey(key.lo), LeafKey(key.hi));
    }
  }

  // ---------- Below a half of a split page ----------

  lemma HalfStandsForEnds(entries: seq<VarKey>, n: nat)
    requires LeastFirst(entries) && AllInOrder(entries) && Prefix(entries) + 2 <= n
    ensures InOrder(CutKey(entries, n)) && StandsForAllEnds(CutKey(entries, n), entries)
  {
    hide Le, Common, UnionAll, CutKey, Accounts;
    CutKeyInOrder(entries, n);
    LeastFirstNoneBelow(entries, n);
    forall i | 0 <= i < |entries| ensures StandsForEnds(CutKey(entries, n), entries[i]) {
      LeReflexive(entries[i].Upper());
      StandsForOwnEnds(entries[i]);
      CutKeyAccountsFor(entries, n, i, entries[i].Lower());
      CutKeyAccountsFor(entries, n, i, entries[i].Upper());
      CutUpperReaches(entries, n, i, entries[i].Lower());
      CutUpperReaches(entries, n, i, entries[i].Upper());
    }
  }

  /** Below the key of a half, an insertion is safe exactly when none of its entries is out of reach. */
  lemma HalfInsertionExactly(entries: seq<VarKey>, n: nat)
    requires LeastFirst(entries) && AllInOrder(entries) && Prefix(entries) + 2 <= n
    ensures WholeAfter(CutKey(entries, n), entries) <==> NeverOutOfReach(entries, n)
    ensures FoundAfter(CutKey(entries, n), entries) <==> NeverOutOfReach(entries, n)
    ensures (forall i :: 0 <= i < |entries| ==> CutByUnion(entries[i])) ==>
              (StaysWhole(CutKey(entries, n), entries) <==> NeverOutOfReach(entries, n))
  {
    hide WholeAfter, FoundAfter, StaysWhole, NeverOutOfReach, TurnsNothingDown, CutKey, StandsForAllEnds, CutByUnion;
    HalfStandsForEnds(entries, n);
    HalfTurnsNothingDownExactly(entries, n);
    InsertionExactly(CutKey(entries, n), entries);
    if forall i :: 0 <= i < |entries| ==> CutByUnion(entries[i]) {
      InsertionStaysWholeExactly(CutKey(entries, n), entries);
    }
  }

  // ---------- An insertion that loses a match ----------

  lemma StringsOfTheInsertion()
    ensures Le([FIVE], [FIVE]) && Le([FIVE], [A, B, A]) && Le([FIVE], [A, B, C])
    ensures Le([FIVE], [A, B, C]) && Le([A, B, A], [A, B, C]) && Le([A, B, C], [A, B, C])
    ensures Common([FIVE], [A, B, A]) == 0 && Common([FIVE], [A, B]) == 0 && Common([A, B], [A, B, Z]) == 2
  {
    LeReflexive([A, B, C]);
    Behind(A, [B, A], [B, C]);
    Behind(B, [A], [C]);
    assert [A] + [B, A] == [A, B, A] && [A] + [B, C] == [A, B, C] && [B] + [A] == [B, A] && [B] + [C] == [B, C];
    PrefixLe([A, B], [A, B, Z]);
  }

  lemma KeyOfTheInsertion()
    ensures PageOf([FIVE], [A, B, A]).key == NodeKey([FIVE], [A, B])
    ensures CutByUnion(NodeKey([FIVE], [A, B])) && Stands(NodeKey([FIVE], [A, B]), [A, B, Z])
    ensures InOrder(NodeKey([FIVE], [A, B]))
  {
    hide Le, Common, PageKey;
    StringsOfTheExample();
    StringsOfTheInsertion();
    KeyOfTwo([FIVE], [A, B, A]);
  }

  lemma PageOfIsNested(x: Bytea, y: Bytea)
    ensures Nested(PageOf(x, y)) && LeavesOf(PageOf(x, y).children) == [LeafKey(x), LeafKey(y)]
  {
    hide PageKey, NoLowerEndLost;
    var ts := [Leaf(LeafKey(x)), Leaf(LeafKey(y))];
    LeafIsNested(x);
    LeafIsNested(y);
    assert Keys(ts) == [LeafKey(x), LeafKey(y)];
    LeafPageMovesOneEnd(Keys(ts));
    OneEndIsEnough(Keys(ts));
    NestedByUnionExactly(ts);
    LeavesOfTwo(LeafKey(x), LeafKey(y));
  }

  /** The left half of the example, before the insertion. */
  function LeftHalf(): seq<VarTree> {
    [PageOf([FIVE], [A, B, A]), PageOf([A, A], [A, B, C])]
  }

  lemma LeftHalfIsNested()
    ensures AllNested(LeftHalf()) && Keys(LeftHalf()) == [NodeKey([FIVE], [A, B]), NodeKey([A, A], [A, B, C])]
    ensures forall k :: k in LeavesOf(LeftHalf()) ==>
              k in [LeafKey([FIVE]), LeafKey([A, B, A]), LeafKey([A, A]), LeafKey([A, B, C])]
  {
    hide PageOf, Nested;
    KeysOfTheExample();
    KeyOfTheInsertion();
    PageOfIsNested([FIVE], [A, B, A]);
    PageOfIsNested([A, A], [A, B, C]);
    forall k | k in LeavesOf(LeftHalf())
      ensures k in [LeafKey([FIVE]), LeafKey([A, B, A]), LeafKey([A, A]), LeafKey([A, B, C])]
    {
      var i := ChildWith(LeftHalf(), k);
      LeavesOfPageOf([FIVE], [A, B, A]);
      LeavesOfPageOf([A, A], [A, B, C]);
    }
  }

  lemma LeavesOfPageOf(x: Bytea, y: Bytea)
    ensures Leaves(PageOf(x, y)) == [LeafKey(x), LeafKey(y)]
  {
    LeavesOfTwo(LeafKey(x), LeafKey(y));
  }

  lemma BetweenStands(key: VarKey, v: Bytea)
    requires Le(key.Lower(), v) && Le(v, key.Upper())
    ensures Stands(key, v)
  {
  }

  lemma LeftHalfIsKeyed()
    ensures Keyed(Node(LEFT_KEY, LeftHalf()))
  {
    hide Le, Stands, LeftHalf, AllKeyed;
    var key := NodeKey([FIVE], [A, B, C]);
    LeftHalfIsNested();
    NestedAreKeyed(LeftHalf());
    StringsOfTheExample();
    StringsOfTheInsertion();
    BetweenStands(key, [FIVE]);
    BetweenStands(key, [A, B, A]);
    BetweenStands(key, [A, A]);
    BetweenStands(key, [A, B, C]);
    forall k | k in LeavesOf(LeftHalf()) ensures k.LeafKey? && Stands(key, k.value) {
    }
  }

  /** The walk stops at the first page's key, "5" to "ab", which stands for "abz". */
  lemma LeftHalfStays()
    ensures Leads(LeftHalf(), [0]) && InsertInto(LeftHalf(), [0], LeafKey([A, B, Z]), Adjusted()).up.None?
  {
    hide PageKey, Stands, InOrder, CutByUnion;
    KeyOfTheInsertion();
    UnchangedExactly(NodeKey([FIVE], [A, B]), [A, B, Z]);
    var path: seq<nat> := [0];
    assert path[1..] == [];
    assert InsertBelow(LeftHalf()[0], [], LeafKey([A, B, Z]), Adjusted()).up.None?;
  }

  const LEFT_KEY := NodeKey([FIVE], [A, B, C])

  /** The split cuts at three bytes. */
  lemma SplitOfTheInsertion()
    ensures var r := [PageOf([B, A], [B, B]), PageOf([B, A], [B, B])];
            && AllNested(LeftHalf()) && AllNested(r)
            && CutLength(Keys(LeftHalf()), Keys(r)) == 3 && CutKey(Keys(LeftHalf()), 3) == LEFT_KEY
    ensures !Consistent(LEFT_KEY, [A, B, Z], BT_EQUAL, false)
  {
    hide PageOf, Nested, Consistent, LeftHalf, CutLength, OneEndAtATime, Tight, KeyLe, InOrder, UnionAll;
    var r := [PageOf([B, A], [B, B]), PageOf([B, A], [B, B])];
    LeftHalfIsNested();
    PageOfIsNested([B, A], [B, B]);
    KeysOfTheExample();
    assert Keys(r) == [NodeKey([B, A], [B, B]), NodeKey([B, A], [B, B])];
    SplitOfTheExample();
    UnionsOfTheExample();
  }

  /**
   Leaf pages "5", "aba" and "aa", "abc" on the left and "ba", "bb" twice on the right.  All
   searches under the left half's key, "5" to "abc", are exact.  Inserting "abz" below the first
   page changes no key, and a search for it then finds nothing.
   */
  lemma InsertionLosesAMatch()
    ensures var r := [PageOf([B, A], [B, B]), PageOf([B, A], [B, B])];
            && AllNested(LeftHalf()) && AllNested(r)
            && CutLength(Keys(LeftHalf()), Keys(r)) == 3 && CutKey(Keys(LeftHalf()), 3) == LEFT_KEY
    ensures Keyed(Node(LEFT_KEY, LeftHalf())) && Whole(Node(LEFT_KEY, LeftHalf())) && Leads(LeftHalf(), [0])
    ensures var t := Grown(LEFT_KEY, LeftHalf(), [0], [A, B, Z]);
            && t.key == LEFT_KEY && LeafKey([A, B, Z]) in Leaves(t)
            && Found(t, LeafTest([A, B, Z], BT_EQUAL), InnerTest([A, B, Z], BT_EQUAL)) == []
  {
    hide PageOf, Keyed, AllNested, LeafTest, InnerTest, Found, Consistent, LeftHalf, InsertInto, FoundAll;
    hide CutKey, CutLength, Leads, LeavesOf;
    SplitOfTheInsertion();
    LeftHalfIsKeyed();
    forall query, strategy ensures FoundAll(Node(LEFT_KEY, LeftHalf()), query, strategy) {
      SearchIsExact(Node(LEFT_KEY, LeftHalf()), query, strategy);
    }
    LeftHalfStays();
    var us := InsertInto(LeftHalf(), [0], LeafKey([A, B, Z]), Adjusted()).now;
    NewLeafIsThere(LeftHalf(), [0], LeafKey([A, B, Z]), Adjusted());
    LostUnder(LEFT_KEY, us, [A, B, Z], [A, B, Z], BT_EQUAL);
  }
}
