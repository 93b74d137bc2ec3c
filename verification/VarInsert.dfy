/**
 Inserting into an index of byte strings.  The walk up the tree takes the adjusted key of a page
 to the page above and stops at the first key that does not change.  A key that stands for a
 string does not change, so the keys further up never hear of it.
 */
module VarInsert {
  import opened Bytes
  import opened ByteStrings
  import opened Gist
  import opened VarKeys
  import opened VarSearch
  import opened VarSplit

  // ---------- Adjusting a key ----------

  /** gbt_var_same */
  predicate Same(a: VarKey, b: VarKey) {
    a.Lower() == b.Lower() && a.Upper() == b.Upper()
  }

  /** gistgetadjusted: the union of the two keys, unless that is the same as the old key */
  function Adjusted(): (VarKey, VarKey) -> Option<VarKey> {
    (key, e) => if Same(key, PageKey([key, e])) then None else Some(PageKey([key, e]))
  }

  /** A range cut as gbt_var_union cuts it. */
  function CutPast(lo: Bytea, hi: Bytea): VarKey {
    NodeKey(Cut(lo, Common(lo, hi) + 2), Cut(hi, Common(lo, hi) + 2))
  }

  /** What a cut range is cut from matters only as far as it goes. */
  lemma SameCuts(lo: Bytea, hi: Bytea, lo': Bytea, hi': Bytea)
    requires var n := Common(lo, hi) + 2; Cut(lo, n) == Cut(lo', n) && Cut(hi, n) == Cut(hi', n)
    ensures CutPast(lo, hi) == CutPast(lo', hi')
  {
    hide Common, Cut;
    CommonOfCuts(lo, hi, Common(lo, hi) + 2);
    CommonOfCuts(lo', hi', Common(lo, hi) + 2);
  }

  lemma UnionOfTwo(p: VarKey, x: VarKey)
    ensures var upper := Greater(p.Upper(), x.Upper());
            var lower := if Lt(p.Upper(), x.Upper()) then p.Lower() else Lesser(p.Lower(), x.Lower());
            PageKey([p, x]) == CutPast(lower, upper)
  {
    hide Le, Common, Cut;
    var es := [p, x];
    assert es[..1] == [p];
    assert UnionAll(es[..1]) == NodeKey(p.Lower(), p.Upper());
    assert UnionAll(es) == BinUnion(UnionAll(es[..1]), es[1]);
  }

  /** With a single string, both ends never move. */
  lemma UnionWithString(p: VarKey, e: Bytea)
    requires InOrder(p)
    ensures PageKey([p, LeafKey(e)]) == CutPast(Lesser(p.Lower(), e), Greater(p.Upper(), e))
  {
    hide Le, PageKey, CutPast;
    UnionOfTwo(p, LeafKey(e));
    PointMovesOneEnd(p, LeafKey(e));
    LeTotal(p.Upper(), e);
    if Lt(p.Upper(), e) {
      LeTransitive(p.Lower(), p.Upper(), e);
    }
  }

  lemma EndsOfUnion(p: VarKey, e: Bytea)
    requires InOrder(p)
    ensures var a, z := Lesser(p.Lower(), e), Greater(p.Upper(), e);
            Le(a, p.Lower()) && Le(a, e) && Le(p.Upper(), z) && Le(e, z) && Le(a, z)
  {
    hide Le;
    LeTotal(p.Lower(), e);
    LeTotal(p.Upper(), e);
    LeReflexive(p.Lower());
    LeReflexive(p.Upper());
    LeReflexive(e);
    if Lt(e, p.Lower()) {
      LeTransitive(e, p.Lower(), p.Upper());
    }
  }

  // ---------- A key that is taken up ----------

  /** The key stands for both ends of the other. */
  predicate StandsForEnds(p: VarKey, c: VarKey) {
    Stands(p, c.Lower()) && Stands(p, c.Upper())
  }

  lemma Narrower(a: Bytea, b: Bytea, y: Bytea, z: Bytea)
    requires Le(a, b) && Le(b, y) && Le(y, z)
    ensures Common(a, z) <= Common(b, y)
  {
    hide Le, Common;
    LeTransitive(b, y, z);
    CommonBetween(a, b, z);
    CommonBetween(b, y, z);
  }

  /** An end that is passed is passed by an extension, past where any wider range is cut. */
  lemma PassedByExtension(p: VarKey, c: VarKey, e: Bytea)
    requires InOrder(p) && StandsForEnds(p, c) && !Le(c.Upper(), p.Upper())
    ensures var n := Common(Lesser(p.Lower(), e), Greater(p.Upper(), e)) + 2;
            p.Upper() <= c.Upper() && n <= |p.Upper()|
  {
    hide Le, Common;
    EndsOfUnion(p, e);
    Narrower(Lesser(p.Lower(), e), p.Lower(), p.Upper(), Greater(p.Upper(), e));
  }

  /** The union with the outer key is cut no later than that with the inner one. */
  lemma CutNoLater(p: VarKey, c: VarKey, e: Bytea)
    requires InOrder(p) && InOrder(c) && StandsForEnds(p, c)
    ensures Common(Lesser(p.Lower(), e), Greater(p.Upper(), e)) <= Common(Lesser(c.Lower(), e), Greater(c.Upper(), e))
    ensures Le(Lesser(p.Lower(), e), Lesser(c.Lower(), e))
  {
    hide Le, Common;
    var a, z := Lesser(p.Lower(), e), Greater(p.Upper(), e);
    var b, y := Lesser(c.Lower(), e), Greater(c.Upper(), e);
    EndsOfUnion(p, e);
    EndsOfUnion(c, e);
    LeTransitive(a, p.Lower(), c.Lower());
    assert Le(a, b);
    LeTotal(y, z);
    if Le(y, z) {
      Narrower(a, b, y, z);
    } else {
      assert y == c.Upper();
      if Le(c.Upper(), p.Upper()) {
        LeTransitive(c.Upper(), p.Upper(), z);
      }
      PassedByExtension(p, c, e);
      BetweenPrefixAndWhole(p.Upper(), z, y);
      PrefixLe(p.Upper(), z);
      PrefixLe(p.Upper(), y);
      CommonBetween(p.Upper(), z, y);
      CommonElsewhere(a, z, y);
      CommonBetween(a, b, y);
    }
  }

  /** Below the lower end, the key that is taken up does not pass the upper end. */
  lemma NotBothEnds(p: VarKey, c: VarKey, e: Bytea)
    requires InOrder(p) && InOrder(c) && StandsForEnds(p, c) && Lt(e, p.Lower())
    ensures Le(PageKey([c, LeafKey(e)]).Upper(), p.Upper())
  {
    hide Le, Common, Cut, PageKey;
    var k := PageKey([c, LeafKey(e)]);
    UnionWithString(c, e);
    LeTotal(e, p.Lower());
    LeTransitive(e, p.Lower(), c.Lower());
    LeTransitive(e, c.Lower(), c.Upper());
    LeTransitive(e, p.Lower(), p.Upper());
    LeTotal(e, c.Lower());
    LeTotal(e, c.Upper());
    assert Greater(c.Upper(), e) == c.Upper() && Greater(p.Upper(), e) == p.Upper();
    assert Lesser(c.Lower(), e) == e && Lesser(p.Lower(), e) == e;
    PrefixLe(k.Upper(), c.Upper());
    if Le(c.Upper(), p.Upper()) {
      LeTransitive(k.Upper(), c.Upper(), p.Upper());
    } else {
      PassedByExtension(p, c, e);
      PrefixLe(p.Upper(), c.Upper());
      CommonElsewhere(e, p.Upper(), c.Upper());
      assert k.Upper() <= p.Upper();
      PrefixLe(k.Upper(), p.Upper());
    }
  }

  /** The upper ends agree as far as the union is cut. */
  lemma UppersAgree(p: VarKey, c: VarKey, e: Bytea, n: nat)
    requires InOrder(p) && StandsForEnds(p, c) && n == Common(Lesser(p.Lower(), e), Greater(p.Upper(), e)) + 2
    ensures Cut(Greater(p.Upper(), Greater(c.Upper(), e)), n) == Cut(Greater(p.Upper(), e), n)
  {
    hide Le, Common, Stands;
    var pu, cu := p.Upper(), c.Upper();
    if Le(cu, pu) {
      GreatestOfThree(pu, cu, e);
    } else {
      PassedByExtension(p, c, e);
      assert Cut(cu, n) == Cut(pu, n);
      hide Cut;
      CutOfGreater(pu, Greater(cu, e), n);
      CutOfGreater(cu, e, n);
      CutOfGreater(pu, e, n);
    }
  }

  lemma GreatestOfThree(x: Bytea, y: Bytea, z: Bytea)
    requires Le(y, x)
    ensures Greater(x, Greater(y, z)) == Greater(x, z)
  {
    hide Le;
    LeTotal(x, y);
    LeTotal(y, z);
    LeTotal(x, z);
    if Le(z, y) {
      LeTransitive(z, y, x);
    }
  }

  lemma LeastOfThree(x: Bytea, y: Bytea, z: Bytea)
    requires Le(x, y)
    ensures Lesser(x, Lesser(y, z)) == Lesser(x, z)
  {
    hide Le;
    LeTotal(x, y);
    LeTotal(y, z);
    LeTotal(x, z);
    if Le(y, z) {
      LeTransitive(x, y, z);
    }
  }

  /**
   Taking up the adjusted key of a page comes to the same as taking up the new string, as long
   as the key above stands for both ends of the page's old key.
   */
  lemma TakenUpAlike(p: VarKey, c: VarKey, e: Bytea)
    requires InOrder(p) && InOrder(c) && StandsForEnds(p, c)
    ensures PageKey([p, PageKey([c, LeafKey(e)])]) == PageKey([p, LeafKey(e)])
  {
    hide Le, Common, Cut, PageKey;
    var a, z := Lesser(p.Lower(), e), Greater(p.Upper(), e);
    var b, y := Lesser(c.Lower(), e), Greater(c.Upper(), e);
    var k, m, n := PageKey([c, LeafKey(e)]), Common(b, y) + 2, Common(a, z) + 2;
    UnionWithString(p, e);
    UnionWithString(c, e);
    CutNoLater(p, c, e);
    UnionOfTwo(p, k);
    CutOfCut(y, n, m);
    CutOfCut(b, n, m);
    assert Cut(Greater(p.Upper(), k.Upper()), n) == Cut(z, n) by {
      UppersAgree(p, c, e, n);
      CutOfGreater(p.Upper(), k.Upper(), n);
      CutOfGreater(p.Upper(), y, n);
    }
    if Lt(p.Upper(), k.Upper()) {
      if Lt(e, p.Lower()) {
        NotBothEnds(p, c, e);
      }
      SameCuts(a, z, p.Lower(), Greater(p.Upper(), k.Upper()));
    } else {
      LowersAgree(p, c, e, m, n);
      SameCuts(a, z, Lesser(p.Lower(), k.Lower()), Greater(p.Upper(), k.Upper()));
    }
  }

  lemma LowersAgree(p: VarKey, c: VarKey, e: Bytea, m: nat, n: nat)
    requires Le(p.Lower(), c.Lower()) && n <= m
    ensures Cut(Lesser(p.Lower(), Cut(Lesser(c.Lower(), e), m)), n) == Cut(Lesser(p.Lower(), e), n)
  {
    hide Le, Cut;
    var b := Lesser(c.Lower(), e);
    CutOfCut(b, n, m);
    CutOfLesser(p.Lower(), Cut(b, m), n);
    CutOfLesser(p.Lower(), b, n);
    LeastOfThree(p.Lower(), c.Lower(), e);
  }

  /** The union of two keys stands for all that either stands for, if its lower end is below both. */
  lemma UnionStandsForTwo(p: VarKey, x: VarKey)
    requires InOrder(p) && InOrder(x)
    requires Le(PageKey([p, x]).Lower(), p.Lower()) && Le(PageKey([p, x]).Lower(), x.Lower())
    ensures InOrder(PageKey([p, x])) && StandsForAll(PageKey([p, x]), [p, x])
  {
    hide Le, PageKey, StandsForAll, NoLowerEndLost;
    NoLowerEndLostExactly([p, x]);
    UnionStandsForAll([p, x]);
  }

  /** The adjusted key stands for all that the old one stood for, and for the new string. */
  lemma AdjustedStands(p: VarKey, e: Bytea)
    requires InOrder(p)
    ensures InOrder(PageKey([p, LeafKey(e)])) && StandsForAll(PageKey([p, LeafKey(e)]), [p, LeafKey(e)])
    ensures Stands(PageKey([p, LeafKey(e)]), e)
  {
    hide Le, Common, Cut, PageKey, Stands;
    var key, a := PageKey([p, LeafKey(e)]), Lesser(p.Lower(), e);
    UnionWithString(p, e);
    EndsOfUnion(p, e);
    PrefixLe(key.Lower(), a);
    LeTransitive(key.Lower(), a, p.Lower());
    LeTransitive(key.Lower(), a, e);
    LeReflexive(e);
    UnionStandsForTwo(p, LeafKey(e));
    StandsForOwnEnds(LeafKey(e));
    assert Stands([p, LeafKey(e)][1], e);
  }

  /** So does a key adjusted to the key that is taken up. */
  lemma TakenUpStands(p: VarKey, c: VarKey, e: Bytea)
    requires InOrder(p) && InOrder(c) && StandsForEnds(p, c)
    ensures var k := PageKey([c, LeafKey(e)]); InOrder(k) && StandsForAll(PageKey([p, k]), [p, k])
  {
    hide Le, Common, Cut, PageKey, Stands, StandsForEnds;
    var a, b := Lesser(p.Lower(), e), Lesser(c.Lower(), e);
    var k, key := PageKey([c, LeafKey(e)]), PageKey([p, LeafKey(e)]);
    var m, n := Common(b, Greater(c.Upper(), e)) + 2, Common(a, Greater(p.Upper(), e)) + 2;
    UnionWithString(p, e);
    UnionWithString(c, e);
    EndsOfUnion(p, e);
    PrefixLe(key.Lower(), a);
    LeTransitive(key.Lower(), a, p.Lower());
    CutNoLater(p, c, e);
    CutMonotone(a, b, n);
    CutOfCut(b, n, m);
    PrefixLe(Cut(b, n), k.Lower());
    LeTransitive(key.Lower(), Cut(b, n), k.Lower());
    TakenUpAlike(p, c, e);
    AdjustedStands(c, e);
    UnionStandsForTwo(p, k);
  }

  // ---------- Nested trees ----------

  lemma StandsIsReached(key: VarKey, v: Bytea)
    requires Stands(key, v)
    ensures Reaches(key, v)
  {
  }

  ghost predicate StandsForAllEnds(key: VarKey, entries: seq<VarKey>) {
    forall i :: 0 <= i < |entries| ==> StandsForEnds(key, entries[i])
  }

  /** The key taken up from a page with these entries when the string was inserted below it. */
  ghost predicate TakenUp(entries: seq<VarKey>, e: Bytea, k: VarKey) {
    k == LeafKey(e) || exists i :: 0 <= i < |entries| && k == PageKey([entries[i], LeafKey(e)])
  }

  lemma AdjustsAlike(key: VarKey, entries: seq<VarKey>, e: Bytea, k: VarKey)
    requires InOrder(key) && AllInOrder(entries) && StandsForAllEnds(key, entries) && TakenUp(entries, e, k)
    ensures PageKey([key, k]) == PageKey([key, LeafKey(e)]) && InOrder(PageKey([key, k]))
    ensures StandsForAll(PageKey([key, k]), [key, k])
  {
    hide InOrder, PageKey, StandsForAll, StandsForEnds;
    AdjustedStands(key, e);
    if k != LeafKey(e) {
      var i :| 0 <= i < |entries| && k == PageKey([entries[i], LeafKey(e)]);
      TakenUpAlike(key, entries[i], e);
      TakenUpStands(key, entries[i], e);
    }
  }

  /** Leaf keys are single strings, and every inner key stands for all that the keys right below it stand for. */
  ghost predicate Nested(t: VarTree) {
    match t
    case Leaf(key) => key.LeafKey?
    case Node(key, ts) => InOrder(key) && StandsForAll(key, Keys(ts)) && AllNested(ts)
  }

  ghost predicate AllNested(ts: seq<VarTree>) {
    forall i :: 0 <= i < |ts| ==> Nested(ts[i])
  }

  lemma NestedInOrder(ts: seq<VarTree>)
    requires AllNested(ts)
    ensures AllInOrder(Keys(ts))
  {
    hide Le, StandsForAll;
    forall i | 0 <= i < |ts| ensures InOrder(Keys(ts)[i]) {
      assert Nested(ts[i]);
      if ts[i].Leaf? {
        LeReflexive(ts[i].key.value);
      }
    }
  }

  /** A nested tree is properly keyed, and so every search in it is exact. */
  lemma {:induction false} NestedIsKeyed(t: VarTree)
    requires Nested(t)
    ensures Keyed(t)
  {
    hide StandsForAll, InOrder;
    if t.Node? {
      forall i | 0 <= i < |t.children| ensures Keyed(t.children[i]) {
        NestedIsKeyed(t.children[i]);
      }
      StandingKeysThePage(t.key, t.children);
    }
  }

  lemma StandsForTheirEnds(key: VarKey, entries: seq<VarKey>)
    requires AllInOrder(entries) && StandsForAll(key, entries)
    ensures StandsForAllEnds(key, entries)
  {
    hide InOrder, Stands;
    forall i | 0 <= i < |entries| ensures StandsForEnds(key, entries[i]) {
      StandsForOwnEnds(entries[i]);
    }
  }

  /** A page keyed by gbt_var_union is nested exactly when no lower end is lost. */
  lemma NestedByUnionExactly(ts: seq<VarTree>)
    requires ts != [] && AllNested(ts)
    ensures Nested(Node(PageKey(Keys(ts)), ts)) <==> NoLowerEndLost(Keys(ts))
  {
    hide PageKey, NoLowerEndLost, Le, Stands;
    var key, entries := PageKey(Keys(ts)), Keys(ts);
    NestedInOrder(ts);
    NoLowerEndLostExactly(entries);
    if NoLowerEndLost(entries) {
      UnionStandsForAll(entries);
    }
    if StandsForAll(key, entries) {
      StandsForTheirEnds(key, entries);
      forall k | 0 <= k < |entries| ensures Le(key.Lower(), entries[k].Lower()) {
        StandsIsReached(key, entries[k].Lower());
        assert StandsForEnds(key, entries[k]);
      }
    }
  }

  /** A half of a split page is nested exactly when no entry is overtaken. */
  lemma NestedByHalfExactly(ts: seq<VarTree>, n: nat)
    requires AllNested(ts) && LeastFirst(Keys(ts)) && Prefix(Keys(ts)) + 2 <= n
    ensures Nested(Node(CutKey(Keys(ts), n), ts)) <==> NeverOvertaken(Keys(ts), n)
  {
    hide CutKey, NeverOvertaken, StandsForAll, AllNested, Prefix, Le;
    NestedInOrder(ts);
    CutKeyInOrder(Keys(ts), n);
    HalfStandsExactly(Keys(ts), n);
  }

  // ---------- Insertion keeps trees nested ----------

  /** An insertion into a page of nested entries, wherever below it, leaves all of them nested. */
  lemma {:induction false} InsertKeepsNested(ts: seq<VarTree>, path: seq<nat>, e: Bytea)
    requires AllNested(ts) && Leads(ts, path)
    ensures var page := InsertInto(ts, path, LeafKey(e), Adjusted());
            AllNested(page.now) && (page.up.Some? ==> TakenUp(Keys(ts), e, page.up.value))
    decreases |path|
  {
    hide Nested, PageKey;
    if path == [] {
      LeafIsNested(e);
    } else {
      var t := ts[path[0]];
      NestedEntry(t);
      InsertKeepsNested(t.children, path[1..], e);
      EntryStaysNested(t, path[1..], e);
      assert Keys(ts)[path[0]] == t.key;
    }
  }

  lemma LeafIsNested(e: Bytea)
    ensures Nested(Leaf(LeafKey(e)))
  {
  }

  lemma NestedEntry(t: VarTree)
    requires Nested(t)
    ensures t.Node? ==> InOrder(t.key) && StandsForAll(t.key, Keys(t.children)) && AllNested(t.children)
  {
  }

  /** A key that stands for an old key and a new one stands for a page of what the old one stood for and the new. */
  lemma OverPage(now: VarKey, key: VarKey, k: VarKey, before: seq<VarKey>, after: seq<VarKey>)
    requires StandsForAll(now, [key, k]) && StandsForAll(key, before)
    requires forall i :: 0 <= i < |after| ==> after[i] in before || after[i] == k
    ensures StandsForAll(now, after)
  {
    hide Stands;
    forall i, v | 0 <= i < |after| && Stands(after[i], v) ensures Stands(now, v) {
      if after[i] == k {
        assert Stands([key, k][1], v);
      } else {
        var j :| 0 <= j < |before| && before[j] == after[i];
        assert Stands([key, k][0], v);
      }
    }
  }

  lemma SameStands(a: VarKey, b: VarKey, entries: seq<VarKey>)
    requires Same(a, b) && StandsForAll(b, entries)
    ensures StandsForAll(a, entries)
  {
    forall k, v | 0 <= k < |entries| && Stands(entries[k], v) ensures Stands(a, v) {
      assert Stands(b, v);
    }
  }

  lemma EntryStaysNested(t: VarTree, path: seq<nat>, e: Bytea)
    requires Nested(t) && t.Node? && Leads(t.children, path)
    requires var page := InsertInto(t.children, path, LeafKey(e), Adjusted());
             AllNested(page.now) && (page.up.Some? ==> TakenUp(Keys(t.children), e, page.up.value))
    ensures var entry := InsertBelow(t, path, LeafKey(e), Adjusted());
            Nested(entry.now) && (entry.up.Some? ==> entry.up.value == PageKey([t.key, LeafKey(e)]))
  {
    hide StandsForAll, InOrder, PageKey, InsertInto, AllNested, TakenUp, Same;
    var page := InsertInto(t.children, path, LeafKey(e), Adjusted());
    KeysAfter(t.children, path, LeafKey(e), Adjusted());
    if page.up.Some? {
      var k := page.up.value;
      var union := PageKey([t.key, k]);
      NestedInOrder(t.children);
      StandsForTheirEnds(t.key, Keys(t.children));
      AdjustsAlike(t.key, Keys(t.children), e, k);
      OverPage(union, t.key, k, Keys(t.children), Keys(page.now));
      if Same(t.key, union) {
        SameStands(t.key, union, Keys(page.now));
      }
    }
  }

  // ---------- Runs of insertions ----------

  datatype Insertion = Insertion(path: seq<nat>, value: Bytea)

  /** Each insertion finds its page in the tree that the ones before it have left. */
  ghost predicate CanRun(ts: seq<VarTree>, run: seq<Insertion>)
    decreases |run|
  {
    run == [] || (Leads(ts, run[0].path) && CanRun(After(ts, run[0]), run[1..]))
  }

  ghost function After(ts: seq<VarTree>, i: Insertion): seq<VarTree>
    requires Leads(ts, i.path)
  {
    InsertInto(ts, i.path, LeafKey(i.value), Adjusted()).now
  }

  ghost function AfterRun(ts: seq<VarTree>, run: seq<Insertion>): seq<VarTree>
    requires CanRun(ts, run)
    decreases |run|
  {
    if run == [] then ts else AfterRun(After(ts, run[0]), run[1..])
  }

  ghost function Values(run: seq<Insertion>): multiset<VarKey> {
    if run == [] then multiset{} else multiset{LeafKey(run[0].value)} + Values(run[1..])
  }

  /** After any run of insertions into a nested tree, a search finds exactly its matches among all that was put in. */
  lemma {:induction false} RunStaysExact(ts: seq<VarTree>, run: seq<Insertion>, query: Bytea, strategy: int)
    requires AllNested(ts) && CanRun(ts, run)
    ensures var us := AfterRun(ts, run);
            && AllNested(us) && multiset(LeavesOf(us)) == multiset(LeavesOf(ts)) + Values(run)
            && FoundOn(us, LeafTest(query, strategy), InnerTest(query, strategy))
            == Matching(LeavesOf(us), LeafTest(query, strategy))
    decreases |run|
  {
    hide Nested, InsertInto, LeafTest, InnerTest, FoundOn, Matching, LeavesOf;
    if run == [] {
      NestedPageIsExact(ts, query, strategy);
    } else {
      InsertKeepsNested(ts, run[0].path, run[0].value);
      InsertAddsOne(ts, run[0].path, LeafKey(run[0].value), Adjusted());
      RunStaysExact(After(ts, run[0]), run[1..], query, strategy);
    }
  }

  lemma NestedPageIsExact(ts: seq<VarTree>, query: Bytea, strategy: int)
    requires AllNested(ts)
    ensures FoundOn(ts, LeafTest(query, strategy), InnerTest(query, strategy))
         == Matching(LeavesOf(ts), LeafTest(query, strategy))
  {
    hide Nested, LeafTest, InnerTest, Keyed;
    var leaf, inner := LeafTest(query, strategy), InnerTest(query, strategy);
    forall i | 0 <= i < |ts| ensures NothingLost(ts[i], leaf, inner) {
      NestedIsKeyed(ts[i]);
      SearchIsExact(ts[i], query, strategy);
      FoundExactly(ts[i], leaf, inner);
    }
    FoundOnExactly(ts, leaf, inner);
  }
}
