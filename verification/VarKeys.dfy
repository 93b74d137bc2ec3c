/**
 The keys of the variable-width operator class of btree_gist for bytea (btree_utils_var.c).
 The key of an inner page is a range whose ends are cut to two bytes past their common prefix,
 so it stands for more than the strings between its ends.
 */
module VarKeys {
  import opened ByteStrings
  import opened Integers

  /** A leaf key stores one string; a node key stores two. */
  datatype VarKey = LeafKey(value: Bytea) | NodeKey(lo: Bytea, hi: Bytea) {
    /** gbt_var_key_readable */
    function Lower(): Bytea {
      if LeafKey? then value else lo
    }

    function Upper(): Bytea {
      if LeafKey? then value else hi
    }
  }

  // ---------- Common prefixes and cutting ----------

  /** gbt_var_node_cp_len for single-byte characters */
  method NodeCpLen(key: VarKey) returns (i: nat)
    ensures i == Common(key.Lower(), key.Upper())
  {
    var p1, p2 := key.Lower(), key.Upper();
    var ml := Min(|p1|, |p2|);
    i := 0;
    while i < ml
      invariant i <= ml
      invariant Common(p1, p2) == i + Common(p1[i..], p2[i..])
    {
      if p1[i] != p2[i] {
        return;
      }
      assert p1[i..][1..] == p1[i + 1..] && p2[i..][1..] == p2[i + 1..];
      i := i + 1;
    }
  }

  /** gbt_bytea_pf_match for single-byte characters */
  method PfMatch(pf: Bytea, query: Bytea) returns (out: bool)
    ensures out <==> pf <= query
  {
    out := false;
    if |pf| <= |query| {
      out := true;
      for k := 0 to |pf|
        invariant pf[..k] == query[..k]
      {
        if pf[k] != query[k] {
          return false;
        }
      }
    }
  }

  /** gbt_var_node_truncate, which keeps one byte more than it is asked for */
  function Truncate(key: VarKey, cpfLength: nat): VarKey {
    NodeKey(Cut(key.Lower(), cpfLength + 1), Cut(key.Upper(), cpfLength + 1))
  }

  // ---------- Union ----------

  /** Both ends of the union would have to move to take e in. */
  predicate WidensBothEnds(u: VarKey, e: VarKey) {
    Lt(e.Lower(), u.Lower()) && Lt(u.Upper(), e.Upper())
  }

  /** gbt_var_bin_union into an existing union; the second rebuilding starts from the old lower end */
  function BinUnion(u: VarKey, e: VarKey): VarKey {
    var nk := if Lt(e.Lower(), u.Lower()) then NodeKey(e.Lower(), u.Upper()) else u;
    if Lt(u.Upper(), e.Upper()) then NodeKey(u.Lower(), e.Upper()) else nk
  }

  function UnionAll(entries: seq<VarKey>): VarKey
    requires entries != []
  {
    if |entries| == 1 then NodeKey(entries[0].Lower(), entries[0].Upper())
    else BinUnion(UnionAll(entries[..|entries| - 1]), entries[|entries| - 1])
  }

  /** The union of the entries with both ends cut to n bytes. */
  function CutKey(entries: seq<VarKey>, n: nat): VarKey
    requires entries != []
  {
    NodeKey(Cut(UnionAll(entries).Lower(), n), Cut(UnionAll(entries).Upper(), n))
  }

  /** The key of a page: the union of its entries, cut past its common prefix. */
  function PageKey(entries: seq<VarKey>): VarKey
    requires entries != []
  {
    var u := UnionAll(entries);
    Truncate(u, Common(u.Lower(), u.Upper()) + 1)
  }

  /** gbt_var_union */
  method VarUnion(entries: seq<VarKey>) returns (out: VarKey)
    requires entries != []
    ensures out == PageKey(entries)
  {
    out := NodeKey(entries[0].Lower(), entries[0].Upper());
    for i := 1 to |entries|
      invariant out == UnionAll(entries[..i])
    {
      assert entries[..i + 1][..i] == entries[..i];
      out := BinUnion(out, entries[i]);
    }
    assert entries[..|entries|] == entries;
    var plen := NodeCpLen(out);
    out := Truncate(out, plen + 1);
  }

  // ---------- What a key accounts for ----------

  /**
   A value within the range, or one past its upper end that agrees with the upper end at
   least two bytes past the range's common prefix (an upper end that was cut there stands for it).
   */
  predicate Accounts(key: VarKey, v: Bytea) {
    && Le(key.Lower(), v)
    && (Le(v, key.Upper()) || Common(key.Lower(), key.Upper()) + 2 <= Common(key.Upper(), v))
  }

  predicate InOrder(key: VarKey) {
    Le(key.Lower(), key.Upper())
  }

  /** A wider range accounts for no less. */
  lemma WiderAccounts(key: VarKey, wide: VarKey, v: Bytea)
    requires InOrder(key) && Le(wide.Lower(), key.Lower()) && Le(key.Upper(), wide.Upper()) && Accounts(key, v)
    ensures Accounts(wide, v)
  {
    hide Le, Common;
    var l, u, wl, wu := key.Lower(), key.Upper(), wide.Lower(), wide.Upper();
    LeTransitive(wl, l, v);
    if Le(v, u) {
      LeTransitive(v, u, wu);
    } else if !Le(v, wu) {
      LeTotal(v, wu);
      CommonBetween(u, wu, v);
      CommonElsewhere(l, u, wu);
      LeTransitive(l, u, wu);
      CommonBetween(wl, l, wu);
    }
  }

  /** Cutting both ends no shorter than two bytes past the common prefix loses nothing. */
  lemma CutAccounts(key: VarKey, n: nat, v: Bytea)
    requires InOrder(key) && Common(key.Lower(), key.Upper()) + 2 <= n && Accounts(key, v)
    ensures Accounts(NodeKey(Cut(key.Lower(), n), Cut(key.Upper(), n)), v)
  {
    hide Le, Common, Cut;
    var l, u := key.Lower(), key.Upper();
    var l', u' := Cut(l, n), Cut(u, n);
    CutInOrder(key, n);
    PrefixLe(l', l);
    LeTransitive(l', l, v);
    CommonOfCut(u, n, v);
    assert |u'| == |u| ==> u' == u;
    if !Le(v, u') && Le(v, u) {
      LeTotal(v, u');
      BetweenPrefixAndWhole(u', v, u);
      PrefixLe(u', v);
    }
  }

  lemma CutInOrder(key: VarKey, n: nat)
    requires InOrder(key) && Common(key.Lower(), key.Upper()) + 2 <= n
    ensures InOrder(NodeKey(Cut(key.Lower(), n), Cut(key.Upper(), n)))
    ensures Common(Cut(key.Lower(), n), Cut(key.Upper(), n)) == Common(key.Lower(), key.Upper())
  {
    hide Le, Common, Cut;
    var l, u := key.Lower(), key.Upper();
    var l', u' := Cut(l, n), Cut(u, n);
    CommonOfCut(l, n, u);
    CommonSymmetric(l', u);
    CommonOfCut(u, n, l');
    CommonSymmetric(u', l');
    PrefixLe(l', l);
    LeTransitive(l', l, u);
    if |u| <= n {
      assert u' == u;
    } else {
      if u' <= l' {
        PrefixLe(u', l');
      }
      BelowWholeBelowPrefix(u', l', u);
    }
  }

  // ---------- Unions account for what they are made of ----------

  /** One step of the union: as long as only one end moves, nothing is lost. */
  lemma BinUnionWidens(u: VarKey, e: VarKey)
    requires InOrder(u) && InOrder(e) && !WidensBothEnds(u, e)
    ensures var r := BinUnion(u, e);
            && InOrder(r)
            && Le(r.Lower(), u.Lower()) && Le(u.Upper(), r.Upper())
            && Le(r.Lower(), e.Lower()) && Le(e.Upper(), r.Upper())
  {
    hide Le;
    LeTotal(u.Lower(), e.Lower());
    LeTotal(u.Upper(), e.Upper());
    LeReflexive(u.Lower());
    LeReflexive(u.Upper());
    LeReflexive(e.Lower());
    LeReflexive(e.Upper());
    if Le(e.Lower(), u.Lower()) {
      LeTransitive(e.Lower(), u.Lower(), u.Upper());
    }
    if Le(u.Upper(), e.Upper()) {
      LeTransitive(u.Lower(), u.Upper(), e.Upper());
    }
  }

  /** Exactly then: when both ends move, the union no longer accounts for e's own lower end. */
  lemma BinUnionExactly(u: VarKey, e: VarKey)
    requires InOrder(u) && InOrder(e)
    ensures (forall v :: Accounts(u, v) || Accounts(e, v) ==> Accounts(BinUnion(u, e), v)) <==> !WidensBothEnds(u, e)
  {
    hide Le, Common;
    if WidensBothEnds(u, e) {
      LeReflexive(e.Lower());
      assert Accounts(e, e.Lower()) && !Accounts(BinUnion(u, e), e.Lower());
    } else {
      BinUnionWidens(u, e);
      forall v | Accounts(u, v) || Accounts(e, v) ensures Accounts(BinUnion(u, e), v) {
        hide Accounts, BinUnion;
        if Accounts(u, v) {
          WiderAccounts(u, BinUnion(u, e), v);
        } else {
          WiderAccounts(e, BinUnion(u, e), v);
        }
      }
    }
  }

  // ---------- The ends of a union ----------

  ghost predicate AllInOrder(entries: seq<VarKey>) {
    forall k :: 0 <= k < |entries| ==> InOrder(entries[k])
  }

  /** The union takes entry k's lower end into account: its upper end is not the first to reach so far. */
  ghost predicate Kept(entries: seq<VarKey>, k: nat)
    requires k < |entries|
  {
    k == 0 || exists i :: 0 <= i < k && Le(entries[k].Upper(), entries[i].Upper())
  }

  ghost predicate LeastKept(entries: seq<VarKey>, j: nat) {
    && j < |entries| && Kept(entries, j)
    && forall k :: 0 <= k < |entries| && Kept(entries, k) ==> Le(entries[j].Lower(), entries[k].Lower())
  }

  ghost predicate Greatest(entries: seq<VarKey>, g: nat) {
    g < |entries| && forall k :: 0 <= k < |entries| ==> Le(entries[k].Upper(), entries[g].Upper())
  }

  /** The union goes from the least lower end that is kept to the greatest upper end. */
  lemma {:induction false} UnionEnds(entries: seq<VarKey>) returns (j: nat, g: nat)
    requires entries != []
    ensures LeastKept(entries, j) && Greatest(entries, g)
    ensures UnionAll(entries) == NodeKey(entries[j].Lower(), entries[g].Upper())
  {
    hide Le;
    var n := |entries| - 1;
    if n == 0 {
      j, g := 0, 0;
      LeReflexive(entries[0].Lower());
      LeReflexive(entries[0].Upper());
    } else {
      hide LeastKept, Greatest, Kept;
      j, g := UnionEnds(entries[..n]);
      IsEntry(entries[..n], j, g);
      LastKept(entries, g);
      LeTotal(entries[j].Lower(), entries[n].Lower());
      LeTotal(entries[g].Upper(), entries[n].Upper());
      if Lt(entries[g].Upper(), entries[n].Upper()) {
        RaiseUpper(entries, g);
        StillLeast(entries, j);
        g := n;
      } else {
        StillGreatest(entries, g);
        if Lt(entries[n].Lower(), entries[j].Lower()) {
          LowerLower(entries, j);
          j := n;
        } else {
          StillLeast(entries, j);
        }
      }
    }
  }

  lemma IsEntry(entries: seq<VarKey>, j: nat, g: nat)
    requires LeastKept(entries, j) && Greatest(entries, g)
    ensures j < |entries| && g < |entries|
  {
  }

  lemma FrontKept(entries: seq<VarKey>, n: nat)
    requires n < |entries|
    ensures forall k :: 0 <= k < n ==> (Kept(entries[..n], k) <==> Kept(entries, k))
  {
  }

  /** The last entry is kept exactly when it does not reach past the greatest upper end before it. */
  lemma LastKept(entries: seq<VarKey>, g: nat)
    requires 2 <= |entries| && Greatest(entries[..|entries| - 1], g)
    ensures Kept(entries, |entries| - 1) <==> Le(entries[|entries| - 1].Upper(), entries[g].Upper())
  {
    hide Le;
    var n := |entries| - 1;
    if i: nat :| i < n && Le(entries[n].Upper(), entries[i].Upper()) {
      assert Le(entries[..n][i].Upper(), entries[..n][g].Upper());
      LeTransitive(entries[n].Upper(), entries[i].Upper(), entries[g].Upper());
    }
  }

  lemma StillGreatest(entries: seq<VarKey>, g: nat)
    requires 2 <= |entries| && Greatest(entries[..|entries| - 1], g)
    requires Le(entries[|entries| - 1].Upper(), entries[g].Upper())
    ensures Greatest(entries, g)
  {
    hide Le;
    var n := |entries| - 1;
    forall k | 0 <= k < n ensures Le(entries[k].Upper(), entries[g].Upper()) {
      assert Le(entries[..n][k].Upper(), entries[..n][g].Upper());
    }
  }

  lemma RaiseUpper(entries: seq<VarKey>, g: nat)
    requires 2 <= |entries| && Greatest(entries[..|entries| - 1], g)
    requires Le(entries[g].Upper(), entries[|entries| - 1].Upper())
    ensures Greatest(entries, |entries| - 1)
  {
    hide Le;
    var n := |entries| - 1;
    LeReflexive(entries[n].Upper());
    forall k | 0 <= k < n ensures Le(entries[k].Upper(), entries[n].Upper()) {
      assert Le(entries[..n][k].Upper(), entries[..n][g].Upper());
      LeTransitive(entries[k].Upper(), entries[g].Upper(), entries[n].Upper());
    }
  }

  lemma StillLeast(entries: seq<VarKey>, j: nat)
    requires 2 <= |entries| && LeastKept(entries[..|entries| - 1], j)
    requires Kept(entries, |entries| - 1) ==> Le(entries[j].Lower(), entries[|entries| - 1].Lower())
    ensures LeastKept(entries, j)
  {
    hide Le, Kept;
    var n := |entries| - 1;
    FrontKept(entries, n);
    forall k | 0 <= k < n && Kept(entries, k) ensures Le(entries[j].Lower(), entries[k].Lower()) {
      assert Le(entries[..n][j].Lower(), entries[..n][k].Lower());
    }
  }

  lemma LowerLower(entries: seq<VarKey>, j: nat)
    requires 2 <= |entries| && LeastKept(entries[..|entries| - 1], j) && Kept(entries, |entries| - 1)
    requires Le(entries[|entries| - 1].Lower(), entries[j].Lower())
    ensures LeastKept(entries, |entries| - 1)
  {
    hide Le, Kept;
    var n := |entries| - 1;
    FrontKept(entries, n);
    LeReflexive(entries[n].Lower());
    forall k | 0 <= k < n && Kept(entries, k) ensures Le(entries[n].Lower(), entries[k].Lower()) {
      assert Le(entries[..n][j].Lower(), entries[..n][k].Lower());
      LeTransitive(entries[n].Lower(), entries[j].Lower(), entries[k].Lower());
    }
  }

  lemma EndsAreUnique(entries: seq<VarKey>, j: nat, g: nat)
    requires LeastKept(entries, j) && Greatest(entries, g)
    ensures UnionAll(entries) == NodeKey(entries[j].Lower(), entries[g].Upper())
  {
    hide Le, UnionAll, Kept;
    var j', g' := UnionEnds(entries);
    LeTotal(entries[j].Lower(), entries[j'].Lower());
    LeTotal(entries[g].Upper(), entries[g'].Upper());
  }

  lemma UnionInOrder(entries: seq<VarKey>)
    requires entries != [] && AllInOrder(entries)
    ensures InOrder(UnionAll(entries))
  {
    hide Le, UnionAll, Kept;
    var j, g := UnionEnds(entries);
    assert InOrder(entries[j]);
    LeTransitive(entries[j].Lower(), entries[j].Upper(), entries[g].Upper());
  }

  // ---------- What the key of a page loses ----------

  /** Every lower end that the union passed over is still above its lower end, once that is cut to n bytes. */
  ghost predicate LowerEndsReached(entries: seq<VarKey>, j: nat, n: nat)
    requires j < |entries|
  {
    forall k :: 0 <= k < |entries| && !Kept(entries, k) ==> Le(Cut(entries[j].Lower(), n), entries[k].Lower())
  }

  ghost predicate ReachedBetween(entries: seq<VarKey>, j: nat, g: nat) {
    && j < |entries| && g < |entries|
    && LowerEndsReached(entries, j, Common(entries[j].Lower(), entries[g].Upper()) + 2)
  }

  /** The same for a cut two bytes past the common prefix, in terms of the entries alone. */
  ghost predicate NoLowerEndLost(entries: seq<VarKey>) {
    forall j: nat, g: nat :: LeastKept(entries, j) && Greatest(entries, g) ==> ReachedBetween(entries, j, g)
  }

  /** The key accounts for all that the entries account for. */
  ghost predicate AccountsForAll(key: VarKey, entries: seq<VarKey>) {
    forall k, v :: 0 <= k < |entries| && Accounts(entries[k], v) ==> Accounts(key, v)
  }

  ghost predicate NoneBelow(key: VarKey, entries: seq<VarKey>) {
    forall k :: 0 <= k < |entries| ==> Le(key.Lower(), entries[k].Lower())
  }

  lemma LowerEndsBelowCut(entries: seq<VarKey>, j: nat, n: nat)
    requires LeastKept(entries, j) && UnionAll(entries).Lower() == entries[j].Lower()
    ensures LowerEndsReached(entries, j, n) <==> NoneBelow(CutKey(entries, n), entries)
  {
    hide Le, UnionAll, Kept, Cut;
    forall k | 0 <= k < |entries| && Kept(entries, k) ensures Le(CutKey(entries, n).Lower(), entries[k].Lower()) {
      PrefixLe(Cut(entries[j].Lower(), n), entries[j].Lower());
      LeTransitive(Cut(entries[j].Lower(), n), entries[j].Lower(), entries[k].Lower());
    }
  }

  lemma AccountsForOwnEnds(key: VarKey)
    requires InOrder(key)
    ensures Accounts(key, key.Lower()) && Accounts(key, key.Upper())
  {
    LeReflexive(key.Lower());
    LeReflexive(key.Upper());
  }

  lemma CutTwice(a: Bytea, n: nat)
    ensures Cut(Cut(a, n), n) == Cut(a, n)
  {
  }

  lemma CutKeyAccountsFor(entries: seq<VarKey>, n: nat, k: nat, v: Bytea)
    requires entries != [] && AllInOrder(entries) && k < |entries| && Accounts(entries[k], v)
    requires Common(UnionAll(entries).Lower(), UnionAll(entries).Upper()) + 2 <= n
    requires Le(CutKey(entries, n).Lower(), entries[k].Lower())
    ensures Accounts(CutKey(entries, n), v)
  {
    hide Le, UnionAll, Common, Cut, Accounts, Kept;
    var u := UnionAll(entries);
    var wide := NodeKey(Cut(u.Lower(), n), u.Upper());
    var j, g := UnionEnds(entries);
    UnionInOrder(entries);
    PrefixLe(wide.Lower(), u.Lower());
    LeTransitive(wide.Lower(), u.Lower(), u.Upper());
    WiderAccounts(entries[k], wide, v);
    CommonOfCut(u.Lower(), n, u.Upper());
    CutAccounts(wide, n, v);
    CutTwice(u.Lower(), n);
  }

  lemma AccountsForLowerEnds(key: VarKey, entries: seq<VarKey>)
    requires AllInOrder(entries) && AccountsForAll(key, entries)
    ensures NoneBelow(key, entries)
  {
    hide Le, Common;
    forall k | 0 <= k < |entries| ensures Le(key.Lower(), entries[k].Lower()) {
      AccountsForOwnEnds(entries[k]);
      assert Accounts(key, entries[k].Lower());
    }
  }

  /**
   A union cut two or more bytes past its common prefix accounts for all that its entries
   account for exactly when its cut lower end is below all of theirs.
   */
  lemma CutKeyExactly(entries: seq<VarKey>, n: nat)
    requires entries != [] && AllInOrder(entries)
    requires Common(UnionAll(entries).Lower(), UnionAll(entries).Upper()) + 2 <= n
    ensures AccountsForAll(CutKey(entries, n), entries) <==> NoneBelow(CutKey(entries, n), entries)
  {
    hide Le, UnionAll, Common, CutKey, Accounts;
    if NoneBelow(CutKey(entries, n), entries) {
      forall k, v | 0 <= k < |entries| && Accounts(entries[k], v) ensures Accounts(CutKey(entries, n), v) {
        CutKeyAccountsFor(entries, n, k, v);
      }
    }
    if AccountsForAll(CutKey(entries, n), entries) {
      hide AccountsForAll;
      AccountsForLowerEnds(CutKey(entries, n), entries);
    }
  }

  lemma ReachedExactly(entries: seq<VarKey>, j: nat, g: nat)
    requires LeastKept(entries, j) && Greatest(entries, g)
    ensures ReachedBetween(entries, j, g) <==> NoneBelow(PageKey(entries), entries)
  {
    hide Le, UnionAll, Common, Kept, LowerEndsReached, NoneBelow;
    EndsAreUnique(entries, j, g);
    LowerEndsBelowCut(entries, j, Common(entries[j].Lower(), entries[g].Upper()) + 2);
  }

  lemma NoLowerEndLostExactly(entries: seq<VarKey>)
    requires entries != []
    ensures NoLowerEndLost(entries) <==> NoneBelow(PageKey(entries), entries)
  {
    hide LeastKept, Greatest, ReachedBetween, NoneBelow, PageKey, UnionAll;
    var j, g := UnionEnds(entries);
    ReachedExactly(entries, j, g);
    forall j': nat, g': nat | LeastKept(entries, j') && Greatest(entries, g')
      ensures ReachedBetween(entries, j', g') <==> NoneBelow(PageKey(entries), entries)
    {
      ReachedExactly(entries, j', g');
    }
  }

  /** The key of a page accounts for all that its entries account for exactly when no lower end is lost. */
  lemma PageKeyExactly(entries: seq<VarKey>)
    requires entries != [] && AllInOrder(entries)
    ensures InOrder(PageKey(entries)) && Tight(PageKey(entries))
    ensures AccountsForAll(PageKey(entries), entries) <==> NoLowerEndLost(entries)
  {
    hide Le, UnionAll, Common, NoLowerEndLost, AccountsForAll, NoneBelow;
    var u := UnionAll(entries);
    var n := Common(u.Lower(), u.Upper()) + 2;
    UnionInOrder(entries);
    CutInOrder(u, n);
    NoLowerEndLostExactly(entries);
    CutKeyExactly(entries, n);
  }

  /** Cut to two bytes past the common prefix of its ends. */
  predicate Tight(key: VarKey) {
    |key.Upper()| <= Common(key.Lower(), key.Upper()) + 2
  }

  // ---------- Pages that lose nothing ----------

  /** No step of the union of these entries moves both ends. */
  ghost predicate OneEndAtATime(entries: seq<VarKey>) {
    forall k :: 1 <= k < |entries| ==> !WidensBothEnds(UnionAll(entries[..k]), entries[k])
  }

  /** If no step moves both ends, no lower end is lost. */
  lemma OneEndIsEnough(entries: seq<VarKey>)
    requires entries != [] && OneEndAtATime(entries)
    ensures NoLowerEndLost(entries)
  {
    hide LeastKept, Greatest, LowerEndsReached, OneEndAtATime;
    forall j: nat, g: nat | LeastKept(entries, j) && Greatest(entries, g) ensures ReachedBetween(entries, j, g) {
      assert j < |entries| && g < |entries| by { IsEntry(entries, j, g); }
      OneEndReaches(entries, j, Common(entries[j].Lower(), entries[g].Upper()) + 2);
    }
  }

  lemma OneEndReaches(entries: seq<VarKey>, j: nat, n: nat)
    requires LeastKept(entries, j) && OneEndAtATime(entries)
    ensures LowerEndsReached(entries, j, n)
  {
    hide Le, Kept, Cut, OneEndAtATime;
    var cut := Cut(entries[j].Lower(), n);
    PrefixLe(cut, entries[j].Lower());
    forall k | 0 <= k < |entries| && !Kept(entries, k) ensures Le(cut, entries[k].Lower()) {
      PassedOverIsAbove(entries, j, k);
      LeTransitive(cut, entries[j].Lower(), entries[k].Lower());
    }
  }

  /** An entry that was passed over while only the upper end moved is not below the union. */
  lemma PassedOverIsAbove(entries: seq<VarKey>, j: nat, k: nat)
    requires LeastKept(entries, j) && k < |entries| && !Kept(entries, k)
    requires OneEndAtATime(entries)
    ensures Le(entries[j].Lower(), entries[k].Lower())
  {
    hide Le, UnionAll;
    var front := entries[..k];
    var j', g' := UnionEnds(front);
    FrontKept(entries, k);
    assert Kept(entries, j') && front[j'] == entries[j'] && front[g'] == entries[g'];
    assert !Le(entries[k].Upper(), entries[g'].Upper());
    LeTotal(entries[j'].Lower(), entries[k].Lower());
    LeTransitive(entries[j].Lower(), entries[j'].Lower(), entries[k].Lower());
  }

  lemma {:induction false} LowerEndStays(entries: seq<VarKey>)
    requires entries != [] && forall k :: 0 <= k < |entries| ==> Le(entries[0].Lower(), entries[k].Lower())
    ensures UnionAll(entries).Lower() == entries[0].Lower()
  {
    hide Le;
    if 1 < |entries| {
      LowerEndStays(entries[..|entries| - 1]);
      assert Le(entries[0].Lower(), entries[|entries| - 1].Lower());
    }
  }

  /** When the first entry has the least lower end, as on a sorted page, both ends never move at once. */
  lemma LeastFirstIsEnough(entries: seq<VarKey>)
    requires entries != [] && forall k :: 0 <= k < |entries| ==> Le(entries[0].Lower(), entries[k].Lower())
    ensures OneEndAtATime(entries)
  {
    hide Le, UnionAll;
    forall k | 1 <= k < |entries| ensures !WidensBothEnds(UnionAll(entries[..k]), entries[k]) {
      LowerEndStays(entries[..k]);
    }
  }

  ghost predicate LeafPage(entries: seq<VarKey>) {
    entries != [] && forall k :: 0 <= k < |entries| ==> entries[k].LeafKey?
  }

  /** A single string lies on one side of a range at most. */
  lemma PointMovesOneEnd(u: VarKey, e: VarKey)
    requires InOrder(u) && e.LeafKey?
    ensures !WidensBothEnds(u, e)
  {
    hide Le;
    LeTotal(e.value, u.Lower());
    if Le(e.value, u.Lower()) {
      LeTransitive(e.value, u.Lower(), u.Upper());
    }
  }

  /** On a leaf page both ends never move at once. */
  lemma LeafPageMovesOneEnd(entries: seq<VarKey>)
    requires LeafPage(entries)
    ensures AllInOrder(entries) && OneEndAtATime(entries)
  {
    hide WidensBothEnds, UnionAll, Le;
    forall k | 0 <= k < |entries| ensures InOrder(entries[k]) {
      LeReflexive(entries[k].value);
    }
    forall k | 1 <= k < |entries| ensures !WidensBothEnds(UnionAll(entries[..k]), entries[k]) {
      UnionInOrder(entries[..k]);
      PointMovesOneEnd(UnionAll(entries[..k]), entries[k]);
    }
  }
}
