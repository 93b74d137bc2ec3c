/**
 Splitting a page of byte strings (gbt_var_picksplit).  Both halves are cut at one length, two
 bytes past the longer of their common prefixes, so the key of one half may be cut later than
 a union would cut it, and may then stop short of strings that its entries stand for.
 */
module VarSplit {
  import opened Bytes
  import opened ByteStrings
  import opened Gist
  import opened PageSplit
  import opened Strategies
  import opened VarKeys
  import opened VarSearch

  // ---------- The split ----------

  /** gbt_vsrt_cmp: by lower end, then by upper end */
  predicate KeyLe(a: VarKey, b: VarKey) {
    Lt(a.Lower(), b.Lower()) || (a.Lower() == b.Lower() && Le(a.Upper(), b.Upper()))
  }

  type Entry = Numbered<VarKey>

  function Prefix(entries: seq<VarKey>): nat
    requires entries != []
  {
    Common(UnionAll(entries).Lower(), UnionAll(entries).Upper())
  }

  /** Where both halves are cut. */
  function CutLength(l: seq<VarKey>, r: seq<VarKey>): nat
    requires l != [] && r != []
  {
    (if Prefix(l) < Prefix(r) then Prefix(r) else Prefix(l)) + 2
  }

  /** Both halves are cut at least two bytes past their common prefixes, and one of them just there. */
  lemma CutPastBoth(l: seq<VarKey>, r: seq<VarKey>)
    requires l != [] && r != []
    ensures Prefix(l) + 2 <= CutLength(l, r) && Prefix(r) + 2 <= CutLength(l, r)
    ensures CutLength(l, r) == Prefix(l) + 2 || CutLength(l, r) == Prefix(r) + 2
  {
  }

  /** The sort is by lower ends, and by upper ends where those are equal. */
  lemma KeyLeOrders(a: VarKey, b: VarKey)
    ensures KeyLe(a, b) <==> Le(a.Lower(), b.Lower()) && (a.Lower() == b.Lower() ==> Le(a.Upper(), b.Upper()))
  {
    hide Le;
    LeTotal(a.Lower(), b.Lower());
    LeReflexive(a.Lower());
  }

  /** gbt_var_bin_union: a union not yet started takes the ends of the first key */
  method BinUnionInto(u: Option<VarKey>, e: VarKey, ghost before: seq<VarKey>) returns (u': Option<VarKey>)
    requires if u.None? then before == [] else before != [] && u.value == UnionAll(before)
    ensures u' == Some(UnionAll(before + [e]))
  {
    assert (before + [e])[..|before|] == before;
    u' := Some(if u.None? then NodeKey(e.Lower(), e.Upper()) else BinUnion(u.value, e));
  }

  /** Part of the sorted page, with its offsets and its union so far. */
  ghost predicate Half(side: seq<Entry>, offsets: seq<nat>, datum: Option<VarKey>) {
    Lists(offsets, side) && datum == if side == [] then None else Some(UnionAll(KeysOf(side)))
  }

  lemma HalfMore(side: seq<Entry>, offsets: seq<nat>, datum: Option<VarKey>, e: Entry)
    requires Half(side, offsets, datum)
    ensures Half(side + [e], offsets + [e.i], Some(UnionAll(KeysOf(side) + [e.key])))
  {
    hide UnionAll;
    KeysOfMore(side, e);
  }

  ghost predicate LeastFirst(entries: seq<VarKey>) {
    entries != [] && forall k :: 0 <= k < |entries| ==> Le(entries[0].Lower(), entries[k].Lower())
  }

  lemma SortedLeastFirst(side: seq<Entry>)
    requires side != [] && Sorted(KeyLe, side)
    ensures LeastFirst(KeysOf(side))
  {
    hide Le;
    LeReflexive(side[0].key.Lower());
    forall k | 1 <= k < |side| ensures Le(side[0].key.Lower(), side[k].key.Lower()) {
      assert KeyLe(side[0].key, side[k].key);
      LeTotal(side[0].key.Lower(), side[k].key.Lower());
      LeReflexive(side[0].key.Lower());
    }
  }

  /**
   gbt_var_picksplit, of at least two entries: the page is dealt out in two sorted halves, and
   each side's key is the union of its entries, cut where both are cut.
   */
  method PickSplit(entries: seq<VarKey>, qsort: seq<Entry> -> seq<Entry>, left: array<nat>, right: array<nat>)
    returns (nleft: nat, nright: nat, ldatum: VarKey, rdatum: VarKey, ghost lside: seq<Entry>, ghost rside: seq<Entry>)
    requires 3 <= |entries| && Sorts(KeyLe, qsort)
    requires left.Length == right.Length == |entries| + 1 && left != right
    modifies left, right
    ensures nleft == (|entries| - 1) / 2 && nleft + nright == |entries| - 1
    ensures multiset(lside) + multiset(rside) == multiset(Number(entries))
    ensures Lists(left[..nleft], lside) && Lists(right[..nright], rside)
    ensures forall a, b :: a in lside && b in rside ==> KeyLe(a.key, b.key) && Le(a.key.Lower(), b.key.Lower())
    ensures LeastFirst(KeysOf(lside)) && LeastFirst(KeysOf(rside))
    ensures ldatum == CutKey(KeysOf(lside), CutLength(KeysOf(lside), KeysOf(rside)))
    ensures rdatum == CutKey(KeysOf(rside), CutLength(KeysOf(lside), KeysOf(rside)))
    ensures Prefix(KeysOf(lside)) + 2 <= CutLength(KeysOf(lside), KeysOf(rside))
    ensures Prefix(KeysOf(rside)) + 2 <= CutLength(KeysOf(lside), KeysOf(rside))
  {
    hide Half, UnionAll, Le, Common, KeyLe;
    var arr := qsort(Number(entries));
    SameSize(arr, Number(entries));
    var maxoff := |entries| - 1;
    var l: Option<VarKey>, r: Option<VarKey> := None, None;
    nleft, nright, lside, rside := 0, 0, [], [];
    HalfNone();
    for i := 1 to maxoff + 1
      invariant lside + rside == arr[..i - 1]
      invariant nleft == |lside| && nright == |rside|
      invariant |lside| == if i - 1 <= maxoff / 2 then i - 1 else maxoff / 2
      invariant Half(lside, left[..nleft], l) && Half(rside, right[..nright], r)
    {
      var e := arr[i - 1];
      assert arr[..i] == arr[..i - 1] + [e];
      if i <= maxoff / 2 {
        assert rside == [];
        HalfUnion(lside, left[..nleft], l);
        HalfMore(lside, left[..nleft], l, e);
        l := BinUnionInto(l, e.key, KeysOf(lside));
        Append(left, nleft, e.i);
        nleft, lside := nleft + 1, lside + [e];
      } else {
        HalfUnion(rside, right[..nright], r);
        HalfMore(rside, right[..nright], r, e);
        r := BinUnionInto(r, e.key, KeysOf(rside));
        Append(right, nright, e.i);
        nright, rside := nright + 1, rside + [e];
      }
    }
    assert lside + rside == arr;
    LeftBelowRight(KeyLe, lside, rside);
    forall a, b | a in lside && b in rside ensures Le(a.key.Lower(), b.key.Lower()) {
      KeyLeOrders(a.key, b.key);
    }
    SortedLeastFirst(lside);
    SortedLeastFirst(rside);
    HalfUnion(lside, left[..nleft], l);
    HalfUnion(rside, right[..nright], r);
    ldatum, rdatum := CutHalves(l.value, r.value, KeysOf(lside), KeysOf(rside));
    CutPastBoth(KeysOf(lside), KeysOf(rside));
  }

  /** The last part: both unions cut at the longer of their prefix lengths. */
  method CutHalves(l: VarKey, r: VarKey, ghost ls: seq<VarKey>, ghost rs: seq<VarKey>) returns (dl: VarKey, dr: VarKey)
    requires ls != [] && rs != [] && l == UnionAll(ls) && r == UnionAll(rs)
    ensures dl == CutKey(ls, CutLength(ls, rs)) && dr == CutKey(rs, CutLength(ls, rs))
  {
    hide UnionAll, Common;
    var ll := NodeCpLen(l);
    var lr := NodeCpLen(r);
    if ll < lr {
      ll := lr;
    }
    ll := ll + 1;
    dl, dr := Truncate(l, ll), Truncate(r, ll);
  }

  lemma HalfNone()
    ensures Half([], [], None)
  {
  }

  lemma HalfUnion(side: seq<Entry>, offsets: seq<nat>, datum: Option<VarKey>)
    requires Half(side, offsets, datum)
    ensures Lists(offsets, side)
    ensures if datum.None? then KeysOf(side) == [] else KeysOf(side) != [] && datum.value == UnionAll(KeysOf(side))
  {
  }

  // ---------- Leaf pages ----------

  lemma CutKeyInOrder(entries: seq<VarKey>, n: nat)
    requires entries != [] && AllInOrder(entries)
    ensures InOrder(CutKey(entries, n))
  {
    hide Le, UnionAll, Cut;
    UnionInOrder(entries);
    CutMonotone(UnionAll(entries).Lower(), UnionAll(entries).Upper(), n);
  }

  /** The strings of a leaf page lie between the ends of its union. */
  lemma LeafBetweenEnds(entries: seq<VarKey>, k: nat)
    requires LeafPage(entries) && k < |entries|
    ensures Le(UnionAll(entries).Lower(), entries[k].value) && Le(entries[k].value, UnionAll(entries).Upper())
  {
    hide Le, UnionAll, OneEndAtATime;
    var j, g := UnionEnds(entries);
    assert Le(entries[k].Upper(), entries[g].Upper());
    if !Kept(entries, k) {
      LeafPageMovesOneEnd(entries);
      PassedOverIsAbove(entries, j, k);
    }
  }

  /** A leaf page's union cut at any length whatever is let through for every match on the page. */
  lemma LeafSplitLosesNothing(entries: seq<VarKey>, n: nat, k: nat, query: Bytea, strategy: int)
    requires LeafPage(entries) && k < |entries| && Consistent(entries[k], query, strategy, true)
    ensures Consistent(CutKey(entries, n), query, strategy, false)
  {
    hide Le, UnionAll, Cut, OneEndAtATime, Consistent;
    var u, v := UnionAll(entries), entries[k].value;
    LeafPageMovesOneEnd(entries);
    CutKeyInOrder(entries, n);
    LeafBetweenEnds(entries, k);
    PrefixLe(Cut(u.Lower(), n), u.Lower());
    LeTransitive(Cut(u.Lower(), n), u.Lower(), v);
    BelowOrExtendsCut(v, u.Upper(), n);
    LeafStands(entries[k], query, strategy);
    LetThrough(CutKey(entries, n), v, query, strategy);
  }

  // ---------- Inner pages ----------

  /** The upper end was cut, or is as long as if it had been: the key stands for all its extensions. */
  predicate Open(key: VarKey) {
    Common(key.Lower(), key.Upper()) + 2 <= |key.Upper()|
  }

  lemma OpenStands(key: VarKey, v: Bytea)
    requires InOrder(key) && Open(key) && key.Upper() <= v
    ensures Stands(key, v)
  {
    hide Le, Common;
    PrefixLe(key.Upper(), v);
    LeTransitive(key.Lower(), key.Upper(), v);
  }

  lemma StandsPastOpen(key: VarKey, v: Bytea)
    requires Stands(key, v) && !Le(v, key.Upper())
    ensures Open(key) && key.Upper() <= v
  {
  }

  /** The bound goes on past the end, but not with bytes 255 alone: some extension of the end is above it. */
  ghost predicate Overtaken(end: Bytea, bound: Bytea) {
    end <= bound && exists i :: |end| <= i < |bound| && bound[i] < 0xFF
  }

  lemma {:induction false} ExtensionWithin(end: Bytea, bound: Bytea, v: Bytea)
    requires Le(end, bound) || bound <= end
    requires end <= v && !Overtaken(end, bound)
    ensures Le(v, bound) || bound <= v
    decreases |v|
  {
    if v != [] && bound != [] {
      if end == [] {
        assert bound[0] == 0xFF;
        if v[0] == 0xFF {
          assert forall i :: 0 <= i < |bound[1..]| ==> bound[1..][i] == bound[i + 1];
          ExtensionWithin([], bound[1..], v[1..]);
          assert bound[1..] <= v[1..] ==> bound <= v;
        }
      } else if end[0] == bound[0] {
        TailOvertaken(end, bound);
        ExtensionWithin(end[1..], bound[1..], v[1..]);
        assert bound[1..] <= v[1..] ==> bound <= v;
      }
    }
  }

  lemma TailOvertaken(end: Bytea, bound: Bytea)
    requires end != [] && bound != [] && end[0] == bound[0] && !Overtaken(end, bound)
    ensures !Overtaken(end[1..], bound[1..])
    ensures bound <= end ==> bound[1..] <= end[1..]
  {
  }

  /** Some extension of an overtaken end lies above the bound and does not extend it. */
  lemma ExtensionPast(end: Bytea, bound: Bytea) returns (v: Bytea)
    requires Overtaken(end, bound)
    ensures end <= v && !Le(v, bound) && !(bound <= v)
  {
    var i :| |end| <= i < |bound| && bound[i] < 0xFF;
    v := bound[..i] + [bound[i] + 1];
    assert v[i] != bound[i];
    Raised(bound, i);
  }

  lemma {:induction false} Raised(b: Bytea, i: nat)
    requires i < |b| && b[i] < 0xFF
    ensures !Le(b[..i] + [b[i] + 1], b)
  {
    var v := b[..i] + [b[i] + 1];
    if 0 < i {
      Raised(b[1..], i - 1);
      assert v[1..] == b[1..][..i - 1] + [b[1..][i - 1] + 1];
    }
  }

  /** No entry that stands for the extensions of its upper end is overtaken by the key's upper end. */
  ghost predicate NoneOvertaken(key: VarKey, entries: seq<VarKey>) {
    forall k :: 0 <= k < |entries| && Open(entries[k]) ==> !Overtaken(entries[k].Upper(), key.Upper())
  }

  lemma CutUpperReaches(entries: seq<VarKey>, n: nat, k: nat, v: Bytea)
    requires entries != [] && k < |entries| && Stands(entries[k], v)
    requires Le(v, entries[k].Upper()) || !Overtaken(entries[k].Upper(), CutKey(entries, n).Upper())
    ensures Le(v, CutKey(entries, n).Upper()) || CutKey(entries, n).Upper() <= v
  {
    hide Le, UnionAll, Cut, Overtaken, Common, Kept;
    var j, g := UnionEnds(entries);
    var u := UnionAll(entries);
    assert Le(entries[k].Upper(), u.Upper());
    if Le(v, entries[k].Upper()) {
      LeTransitive(v, entries[k].Upper(), u.Upper());
      BelowOrExtendsCut(v, u.Upper(), n);
    } else {
      BelowOrExtendsCut(entries[k].Upper(), u.Upper(), n);
      ExtensionWithin(entries[k].Upper(), Cut(u.Upper(), n), v);
    }
  }

  /**
   The cut key of a half stands for whatever its entries stand for exactly when its lower end
   is below theirs and its upper end overtakes none of theirs.
   */
  lemma CutKeyStandsExactly(entries: seq<VarKey>, n: nat)
    requires entries != [] && AllInOrder(entries) && Prefix(entries) + 2 <= n
    ensures StandsForAll(CutKey(entries, n), entries)
       <==> NoneBelow(CutKey(entries, n), entries) && NoneOvertaken(CutKey(entries, n), entries)
  {
    hide Le, UnionAll, Cut, Overtaken, Common, CutKey, Accounts;
    var key := CutKey(entries, n);
    if NoneBelow(key, entries) && NoneOvertaken(key, entries) {
      forall k, v | 0 <= k < |entries| && Stands(entries[k], v) ensures Stands(key, v) {
        CutKeyAccountsFor(entries, n, k, v);
        if !Le(v, entries[k].Upper()) {
          StandsPastOpen(entries[k], v);
        }
        CutUpperReaches(entries, n, k, v);
      }
    }
    if StandsForAll(key, entries) {
      forall k | 0 <= k < |entries|
        ensures Le(key.Lower(), entries[k].Lower())
        ensures Open(entries[k]) ==> !Overtaken(entries[k].Upper(), key.Upper())
      {
        NeedsBoth(key, entries, k);
      }
    }
  }

  lemma NeedsBoth(key: VarKey, entries: seq<VarKey>, k: nat)
    requires StandsForAll(key, entries) && AllInOrder(entries) && k < |entries|
    ensures Le(key.Lower(), entries[k].Lower())
    ensures Open(entries[k]) ==> !Overtaken(entries[k].Upper(), key.Upper())
  {
    hide Le, Overtaken, Common;
    StandsForOwnEnds(entries[k]);
    assert Stands(key, entries[k].Lower());
    if Open(entries[k]) && Overtaken(entries[k].Upper(), key.Upper()) {
      var v := ExtensionPast(entries[k].Upper(), key.Upper());
      assert !Stands(key, v);
      OpenStands(entries[k], v);
    }
  }

  /** What a search needs of an entry: it is not overtaken, or has the key's lower end as a prefix anyway. */
  ghost predicate NoneOutOfReach(key: VarKey, entries: seq<VarKey>) {
    forall k :: 0 <= k < |entries| && Open(entries[k]) && !(key.Lower() <= entries[k].Upper()) ==>
      !Overtaken(entries[k].Upper(), key.Upper())
  }

  /** The cut key of a half turns no match down exactly when its lower end is below all and no entry is out of reach. */
  lemma SplitTurnsNothingDownExactly(entries: seq<VarKey>, n: nat)
    requires entries != [] && AllInOrder(entries)
    ensures TurnsNothingDown(CutKey(entries, n), entries)
       <==> NoneBelow(CutKey(entries, n), entries) && NoneOutOfReach(CutKey(entries, n), entries)
  {
    hide Le, UnionAll, Cut, Overtaken, Common, CutKey, TurnsNothingDown;
    var key := CutKey(entries, n);
    CutKeyInOrder(entries, n);
    TurnsNothingDownExactly(key, entries);
    if NoneBelow(key, entries) && NoneOutOfReach(key, entries) {
      forall k, v | 0 <= k < |entries| && Stands(entries[k], v) ensures Reaches(key, v) {
        WithinReach(entries, n, k, v);
      }
    }
    if ReachesAll(key, entries) {
      forall k | 0 <= k < |entries|
        ensures Le(key.Lower(), entries[k].Lower())
        ensures Open(entries[k]) && !(key.Lower() <= entries[k].Upper()) ==>
                  !Overtaken(entries[k].Upper(), key.Upper())
      {
        ReachNeedsBoth(key, entries, k);
      }
    }
  }

  lemma WithinReach(entries: seq<VarKey>, n: nat, k: nat, v: Bytea)
    requires entries != [] && k < |entries| && Stands(entries[k], v)
    requires NoneBelow(CutKey(entries, n), entries) && NoneOutOfReach(CutKey(entries, n), entries)
    ensures Reaches(CutKey(entries, n), v)
  {
    hide Le, Overtaken, Common, CutKey;
    var key := CutKey(entries, n);
    LeTransitive(key.Lower(), entries[k].Lower(), v);
    if !Le(v, entries[k].Upper()) {
      StandsPastOpen(entries[k], v);
    }
    if Le(v, entries[k].Upper()) || !(key.Lower() <= entries[k].Upper()) {
      CutUpperReaches(entries, n, k, v);
    }
  }

  lemma ReachNeedsBoth(key: VarKey, entries: seq<VarKey>, k: nat)
    requires ReachesAll(key, entries) && AllInOrder(entries) && k < |entries|
    ensures Le(key.Lower(), entries[k].Lower())
    ensures Open(entries[k]) && !(key.Lower() <= entries[k].Upper()) ==>
              !Overtaken(entries[k].Upper(), key.Upper())
  {
    hide Le, Overtaken, Common;
    var end := entries[k].Upper();
    StandsForOwnEnds(entries[k]);
    assert Reaches(key, entries[k].Lower());
    if Open(entries[k]) && !(key.Lower() <= end) && Overtaken(end, key.Upper()) {
      var v := ExtensionPast(end, key.Upper());
      OpenStands(entries[k], v);
      assert Reaches(key, v);
      LeTransitive(key.Lower(), entries[k].Lower(), end);
      PrefixOfExtension(key.Lower(), end, v);
    }
  }

  /** A prefix of an extension that is not above the end is a prefix of the end. */
  lemma PrefixOfExtension(p: Bytea, end: Bytea, v: Bytea)
    requires Le(p, end) && end <= v && p <= v
    ensures p <= end
  {
    if |end| < |p| {
      assert end <= p;
      PrefixLe(end, p);
      LeTotal(p, end);
    }
  }

  // ---------- In terms of the entries alone ----------

  /** No entry is overtaken by the greatest upper end, cut to n bytes. */
  ghost predicate NeverOvertaken(entries: seq<VarKey>, n: nat) {
    forall g: nat, k :: Greatest(entries, g) && 0 <= k < |entries| && Open(entries[k]) ==>
      !Overtaken(entries[k].Upper(), Cut(entries[g].Upper(), n))
  }

  /** No entry is overtaken but those that have the first lower end, cut to n bytes, as a prefix. */
  ghost predicate NeverOutOfReach(entries: seq<VarKey>, n: nat)
    requires entries != []
  {
    var lower := Cut(entries[0].Lower(), n);
    forall g: nat, k :: Greatest(entries, g) && 0 <= k < |entries| && Open(entries[k]) ==>
      lower <= entries[k].Upper() || !Overtaken(entries[k].Upper(), Cut(entries[g].Upper(), n))
  }

  lemma EndsOfHalf(entries: seq<VarKey>, n: nat) returns (g: nat)
    requires LeastFirst(entries)
    ensures Greatest(entries, g)
    ensures CutKey(entries, n) == NodeKey(Cut(entries[0].Lower(), n), Cut(entries[g].Upper(), n))
    ensures forall g': nat :: Greatest(entries, g') ==> entries[g'].Upper() == entries[g].Upper()
  {
    hide Le, UnionAll, Cut;
    LowerEndStays(entries);
    var j, top := UnionEnds(entries);
    g := top;
    forall g': nat | Greatest(entries, g') ensures entries[g'].Upper() == entries[g].Upper() {
      LeTotal(entries[g].Upper(), entries[g'].Upper());
    }
  }

  lemma OvertakenByEntries(entries: seq<VarKey>, n: nat)
    requires LeastFirst(entries)
    ensures NeverOvertaken(entries, n) <==> NoneOvertaken(CutKey(entries, n), entries)
    ensures NeverOutOfReach(entries, n) <==> NoneOutOfReach(CutKey(entries, n), entries)
  {
    hide Le, Cut, Overtaken, Open, CutKey, LeastFirst;
    var g := EndsOfHalf(entries, n);
  }

  /** The key of a half stands for whatever its entries stand for exactly when none is overtaken. */
  lemma HalfStandsExactly(entries: seq<VarKey>, n: nat)
    requires LeastFirst(entries) && AllInOrder(entries) && Prefix(entries) + 2 <= n
    ensures StandsForAll(CutKey(entries, n), entries) <==> NeverOvertaken(entries, n)
  {
    hide NeverOvertaken, NoneOvertaken, NoneBelow, StandsForAll, CutKey, Prefix;
    OvertakenByEntries(entries, n);
    LeastFirstNoneBelow(entries, n);
    CutKeyStandsExactly(entries, n);
  }

  /** It turns no match down exactly when none is out of reach. */
  lemma HalfTurnsNothingDownExactly(entries: seq<VarKey>, n: nat)
    requires LeastFirst(entries) && AllInOrder(entries)
    ensures TurnsNothingDown(CutKey(entries, n), entries) <==> NeverOutOfReach(entries, n)
  {
    hide NeverOutOfReach, NoneOutOfReach, NoneBelow, TurnsNothingDown, CutKey;
    OvertakenByEntries(entries, n);
    LeastFirstNoneBelow(entries, n);
    SplitTurnsNothingDownExactly(entries, n);
  }

  /** And exactly then every search in every tree finds all its matches, wherever a page is such a half. */
  lemma FoundUnderEveryHalfExactly(entries: seq<VarKey>, n: nat)
    requires LeastFirst(entries) && AllInOrder(entries)
    ensures FoundUnder(CutKey(entries, n), entries) <==> NeverOutOfReach(entries, n)
  {
    hide FoundUnder, NeverOutOfReach, TurnsNothingDown, CutKey;
    HalfTurnsNothingDownExactly(entries, n);
    FoundUnderExactly(CutKey(entries, n), entries);
  }

  // ---------- The halves as pages ----------

  lemma LeastFirstNoneBelow(entries: seq<VarKey>, n: nat)
    requires LeastFirst(entries)
    ensures NoneBelow(CutKey(entries, n), entries)
  {
    hide Le, UnionAll, Cut;
    LowerEndStays(entries);
    var cut := Cut(entries[0].Lower(), n);
    PrefixLe(cut, entries[0].Lower());
    forall k | 0 <= k < |entries| ensures Le(cut, entries[k].Lower()) {
      LeTransitive(cut, entries[0].Lower(), entries[k].Lower());
    }
  }

  /** A half of a split inner page is properly keyed, and turns nothing down, if no upper end is overtaken. */
  lemma SplitKeysThePage(ts: seq<VarTree>, n: nat)
    requires ts != [] && AllKeyed(ts) && LeastFirst(Keys(ts)) && Prefix(Keys(ts)) + 2 <= n
    requires NoneOvertaken(CutKey(Keys(ts), n), Keys(ts))
    ensures Keyed(Node(CutKey(Keys(ts), n), ts))
  {
    hide CutKey, AllKeyed, Keyed, Prefix, StandsForAll, NoneOvertaken, LeastFirst, NoneBelow;
    KeyedInOrder(ts);
    CutKeyInOrder(Keys(ts), n);
    LeastFirstNoneBelow(Keys(ts), n);
    CutKeyStandsExactly(Keys(ts), n);
    StandingKeysThePage(CutKey(Keys(ts), n), ts);
  }

  /** A half of a split leaf page always is. */
  lemma LeafSplitKeysThePage(ts: seq<VarTree>, n: nat)
    requires ts != [] && LeafPage(Keys(ts)) && AllKeyed(ts) && Prefix(Keys(ts)) + 2 <= n
    ensures Keyed(Node(CutKey(Keys(ts), n), ts))
  {
    hide Le, Common, CutKey, AllKeyed, Keyed, Prefix;
    KeyedInOrder(ts);
    CutKeyInOrder(Keys(ts), n);
    forall k, v | 0 <= k < |ts| && Stands(Keys(ts)[k], v) ensures Stands(CutKey(Keys(ts), n), v) {
      LeafStandsForItself(Keys(ts)[k], v);
      LeafCutStands(Keys(ts), n, k);
    }
    StandingKeysThePage(CutKey(Keys(ts), n), ts);
  }

  lemma LeafCutStands(entries: seq<VarKey>, n: nat, k: nat)
    requires LeafPage(entries) && k < |entries| && Prefix(entries) + 2 <= n
    ensures Stands(CutKey(entries, n), entries[k].value)
  {
    hide Le, UnionAll, Cut, Common, OneEndAtATime, Accounts;
    var u, v := UnionAll(entries), entries[k].value;
    LeafPageMovesOneEnd(entries);
    LeafBetweenEnds(entries, k);
    PrefixLe(Cut(u.Lower(), n), u.Lower());
    LeTransitive(Cut(u.Lower(), n), u.Lower(), v);
    BelowOrExtendsCut(v, u.Upper(), n);
    AccountsForOwnEnds(entries[k]);
    CutKeyAccountsFor(entries, n, k, v);
  }

  // ---------- A split that loses a match ----------

  const A: Byte := 97
  const B: Byte := 98
  const C: Byte := 99
  const Z: Byte := 122
  const FIVE: Byte := 53

  lemma Behind(x: Byte, a: Bytea, b: Bytea)
    ensures Le([x] + a, [x] + b) <==> Le(a, b)
    ensures Common([x] + a, [x] + b) == 1 + Common(a, b)
  {
  }

  lemma StringsOfTheExample()
    ensures Le([FIVE], [A, B]) && Le([FIVE], [A, A]) && !Le([A, A], [FIVE])
    ensures Le([A, A], [A, B, C]) && Common([A, A], [A, B, C]) == 1
    ensures Le([B, A], [B, B]) && Common([B, A], [B, B]) == 1
    ensures Le([A, A], [B, A]) && !Le([B, A], [A, A])
    ensures !Le([A, B, C], [A, B]) && !Le([A, B, Z], [A, B, C])
    ensures Le([FIVE], [A, B, Z]) && Common([FIVE], [A, B, Z]) == 0
  {
    Behind(A, [A], [B, C]);
    Behind(B, [A], [B]);
    Behind(A, [B, C], [B]);
    Behind(B, [C], []);
    Behind(A, [B, Z], [B, C]);
    Behind(B, [Z], [C]);
    assert [A] + [A] == [A, A] && [A] + [B, C] == [A, B, C] && [B] + [A] == [B, A] && [B] + [B] == [B, B];
    assert [A] + [B] == [A, B] && [B] + [C] == [B, C] && [A] + [B, Z] == [A, B, Z] && [B] + [Z] == [B, Z];
    assert [B] + [] == [B];
  }

  /** The keys that gbt_var_union gives the leaf pages "5", "abz"; "aa", "abc" and "ba", "bb". */
  lemma KeysOfTheExample()
    ensures PageOf([FIVE], [A, B, Z]).key == NodeKey([FIVE], [A, B])
    ensures PageOf([A, A], [A, B, C]).key == NodeKey([A, A], [A, B, C])
    ensures PageOf([B, A], [B, B]).key == NodeKey([B, A], [B, B])
  {
    hide Le, Common, PageKey;
    StringsOfTheExample();
    KeyOfTwo([FIVE], [A, B, Z]);
    KeyOfTwo([A, A], [A, B, C]);
    KeyOfTwo([B, A], [B, B]);
  }

  lemma UnionsOfTheExample()
    ensures var first, second := NodeKey([FIVE], [A, B]), NodeKey([A, A], [A, B, C]);
            OneEndAtATime([first, second]) && UnionAll([first, second]) == NodeKey([FIVE], [A, B, C])
    ensures var other := NodeKey([B, A], [B, B]); UnionAll([other, other]) == other
  {
    hide Le;
    StringsOfTheExample();
    LeReflexive([B, A]);
    LeReflexive([B, B]);
    var first, second, other := NodeKey([FIVE], [A, B]), NodeKey([A, A], [A, B, C]), NodeKey([B, A], [B, B]);
    assert [first, second][..1] == [first] && UnionAll([first]) == first;
    assert [other, other][..1] == [other] && UnionAll([other]) == other;
  }

  lemma SplitOfTheExample()
    ensures var first, second, other := NodeKey([FIVE], [A, B]), NodeKey([A, A], [A, B, C]), NodeKey([B, A], [B, B]);
            var l, r := [first, second], [other, other];
            && AllInOrder(l + r) && Tight(first) && Tight(second) && Tight(other)
            && KeyLe(first, second) && KeyLe(second, other) && KeyLe(other, other) && OneEndAtATime(l)
            && CutLength(l, r) == 3 && !Consistent(CutKey(l, 3), [A, B, Z], BT_EQUAL, false)
  {
    hide Le, UnionAll, OneEndAtATime;
    StringsOfTheExample();
    UnionsOfTheExample();
    LeReflexive([B, B]);
    LeTransitive([FIVE], [A, A], [A, B, C]);
    var first, second, other := NodeKey([FIVE], [A, B]), NodeKey([A, A], [A, B, C]), NodeKey([B, A], [B, B]);
    assert CutKey([first, second], 3) == NodeKey([FIVE], [A, B, C]);
    assert [first, second] + [other, other] == [first, second, other, other];
    assert [A, B, C][2] != [A, B, Z][2] && [FIVE][0] != [A, B, Z][0];
  }

  /**
   Leaf pages "5", "abz" and "aa", "abc" on the left and "ba", "bb" twice on the right, all keyed
   by their unions: the split cuts at three bytes, and a search for "abz" under the left key, "5"
   to "abc", finds nothing.  Only one end ever moved.
   */
  lemma InnerSplitLosesAMatch()
    ensures var l := [PageOf([FIVE], [A, B, Z]), PageOf([A, A], [A, B, C])];
            var r := [PageOf([B, A], [B, B]), PageOf([B, A], [B, B])];
            && AllKeyed(l) && AllKeyed(r) && AllInOrder(Keys(l) + Keys(r))
            && Tight(l[0].key) && Tight(l[1].key) && Tight(r[0].key) && Tight(r[1].key)
            && KeyLe(l[0].key, l[1].key) && KeyLe(l[1].key, r[0].key) && KeyLe(r[0].key, r[1].key)
            && OneEndAtATime(Keys(l)) && CutLength(Keys(l), Keys(r)) == 3
            && var t := Node(CutKey(Keys(l), 3), l);
               && LeafKey([A, B, Z]) in Leaves(t) && LeafTest([A, B, Z], BT_EQUAL)(LeafKey([A, B, Z]))
               && Found(t, LeafTest([A, B, Z], BT_EQUAL), InnerTest([A, B, Z], BT_EQUAL)) == []
  {
    hide PageOf, Keyed, LeafTest, InnerTest, Found, Consistent, Le, Tight, InOrder;
    hide CutKey, CutLength, KeyLe, OneEndAtATime;
    var l := [PageOf([FIVE], [A, B, Z]), PageOf([A, A], [A, B, C])];
    var r := [PageOf([B, A], [B, B]), PageOf([B, A], [B, B])];
    KeysOfTheExample();
    SplitOfTheExample();
    PageOfIsKeyed([FIVE], [A, B, Z]);
    PageOfIsKeyed([A, A], [A, B, C]);
    PageOfIsKeyed([B, A], [B, B]);
    assert Keys(l) == [NodeKey([FIVE], [A, B]), NodeKey([A, A], [A, B, C])];
    assert Keys(r) == [NodeKey([B, A], [B, B]), NodeKey([B, A], [B, B])];
    LeavesOfChild(l, 0);
    assert l[0] == PageOf([FIVE], [A, B, Z]);
    LostUnder(CutKey(Keys(l), 3), l, [A, B, Z], [A, B, Z], BT_EQUAL);
  }
}
