/**
 Splitting a full page of boxes in two (g_cube_picksplit, after Guttman).  The two seeds waste
 the most space when put together; every other entry goes to the side it enlarges less.
 */
module CubeSplit {
  import opened Cubes
  import opened CubeIndex
  import opened CubeOrder
  import opened Gist
  import PageSplit

  function Abs(r: real): real {
    if r < 0.0 then -r else r
  }

  function Width(b: NDBox, i: nat): real
    requires i < b.dim
  {
    Abs(b.x[b.dim + i] - b.x[i])
  }

  /** rt_cube_size */
  function Size(b: NDBox, n: nat): real
    requires n <= b.dim
  {
    if n == 0 then 1.0 else Times(Size(b, n - 1), Width(b, n - 1))
  }

  /** The box with other ends along one axis. */
  function WithAxis(b: NDBox, k: nat, lo: real, hi: real): (c: NDBox)
    requires k < b.dim
    ensures c.dim == b.dim
  {
    Corners(b.dim, b.x[k := lo][b.dim + k := hi])
  }

  lemma WidthWithAxis(b: NDBox, k: nat, lo: real, hi: real, i: nat)
    requires k < b.dim && i < b.dim && lo <= hi
    ensures Width(WithAxis(b, k, lo, hi), i) == if i == k then hi - lo else Width(b, i)
  {
  }

  lemma Distribute(x: real, y: real, w: real)
    ensures Times(x + y, w) == Times(x, w) + Times(y, w) && Times(w, x + y) == Times(w, x) + Times(w, y)
  {
  }

  /** A box cut in two along an axis has the sizes of both parts together. */
  lemma {:induction false} SizeAdds(b: NDBox, k: nat, c: real, n: nat)
    requires k < b.dim && n <= b.dim && b.x[k] <= c <= b.x[b.dim + k]
    ensures var lower, upper := WithAxis(b, k, b.x[k], c), WithAxis(b, k, c, b.x[b.dim + k]);
            if n <= k then Size(b, n) == Size(lower, n) == Size(upper, n)
            else Size(b, n) == Size(lower, n) + Size(upper, n)
  {
    if n != 0 {
      hide WithAxis, Times;
      var lower, upper := WithAxis(b, k, b.x[k], c), WithAxis(b, k, c, b.x[b.dim + k]);
      SizeAdds(b, k, c, n - 1);
      WidthWithAxis(b, k, b.x[k], c, n - 1);
      WidthWithAxis(b, k, c, b.x[b.dim + k], n - 1);
      if n - 1 == k {
        assert Width(b, k) == (c - b.x[k]) + (b.x[b.dim + k] - c);
        Distribute(c - b.x[k], b.x[b.dim + k] - c, Size(b, k));
      } else if k < n - 1 {
        Distribute(Size(lower, n - 1), Size(upper, n - 1), Width(b, n - 1));
      }
    }
  }

  /** A box one wide along every axis has size one. */
  lemma {:induction false} SizeOfUnit(b: NDBox, n: nat)
    requires n <= b.dim && forall i :: 0 <= i < b.dim ==> b.x[b.dim + i] == b.x[i] + 1.0
    ensures Size(b, n) == 1.0
  {
    if n != 0 {
      SizeOfUnit(b, n - 1);
    }
  }

  function Waste(a: NDBox, b: NDBox): real {
    var u, i := Union(a, b), Intersection(a, b);
    Size(u, u.dim) - Size(i, i.dim)
  }

  lemma {:induction false} SameSize(a: NDBox, b: NDBox, n: nat)
    requires SameBox(a, b) && n <= a.dim
    ensures Size(a, n) == Size(b, n)
  {
    hide Times, SameBox;
    if n != 0 {
      SameSize(a, b, n - 1);
      SameWidth(a, b, n - 1);
    }
  }

  lemma SameWidth(a: NDBox, b: NDBox, i: nat)
    requires SameBox(a, b) && i < a.dim
    ensures a.dim == b.dim && Width(a, i) == Width(b, i)
  {
    assert Width(a, i) == Hi(a, i) - Lo(a, i) && Width(b, i) == Hi(b, i) - Lo(b, i);
  }

  /** A box put together with one it covers wastes what is outside the smaller one. */
  lemma WasteOfCovered(a: NDBox, b: NDBox)
    requires a.dim == b.dim && Covers(a, b)
    ensures Waste(a, b) == Size(a, a.dim) - Size(b, b.dim)
  {
    hide Size;
    var u, c := Union(a, b), Intersection(a, b);
    assert u.dim == c.dim == a.dim;
    hide Union, Intersection;
    assert Overlaps(a, b) by { CoveredOverlaps(a, b); }
    forall i: nat ensures Lo(u, i) == Lo(a, i) && Hi(u, i) == Hi(a, i) && Lo(c, i) == Lo(b, i) && Hi(c, i) == Hi(b, i) {
      hide Lo, Hi;
      UnionAxes(a, b, i);
      IntersectionAxes(a, b, i);
    }
    SameSize(u, a, a.dim);
    SameSize(c, b, a.dim);
  }

  lemma CoveredOverlaps(a: NDBox, b: NDBox)
    requires Covers(a, b)
    ensures Overlaps(a, b)
  {
    forall i: nat ensures Lo(a, i) <= Hi(b, i) && Lo(b, i) <= Hi(a, i) {
      assert Lo(b, i) <= Hi(b, i);
    }
  }

  method WasteOf(a: NDBox, b: NDBox) returns (w: real)
    ensures w == Waste(a, b)
  {
    var u := CubeUnion(a, b);
    var i := Intersection(a, b);
    w := Size(u, u.dim) - Size(i, i.dim);
  }

  /** The pair of entries, among all but the last, that waste the most space. */
  method PickSeeds(entries: seq<NDBox>) returns (seed1: nat, seed2: nat)
    requires 3 <= |entries|
    ensures 1 <= seed1 < seed2 < |entries|
    ensures forall i, j :: 1 <= i < j <= |entries| - 2 ==>
              Waste(entries[i], entries[j]) <= Waste(entries[seed1], entries[seed2])
  {
    hide Waste;
    var maxoff := |entries| - 2;
    var firsttime, waste := true, 0.0;
    seed1, seed2 := 1, 2;
    for i := 1 to maxoff
      invariant 1 <= seed1 < seed2 < |entries|
      invariant firsttime <==> i == 1
      invariant !firsttime ==> waste == Waste(entries[seed1], entries[seed2])
      invariant forall k, l :: 1 <= k < i && k < l <= maxoff ==> Waste(entries[k], entries[l]) <= waste
    {
      for j := i + 1 to maxoff + 1
        invariant 1 <= seed1 < seed2 < |entries|
        invariant firsttime <==> i == 1 && j == 2
        invariant !firsttime ==> waste == Waste(entries[seed1], entries[seed2])
        invariant forall k, l :: 1 <= k < i && k < l <= maxoff ==> Waste(entries[k], entries[l]) <= waste
        invariant forall l :: i < l < j ==> Waste(entries[i], entries[l]) <= waste
      {
        var sizeWaste := WasteOf(entries[i], entries[j]);
        if sizeWaste > waste || firsttime {
          waste, seed1, seed2, firsttime := sizeWaste, i, j, false;
        }
      }
    }
  }

  // ---------- What a side's key says ----------

  ghost predicate Within(offsets: seq<nat>, n: nat) {
    forall k :: k in offsets ==> k < n
  }

  /** n is the greatest dimension of the entries at these offsets. */
  ghost predicate GreatestDim(n: nat, entries: seq<NDBox>, offsets: seq<nat>)
    requires Within(offsets, |entries|)
  {
    (forall k :: k in offsets ==> entries[k].dim <= n) && exists k :: k in offsets && entries[k].dim == n
  }

  /** d is the least box that covers the entries at these offsets, of no more dimensions than they have. */
  ghost predicate Bounds(d: NDBox, entries: seq<NDBox>, offsets: seq<nat>)
    requires Within(offsets, |entries|)
  {
    && GreatestDim(d.dim, entries, offsets)
    && (forall k :: k in offsets ==> Covers(d, entries[k]))
    && (forall c: NDBox :: (forall k :: k in offsets ==> Covers(c, entries[k])) ==> Covers(c, d))
  }

  lemma BoundsOne(entries: seq<NDBox>, k: nat)
    requires k < |entries|
    ensures Bounds(Union(entries[k], entries[k]), entries, [k])
  {
    hide Covers;
    UnionIsLeast(entries[k], entries[k]);
    assert k in [k];
  }

  lemma BoundsMore(d: NDBox, entries: seq<NDBox>, offsets: seq<nat>, k: nat)
    requires Within(offsets, |entries|) && k < |entries| && Bounds(d, entries, offsets)
    ensures Bounds(Union(d, entries[k]), entries, offsets + [k])
  {
    hide Covers;
    UnionIsLeast(d, entries[k]);
    var u := Union(d, entries[k]);
    var top :| top in offsets && entries[top].dim == d.dim;
    assert top in offsets + [k] && k in offsets + [k];
    forall i | i in offsets + [k] ensures Covers(u, entries[i]) {
      if i != k {
        CoversTransitive(u, d, entries[i]);
      }
    }
    forall c: NDBox | forall i :: i in offsets + [k] ==> Covers(c, entries[i]) ensures Covers(c, u) {
      assert forall i :: i in offsets ==> i in offsets + [k];
    }
  }

  /** The entries at the given offsets. */
  function Picked(entries: seq<NDBox>, offsets: seq<nat>): seq<NDBox>
    requires forall k :: k in offsets ==> k < |entries|
  {
    seq(|offsets|, i requires 0 <= i < |offsets| => assert offsets[i] in offsets; entries[offsets[i]])
  }

  lemma {:induction false} UnionAllDim(entries: seq<NDBox>)
    requires entries != []
    ensures forall k :: 0 <= k < |entries| ==> entries[k].dim <= UnionAll(entries).dim
    ensures exists k :: 0 <= k < |entries| && entries[k].dim == UnionAll(entries).dim
  {
    var n := |entries| - 1;
    if n == 0 {
      assert entries[0] == UnionAll(entries);
    } else {
      UnionAllDim(entries[..n]);
      var top :| 0 <= top < n && entries[..n][top].dim == UnionAll(entries[..n]).dim;
      assert forall k :: 0 <= k < n ==> entries[..n][k] == entries[k];
      assert UnionAll(entries).dim == MaxDim(UnionAll(entries[..n]), entries[n]);
      assert entries[if entries[top].dim < entries[n].dim then n else top].dim == UnionAll(entries).dim;
    }
  }

  lemma CoverEachOther(a: NDBox, b: NDBox)
    requires a.dim == b.dim && Covers(a, b) && Covers(b, a)
    ensures SameBox(a, b)
  {
  }

  /** The least such box is the union of the entries. */
  lemma BoundsIsUnion(d: NDBox, entries: seq<NDBox>, offsets: seq<nat>)
    requires offsets != [] && Within(offsets, |entries|) && Bounds(d, entries, offsets)
    ensures SameBox(d, UnionAll(Picked(entries, offsets)))
  {
    hide Covers, UnionAll;
    var page := Picked(entries, offsets);
    UnionAllIsLeast(page);
    UnionAllDim(page);
    var u := UnionAll(page);
    forall k | k in offsets ensures Covers(u, entries[k]) && entries[k].dim <= u.dim {
      var i :| 0 <= i < |offsets| && offsets[i] == k;
      assert page[i] == entries[k];
    }
    forall i | 0 <= i < |page| ensures Covers(d, page[i]) && page[i].dim <= d.dim {
      assert offsets[i] in offsets;
    }
    CoverEachOther(d, u);
  }

  // ---------- Dealing the offsets out ----------

  ghost predicate Ascending(s: seq<nat>) {
    forall i, j :: 0 <= i < j < |s| ==> s[i] < s[j]
  }

  /** Offsets 1 to n - 1 are dealt out between two ascending lists. */
  ghost predicate Dealt(l: seq<nat>, r: seq<nat>, n: nat) {
    && Ascending(l) && Ascending(r) && |l| + |r| == n - 1
    && (forall k :: k in l || k in r ==> 1 <= k < n)
    && (forall k :: 1 <= k < n ==> (k in l <==> k !in r))
  }

  lemma AscendingAppend(s: seq<nat>, n: nat)
    requires Ascending(s) && forall k :: k in s ==> k < n
    ensures Ascending(s + [n])
  {
    forall i, j | 0 <= i < j < |s + [n]| ensures (s + [n])[i] < (s + [n])[j] {
      if j == |s| {
        assert s[i] in s;
      }
    }
  }

  lemma DealNext(l: seq<nat>, r: seq<nat>, n: nat)
    requires 1 <= n && Dealt(l, r, n)
    ensures Dealt(l + [n], r, n + 1) && Dealt(l, r + [n], n + 1)
  {
    AscendingAppend(l, n);
    AscendingAppend(r, n);
    hide Ascending;
  }

  /** One side of the split: the list kept at the front of an array, and the key so far. */
  datatype Side = Side(n: nat, datum: NDBox, size: real)

  /** Which side needs less enlargement; the sizes kept are the source's, which mixes the two up. */
  method Enlarge(l: Side, r: Side, box: NDBox) returns (toLeft: bool, datum: NDBox, size: real)
    ensures var u, w := Union(l.datum, box), Union(r.datum, box);
            && (toLeft <==> Size(u, u.dim) - l.size < Size(w, w.dim) - r.size)
            && datum == (if toLeft then u else w) && size == Size(u, u.dim)
  {
    var unionL := CubeUnion(l.datum, box);
    var unionR := CubeUnion(r.datum, box);
    var sizeAlpha := Size(unionL, unionL.dim);
    var sizeBeta := Size(unionR, unionR.dim);
    if sizeAlpha - l.size < sizeBeta - r.size {
      return true, unionL, sizeAlpha;
    } else {
      return false, unionR, sizeAlpha;
    }
  }

  method FirstSide(box: NDBox) returns (s: Side)
    ensures s.n == 0 && s.datum == Union(box, box) && s.size == Size(s.datum, s.datum.dim)
  {
    var u := CubeUnion(box, box);
    s := Side(0, u, Size(u, u.dim));
  }

  /** What holds of a side between two entries: its key bounds its seed and what has been placed there. */
  ghost predicate SideSoFar(s: Side, placed: seq<nat>, seed: nat, entries: seq<NDBox>, i: nat) {
    && s.n == |placed| && seed < |entries| && Within(placed, |entries|)
    && Within([seed] + placed, |entries|) && Bounds(s.datum, entries, [seed] + placed)
    && (seed < i ==> seed in placed)
  }

  lemma FirstOfSide(s: Side, seed: nat, entries: seq<NDBox>)
    requires 1 <= seed < |entries| && s.n == 0 && s.datum == Union(entries[seed], entries[seed])
    ensures SideSoFar(s, [], seed, entries, 1)
  {
    hide Bounds, Union;
    BoundsOne(entries, seed);
    assert [seed] + [] == [seed];
  }

  lemma PlaceSeed(s: Side, placed: seq<nat>, seed: nat, entries: seq<NDBox>)
    requires SideSoFar(s, placed, seed, entries, seed)
    ensures SideSoFar(s.(n := s.n + 1), placed + [seed], seed, entries, seed + 1)
  {
  }

  lemma PlaceOther(s: Side, placed: seq<nat>, seed: nat, entries: seq<NDBox>, i: nat, size: real)
    requires SideSoFar(s, placed, seed, entries, i) && i < |entries| && i != seed
    ensures SideSoFar(Side(s.n + 1, Union(s.datum, entries[i]), size), placed + [i], seed, entries, i + 1)
  {
    hide Bounds, Union;
    BoundsMore(s.datum, entries, [seed] + placed, i);
    assert [seed] + placed + [i] == [seed] + (placed + [i]);
  }

  lemma NotPlaced(s: Side, placed: seq<nat>, seed: nat, entries: seq<NDBox>, i: nat)
    requires SideSoFar(s, placed, seed, entries, i) && i != seed
    ensures SideSoFar(s, placed, seed, entries, i + 1)
  {
  }

  lemma LastOfSide(s: Side, placed: seq<nat>, seed: nat, entries: seq<NDBox>)
    requires SideSoFar(s, placed, seed, entries, |entries|)
    ensures 1 <= |placed| && Within(placed, |entries|) && Bounds(s.datum, entries, placed)
  {
  }

  /** Before entry i is placed: the lists at the front of the two arrays, and the keys, of the entries below i. */
  ghost predicate SplitSoFar(l: Side, r: Side, left: seq<nat>, right: seq<nat>,
                             seed1: nat, seed2: nat, entries: seq<NDBox>, i: nat)
  {
    && |left| == |right| == |entries| && l.n + r.n == i - 1 < |entries|
    && Dealt(left[..l.n], right[..r.n], i)
    && SideSoFar(l, left[..l.n], seed1, entries, i) && SideSoFar(r, right[..r.n], seed2, entries, i)
  }

  /** A seed goes to its own side, any other entry to the side whose box it enlarges less. */
  predicate GoesLeft(l: Side, r: Side, i: nat, seed1: nat, seed2: nat, box: NDBox) {
    var u, w := Union(l.datum, box), Union(r.datum, box);
    i == seed1 || (i != seed2 && Size(u, u.dim) - l.size < Size(w, w.dim) - r.size)
  }

  /** The side an entry was placed on; whichever it was, the size kept is that of the left union. */
  function Joined(s: Side, i: nat, seed: nat, box: NDBox, left: NDBox): Side {
    if i == seed then s.(n := s.n + 1)
    else Side(s.n + 1, Union(s.datum, box), Size(Union(left, box), Union(left, box).dim))
  }

  /** The sides before and after entry i is placed. */
  ghost predicate Step(l0: Side, r0: Side, l: Side, r: Side, i: nat, seed1: nat, seed2: nat, box: NDBox) {
    if GoesLeft(l0, r0, i, seed1, seed2, box) then l == Joined(l0, i, seed1, box, l0.datum) && r == r0
    else l == l0 && r == Joined(r0, i, seed2, box, l0.datum)
  }

  /** One turn of the loop. */
  method PlaceNext(entries: seq<NDBox>, seed1: nat, seed2: nat, i: nat, left: array<nat>, right: array<nat>,
                   l0: Side, r0: Side)
    returns (l: Side, r: Side)
    requires 1 <= i < |entries| && left != right && seed1 != seed2
    requires SplitSoFar(l0, r0, left[..], right[..], seed1, seed2, entries, i)
    modifies left, right
    ensures SplitSoFar(l, r, left[..], right[..], seed1, seed2, entries, i + 1)
    ensures Step(l0, r0, l, r, i, seed1, seed2, entries[i])
    ensures var toLeft := GoesLeft(l0, r0, i, seed1, seed2, entries[i]);
            && left[..l.n] == old(left[..l0.n]) + (if toLeft then [i] else [])
            && right[..r.n] == old(right[..r0.n]) + (if toLeft then [] else [i])
  {
    hide SideSoFar, Dealt, Bounds, Union, Within, Size;
    ghost var ls, rs := left[..l0.n], right[..r0.n];
    DealNext(ls, rs, i);
    var toLeft, datumL, datumR, sizeL, sizeR := i == seed1, l0.datum, r0.datum, l0.size, r0.size;
    if i == seed1 {
      PlaceSeed(l0, ls, seed1, entries);
    } else if i == seed2 {
      PlaceSeed(r0, rs, seed2, entries);
    } else {
      var datum, size;
      toLeft, datum, size := Enlarge(l0, r0, entries[i]);
      if toLeft {
        PlaceOther(l0, ls, seed1, entries, i, size);
        datumL, sizeL := datum, size;
      } else {
        PlaceOther(r0, rs, seed2, entries, i, size);
        datumR, sizeR := datum, size;
      }
    }
    l, r := l0, r0;
    if toLeft {
      NotPlaced(r0, rs, seed2, entries, i);
      PageSplit.Append(left, l.n, i);
      l := Side(l.n + 1, datumL, sizeL);
    } else {
      NotPlaced(l0, ls, seed1, entries, i);
      PageSplit.Append(right, r.n, i);
      r := Side(r.n + 1, datumR, sizeR);
    }
  }

  /** The sides before each entry was placed, and after the last; each entry is where its step put it. */
  ghost predicate History(ls: seq<Side>, rs: seq<Side>, left: seq<nat>, seed1: nat, seed2: nat, entries: seq<NDBox>) {
    && |ls| == |rs| <= |entries|
    && forall i :: 1 <= i < |ls| ==>
         && Step(ls[i - 1], rs[i - 1], ls[i], rs[i], i, seed1, seed2, entries[i])
         && (i in left <==> GoesLeft(ls[i - 1], rs[i - 1], i, seed1, seed2, entries[i]))
  }

  lemma HistoryMore(ls: seq<Side>, rs: seq<Side>, left: seq<nat>, seed1: nat, seed2: nat, entries: seq<NDBox>,
                    l: Side, r: Side, left': seq<nat>)
    requires History(ls, rs, left, seed1, seed2, entries) && 1 <= |ls| < |entries|
    requires forall k :: k in left ==> k < |ls|
    requires var i := |ls|;
             && Step(ls[i - 1], rs[i - 1], l, r, i, seed1, seed2, entries[i])
             && left' == left + if GoesLeft(ls[i - 1], rs[i - 1], i, seed1, seed2, entries[i]) then [i] else []
    ensures History(ls + [l], rs + [r], left', seed1, seed2, entries)
  {
    hide Step, GoesLeft;
  }

  /** g_cube_picksplit; entry 0 is unused, as offsets start at 1 */
  method PickSplit(entries: seq<NDBox>, left: array<nat>, right: array<nat>)
    returns (l: Side, r: Side, ghost seed1: nat, ghost seed2: nat, ghost ls: seq<Side>, ghost rs: seq<Side>)
    requires 3 <= |entries| == left.Length == right.Length && left != right
    modifies left, right
    ensures 1 <= l.n < left.Length && 1 <= r.n < right.Length
    ensures Dealt(left[..l.n], right[..r.n], |entries|)
    ensures Within(left[..l.n], |entries|) && Bounds(l.datum, entries, left[..l.n])
    ensures Within(right[..r.n], |entries|) && Bounds(r.datum, entries, right[..r.n])
    ensures SameBox(l.datum, UnionAll(Picked(entries, left[..l.n])))
    ensures SameBox(r.datum, UnionAll(Picked(entries, right[..r.n])))
    ensures left[l.n] == 1 && right[r.n] == 1
    ensures 1 <= seed1 < seed2 < |entries| && forall i, j :: 1 <= i < j <= |entries| - 2 ==>
              Waste(entries[i], entries[j]) <= Waste(entries[seed1], entries[seed2])
    ensures |ls| == |entries| && History(ls, rs, left[..l.n], seed1, seed2, entries)
    ensures ls[0].datum == Union(entries[seed1], entries[seed1]) && rs[0].datum == Union(entries[seed2], entries[seed2])
    ensures ls[0].size == Size(ls[0].datum, ls[0].datum.dim) && rs[0].size == Size(rs[0].datum, rs[0].datum.dim)
  {
    hide SideSoFar, Dealt, Bounds, Union, UnionAll, SameBox, Waste, Size, History, Step, GoesLeft;
    var s1, s2 := PickSeeds(entries);
    seed1, seed2 := s1, s2;
    l := FirstSide(entries[s1]);
    r := FirstSide(entries[s2]);
    FirstOfSide(l, s1, entries);
    FirstOfSide(r, s2, entries);
    DealNone();
    ls, rs := [l], [r];
    NoHistory(l, r, seed1, seed2, entries);
    for i := 1 to |entries|
      invariant SplitSoFar(l, r, left[..], right[..], s1, s2, entries, i)
      invariant |ls| == |rs| == i && ls[i - 1] == l && rs[i - 1] == r
      invariant ls[0].datum == Union(entries[s1], entries[s1]) && rs[0].datum == Union(entries[s2], entries[s2])
      invariant ls[0].size == Size(ls[0].datum, ls[0].datum.dim) && rs[0].size == Size(rs[0].datum, rs[0].datum.dim)
      invariant History(ls, rs, left[..l.n], s1, s2, entries)
    {
      ghost var before := left[..l.n];
      DealtBelow(before, right[..r.n], i);
      l, r := PlaceNext(entries, s1, s2, i, left, right, l, r);
      HistoryMore(ls, rs, before, s1, s2, entries, l, r, left[..l.n]);
      ls, rs := ls + [l], rs + [r];
    }
    ghost var lefts, rights := left[..l.n], right[..r.n];
    LastOfSide(l, lefts, s1, entries);
    LastOfSide(r, rights, s2, entries);
    BoundsIsUnion(l.datum, entries, lefts);
    BoundsIsUnion(r.datum, entries, rights);
    left[l.n] := 1;
    right[r.n] := 1;
    assert left[..l.n] == lefts && right[..r.n] == rights;
  }

  lemma NoHistory(l: Side, r: Side, seed1: nat, seed2: nat, entries: seq<NDBox>)
    requires entries != []
    ensures History([l], [r], [], seed1, seed2, entries)
  {
  }

  lemma DealtBelow(l: seq<nat>, r: seq<nat>, n: nat)
    requires Dealt(l, r, n)
    ensures forall k :: k in l ==> k < n
  {
  }

  lemma DealNone()
    ensures Dealt([], [], 1)
  {
  }

  /** The key of a side covers a page made of the entries placed there. */
  lemma SplitKeysThePage(d: NDBox, ts: seq<BoxTree>, offsets: seq<nat>, page: seq<BoxTree>)
    requires Within(offsets, |ts|) && Bounds(d, Keys(ts), offsets) && forall i :: 0 <= i < |ts| ==> Keyed(ts[i])
    requires |page| == |offsets| && forall i :: 0 <= i < |page| ==> offsets[i] < |ts| && page[i] == ts[offsets[i]]
    ensures Keyed(Node(d, page))
  {
    hide Covers;
    forall i | 0 <= i < |page| ensures Covers(d, page[i].key) && Keyed(page[i]) {
      assert offsets[i] in offsets && Keys(ts)[offsets[i]] == page[i].key;
    }
  }
}
