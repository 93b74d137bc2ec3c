/**
 The ordering of boxes (cube_cmp_v0): lower coordinates of the common axes, then upper
 coordinates of the common axes, then the further axes against zero, then the dimension.
 */
module CubeOrder {
  import opened Cubes

  /** Lexicographic comparison of equally many coordinates: 1, 0 or -1. */
  function Compare(u: seq<real>, v: seq<real>): int
    requires |u| == |v|
  {
    if u == [] then 0
    else if u[0] > v[0] then 1
    else if u[0] < v[0] then -1
    else Compare(u[1..], v[1..])
  }

  function Lows(b: NDBox, from: nat, to: nat): (s: seq<real>)
    requires from <= to
    ensures |s| == to - from
  {
    seq(to - from, i requires 0 <= i < to - from => Lo(b, from + i))
  }

  function Highs(b: NDBox, from: nat, to: nat): (s: seq<real>)
    requires from <= to
    ensures |s| == to - from
  {
    seq(to - from, i requires 0 <= i < to - from => Hi(b, from + i))
  }

  function MinDim(a: NDBox, b: NDBox): nat {
    if a.dim < b.dim then a.dim else b.dim
  }

  /** The coordinates of a in the order in which they are compared with those of b. */
  function Key(a: NDBox, b: NDBox): (k: seq<real>)
    ensures |k| == 2 * MaxDim(a, b)
  {
    var m, n := MinDim(a, b), MaxDim(a, b);
    Lows(a, 0, m) + Highs(a, 0, m) + Lows(a, m, n) + Highs(a, m, n)
  }

  function Order(a: NDBox, b: NDBox): int {
    var c := Compare(Key(a, b), Key(b, a));
    if c != 0 then c else if a.dim > b.dim then 1 else if a.dim < b.dim then -1 else 0
  }

  // ---------- Lexicographic comparison ----------

  lemma {:induction false} FirstDifference(u: seq<real>, v: seq<real>, k: nat)
    requires k < |u| == |v| && u[k] != v[k] && forall i :: 0 <= i < k ==> u[i] == v[i]
    ensures Compare(u, v) == if u[k] > v[k] then 1 else -1
  {
    if 0 < k {
      FirstDifference(u[1..], v[1..], k - 1);
    }
  }

  lemma {:induction false} ZeroExactlyOnEqual(u: seq<real>, v: seq<real>)
    requires |u| == |v|
    ensures Compare(u, v) == 0 <==> u == v
  {
    if u != [] {
      ZeroExactlyOnEqual(u[1..], v[1..]);
      assert u == [u[0]] + u[1..] && v == [v[0]] + v[1..];
    }
  }

  lemma {:induction false} CompareParts(u: seq<real>, v: seq<real>, u': seq<real>, v': seq<real>)
    requires |u| == |v| && |u'| == |v'|
    ensures Compare(u + u', v + v') == if Compare(u, v) != 0 then Compare(u, v) else Compare(u', v')
  {
    if u == [] {
      assert u + u' == u' && v + v' == v';
    } else {
      CompareParts(u[1..], v[1..], u', v');
      assert (u + u')[1..] == u[1..] + u' && (v + v')[1..] == v[1..] + v';
    }
  }

  lemma {:induction false} CompareAntisymmetric(u: seq<real>, v: seq<real>)
    requires |u| == |v|
    ensures Compare(u, v) == -Compare(v, u)
  {
    if u != [] {
      CompareAntisymmetric(u[1..], v[1..]);
    }
  }

  lemma {:induction false} CompareTransitive(u: seq<real>, v: seq<real>, w: seq<real>)
    requires |u| == |v| == |w| && Compare(u, v) <= 0 && Compare(v, w) <= 0
    ensures Compare(u, w) <= 0
  {
    if u != [] && u[0] == v[0] == w[0] {
      CompareTransitive(u[1..], v[1..], w[1..]);
    }
  }

  // ---------- The comparison of boxes ----------

  method CompareLows(a: NDBox, b: NDBox, from: nat, to: nat) returns (c: int)
    requires from <= to
    ensures c == Compare(Lows(a, from, to), Lows(b, from, to))
  {
    ghost var u, v := Lows(a, from, to), Lows(b, from, to);
    for i := from to to
      invariant u[..i - from] == v[..i - from]
    {
      assert u[i - from] == Lo(a, i) && v[i - from] == Lo(b, i);
      if Lo(a, i) > Lo(b, i) {
        Differ(u, v, i - from);
        return 1;
      }
      if Lo(a, i) < Lo(b, i) {
        Differ(u, v, i - from);
        return -1;
      }
      assert u[..i + 1 - from] == u[..i - from] + [u[i - from]] && v[..i + 1 - from] == v[..i - from] + [v[i - from]];
    }
    assert u[..to - from] == u && v[..to - from] == v;
    ZeroExactlyOnEqual(u, v);
    return 0;
  }

  method CompareHighs(a: NDBox, b: NDBox, from: nat, to: nat) returns (c: int)
    requires from <= to
    ensures c == Compare(Highs(a, from, to), Highs(b, from, to))
  {
    ghost var u, v := Highs(a, from, to), Highs(b, from, to);
    for i := from to to
      invariant u[..i - from] == v[..i - from]
    {
      assert u[i - from] == Hi(a, i) && v[i - from] == Hi(b, i);
      if Hi(a, i) > Hi(b, i) {
        Differ(u, v, i - from);
        return 1;
      }
      if Hi(a, i) < Hi(b, i) {
        Differ(u, v, i - from);
        return -1;
      }
      assert u[..i + 1 - from] == u[..i - from] + [u[i - from]] && v[..i + 1 - from] == v[..i - from] + [v[i - from]];
    }
    assert u[..to - from] == u && v[..to - from] == v;
    ZeroExactlyOnEqual(u, v);
    return 0;
  }

  lemma Differ(u: seq<real>, v: seq<real>, k: nat)
    requires k < |u| == |v| && u[k] != v[k] && u[..k] == v[..k]
    ensures Compare(u, v) == if u[k] > v[k] then 1 else -1
  {
    assert forall i :: 0 <= i < k ==> u[i] == u[..k][i] && v[i] == v[..k][i];
    FirstDifference(u, v, k);
  }

  /** cube_cmp_v0 */
  method CubeCmp(a: NDBox, b: NDBox) returns (c: int)
    ensures c == Order(a, b)
  {
    hide Compare, Lows, Highs;
    var dim, n := MinDim(a, b), MaxDim(a, b);
    KeyParts(a, b);
    c := CompareLows(a, b, 0, dim);
    if c != 0 {
      return c;
    }
    c := CompareHighs(a, b, 0, dim);
    if c != 0 {
      return c;
    }
    c := CompareLows(a, b, dim, n);
    if c != 0 {
      return c;
    }
    c := CompareHighs(a, b, dim, n);
    if c != 0 {
      return c;
    }
    return if a.dim > b.dim then 1 else if a.dim < b.dim then -1 else 0;
  }

  lemma KeyParts(a: NDBox, b: NDBox)
    ensures var m, n := MinDim(a, b), MaxDim(a, b);
            var c1 := Compare(Lows(a, 0, m), Lows(b, 0, m));
            var c2 := Compare(Highs(a, 0, m), Highs(b, 0, m));
            var c3 := Compare(Lows(a, m, n), Lows(b, m, n));
            var c4 := Compare(Highs(a, m, n), Highs(b, m, n));
            Compare(Key(a, b), Key(b, a)) == if c1 != 0 then c1 else if c2 != 0 then c2 else if c3 != 0 then c3 else c4
  {
    hide Compare, Lows, Highs;
    var m, n := MinDim(a, b), MaxDim(a, b);
    var a1, a2, a3, a4 := Lows(a, 0, m), Highs(a, 0, m), Lows(a, m, n), Highs(a, m, n);
    var b1, b2, b3, b4 := Lows(b, 0, m), Highs(b, 0, m), Lows(b, m, n), Highs(b, m, n);
    CompareParts(a1, b1, a2, b2);
    CompareParts(a1 + a2, b1 + b2, a3, b3);
    CompareParts(a1 + a2 + a3, b1 + b2 + b3, a4, b4);
  }

  lemma KeyAt(x: NDBox, y: NDBox, i: nat)
    requires i < 2 * MaxDim(x, y)
    ensures var m, n := MinDim(x, y), MaxDim(x, y);
            Key(x, y)[i] == if i < m then Lo(x, i) else if i < 2 * m then Hi(x, i - m)
                            else if i < m + n then Lo(x, i - m) else Hi(x, i - n)
  {
  }

  /** The k-th coordinate compared: lower and upper ends of the m common axes, then of the further ones up to n. */
  function Compared(x: NDBox, m: nat, n: nat, k: nat): real
    requires k < 2 * n && m <= n
  {
    if k < m then Lo(x, k) else if k < 2 * m then Hi(x, k - m) else if k < m + n then Lo(x, k - m) else Hi(x, k - n)
  }

  /** The first coordinate in which two boxes differ decides. */
  lemma FirstDifferenceDecides(a: NDBox, b: NDBox, k: nat)
    requires k < 2 * MaxDim(a, b)
    requires var m, n := MinDim(a, b), MaxDim(a, b);
             && Compared(a, m, n, k) != Compared(b, m, n, k)
             && forall i :: 0 <= i < k ==> Compared(a, m, n, i) == Compared(b, m, n, i)
    ensures Order(a, b)
         == if Compared(a, MinDim(a, b), MaxDim(a, b), k) < Compared(b, MinDim(a, b), MaxDim(a, b), k) then -1 else 1
  {
    hide Compare, Key, Lo, Hi;
    forall i | 0 <= i <= k
      ensures Key(a, b)[i] == Compared(a, MinDim(a, b), MaxDim(a, b), i)
      ensures Key(b, a)[i] == Compared(b, MinDim(a, b), MaxDim(a, b), i)
    {
      KeyAt(a, b, i);
      KeyAt(b, a, i);
    }
    FirstDifference(Key(a, b), Key(b, a), k);
  }

  /** Of boxes with the same ends, the one with fewer dimensions comes first. */
  lemma DimensionDecides(a: NDBox, b: NDBox)
    requires forall i: nat :: Lo(a, i) == Lo(b, i) && Hi(a, i) == Hi(b, i)
    ensures Order(a, b) == if a.dim < b.dim then -1 else if b.dim < a.dim then 1 else 0
  {
    hide Compare, Lo, Hi;
    assert Key(a, b) == Key(b, a);
    ZeroExactlyOnEqual(Key(a, b), Key(b, a));
  }

  ghost predicate SameBox(a: NDBox, b: NDBox) {
    a.dim == b.dim && forall i: nat :: Lo(a, i) == Lo(b, i) && Hi(a, i) == Hi(b, i)
  }

  /** Two boxes compare equal exactly when they are the same box. */
  lemma EqualExactlyOnSame(a: NDBox, b: NDBox)
    ensures Order(a, b) == 0 <==> SameBox(a, b)
  {
    if a.dim == b.dim {
      var n := a.dim;
      ZeroExactlyOnEqual(Key(a, b), Key(b, a));
      hide Compare, Key;
      forall i | 0 <= i < 2 * n
        ensures Key(a, b)[i] == if i < n then Lo(a, i) else Hi(a, i - n)
        ensures Key(b, a)[i] == if i < n then Lo(b, i) else Hi(b, i - n)
      {
        KeyAt(a, b, i);
        KeyAt(b, a, i);
      }
      if Key(a, b) == Key(b, a) {
        forall i: nat ensures Lo(a, i) == Lo(b, i) && Hi(a, i) == Hi(b, i) {
          if i < n {
            assert Key(a, b)[i] == Key(b, a)[i] && Key(a, b)[n + i] == Key(b, a)[n + i];
          }
        }
      }
    }
  }

  lemma Antisymmetric(a: NDBox, b: NDBox)
    ensures Order(a, b) == -Order(b, a)
  {
    hide Compare, Lows, Highs;
    CompareAntisymmetric(Key(a, b), Key(b, a));
  }

  // ---------- Boxes of different dimensions ----------

  function CommonKey(x: NDBox, m: nat, p: nat): (k: seq<real>)
    requires m <= p
    ensures |k| == 2 * p
  {
    Lows(x, 0, m) + Highs(x, 0, m) + Lows(x, m, p) + Highs(x, m, p)
  }

  /** x and y are of dimension m or p, and both of dimension p only if the order of their coordinates is the same. */
  predicate Fits(x: NDBox, y: NDBox, m: nat, p: nat) {
    && m <= p && (x.dim == m || x.dim == p) && (y.dim == m || y.dim == p)
    && (x.dim == y.dim == p ==> m == 0 || m == p)
  }

  lemma PastItsAxes(x: NDBox, m: nat, p: nat)
    requires x.dim <= m <= p
    ensures forall i :: 0 <= i < p - m ==> Lows(x, m, p)[i] == Highs(x, m, p)[i] == 0.0
  {
    forall i | 0 <= i < p - m ensures Lows(x, m, p)[i] == Highs(x, m, p)[i] == 0.0 {
      assert Lows(x, m, p)[i] == Lo(x, m + i) && Highs(x, m, p)[i] == Hi(x, m + i);
    }
  }

  lemma OrderByKey(x: NDBox, y: NDBox, m: nat, p: nat)
    requires Fits(x, y, m, p)
    ensures var c := Compare(CommonKey(x, m, p), CommonKey(y, m, p));
            Order(x, y) == if c != 0 then c else if x.dim > y.dim then 1 else if x.dim < y.dim then -1 else 0
  {
    hide Compare;
    if x.dim == y.dim == m {
      var tx, ty := Lows(x, m, p) + Highs(x, m, p), Lows(y, m, p) + Highs(y, m, p);
      PastItsAxes(x, m, p);
      PastItsAxes(y, m, p);
      assert tx == ty;
      ZeroExactlyOnEqual(tx, ty);
      CompareParts(Key(x, y), Key(y, x), tx, ty);
      assert CommonKey(x, m, p) == Key(x, y) + tx && CommonKey(y, m, p) == Key(y, x) + ty;
    } else if x.dim == y.dim {
      assert CommonKey(x, 0, p) == Key(x, y) && CommonKey(y, 0, p) == Key(y, x);
    }
  }

  /** Boxes that one key puts in order are transitively ordered. */
  lemma TransitiveByKey(a: NDBox, b: NDBox, c: NDBox, m: nat, p: nat)
    requires Fits(a, b, m, p) && Fits(b, c, m, p) && Fits(a, c, m, p) && Order(a, b) <= 0 && Order(b, c) <= 0
    ensures Order(a, c) <= 0
  {
    hide Compare, Order, CommonKey;
    var u, v, w := CommonKey(a, m, p), CommonKey(b, m, p), CommonKey(c, m, p);
    OrderByKey(a, b, m, p);
    OrderByKey(b, c, m, p);
    OrderByKey(a, c, m, p);
    CompareTransitive(u, v, w);
    if Compare(u, w) == 0 {
      ZeroExactlyOnEqual(u, w);
      CompareAntisymmetric(u, v);
    }
  }

  /** Among boxes of one dimension the order is transitive. */
  lemma TransitiveInOneDimension(a: NDBox, b: NDBox, c: NDBox)
    requires a.dim == b.dim == c.dim && Order(a, b) <= 0 && Order(b, c) <= 0
    ensures Order(a, c) <= 0
  {
    TransitiveByKey(a, b, c, a.dim, a.dim);
  }

  ghost predicate Circle(a: NDBox, b: NDBox, c: NDBox) {
    Order(a, b) < 0 && Order(b, c) < 0 && Order(c, a) < 0
  }

  /** The two smaller dimensions are the same, or the smallest is none at all and the two larger are the same. */
  predicate Mixable(m: nat, n: nat, p: nat) {
    m == n || (m == 0 && n == p)
  }

  lemma NoCircle(a: NDBox, b: NDBox, c: NDBox)
    requires a.dim <= b.dim <= c.dim && Mixable(a.dim, b.dim, c.dim)
    ensures !Circle(a, b, c) && !Circle(c, b, a)
  {
    hide Order;
    if Circle(a, b, c) {
      TransitiveByKey(a, b, c, a.dim, c.dim);
      Antisymmetric(a, c);
    }
    if Circle(c, b, a) {
      TransitiveByKey(c, b, a, a.dim, c.dim);
      Antisymmetric(a, c);
    }
  }

  /** A box at the origin but for its upper end on axis 0 and both its ends on axis k, if it has that axis. */
  function Spike(d: nat, top: real, k: nat, end: real): NDBox {
    Corners(d, seq(2 * d, i requires 0 <= i < 2 * d =>
                     var axis := if i < d then i else i - d;
                     if axis == k then end else if i == d then top else 0.0))
  }

  lemma SpikeAxes(d: nat, top: real, k: nat, end: real, i: nat)
    requires 0.0 <= top && 0 < k
    ensures Lo(Spike(d, top, k, end), i) == if i < d && i == k then end else 0.0
    ensures Hi(Spike(d, top, k, end), i) == if i < d && i == k then end else if i < d && i == 0 then top else 0.0
  {
  }

  /** Two spikes are told apart by their upper ends on axis 0, or by axis k, whichever is compared first. */
  lemma SpikeBelow(d: nat, top: real, end: real, d': nat, top': real, end': real, k: nat)
    requires 0 < k && 0.0 <= top && 0.0 <= top'
    ensures var x, y := Spike(d, top, k, end), Spike(d', top', k, end');
            var m, n := MinDim(x, y), MaxDim(x, y);
            && (0 < m <= k && top < top' ==> Order(x, y) < 0)
            && (m == 0 < n <= k && Hi(x, 0) < Hi(y, 0) ==> Order(x, y) < 0)
            && ((k < m || m == 0) && k < n && Lo(x, k) < Lo(y, k) ==> Order(x, y) < 0)
  {
    hide Key, Lo, Hi, Compare;
    var x, y := Spike(d, top, k, end), Spike(d', top', k, end');
    var m, n := MinDim(x, y), MaxDim(x, y);
    forall i | 0 <= i < 2 * n
      ensures i < m || (m == 0 && i < n) ==> Key(x, y)[i] == Lo(x, i) && Key(y, x)[i] == Lo(y, i)
      ensures (0 < m == i) || (m == 0 && i == n) ==> Key(x, y)[i] == Hi(x, 0) && Key(y, x)[i] == Hi(y, 0)
    {
      KeyAt(x, y, i);
      KeyAt(y, x, i);
    }
    forall i: nat
      ensures i < k ==> Lo(x, i) == Lo(y, i) == 0.0
      ensures i == 0 ==> Hi(x, i) == (if d == 0 then 0.0 else top) && Hi(y, i) == if d' == 0 then 0.0 else top'
    {
      SpikeAxes(d, top, k, end, i);
      SpikeAxes(d', top', k, end', i);
    }
    if 0 < m <= k && top < top' {
      FirstDifference(Key(x, y), Key(y, x), m);
    }
    if m == 0 < n <= k && Hi(x, 0) < Hi(y, 0) {
      FirstDifference(Key(x, y), Key(y, x), n);
    }
    if (k < m || m == 0) && k < n && Lo(x, k) < Lo(y, k) {
      FirstDifference(Key(x, y), Key(y, x), k);
    }
  }

  /** Any other mixture of dimensions holds a circle. */
  lemma SomeCircle(m: nat, n: nat, p: nat) returns (a: NDBox, b: NDBox, c: NDBox)
    requires m <= n <= p && !Mixable(m, n, p)
    ensures a.dim == m && b.dim == n && c.dim == p && Circle(a, b, c)
  {
    hide Order, Lo, Hi;
    if m == 0 {
      a, b, c := Spike(0, 0.0, n, 0.0), Spike(n, 1.0, n, 0.0), Spike(p, 2.0, n, -1.0);
      SpikeAxes(0, 0.0, n, 0.0, 0);
      SpikeAxes(n, 1.0, n, 0.0, 0);
      SpikeAxes(0, 0.0, n, 0.0, n);
      SpikeAxes(p, 2.0, n, -1.0, n);
      SpikeBelow(0, 0.0, 0.0, n, 1.0, 0.0, n);
      SpikeBelow(n, 1.0, 0.0, p, 2.0, -1.0, n);
      SpikeBelow(p, 2.0, -1.0, 0, 0.0, 0.0, n);
    } else {
      a, b, c := Spike(m, 2.0, m, 0.0), Spike(n, 3.0, m, 0.0), Spike(p, 1.0, m, 1.0);
      SpikeAxes(n, 3.0, m, 0.0, m);
      SpikeAxes(p, 1.0, m, 1.0, m);
      SpikeBelow(m, 2.0, 0.0, n, 3.0, 0.0, m);
      SpikeBelow(n, 3.0, 0.0, p, 1.0, 1.0, m);
      SpikeBelow(p, 1.0, 1.0, m, 2.0, 0.0, m);
    }
  }

  /** Boxes of three dimensions never compare in a circle exactly when the dimensions are mixable. */
  lemma NoCircleExactly(m: nat, n: nat, p: nat)
    requires m <= n <= p
    ensures (forall a: NDBox, b: NDBox, c: NDBox :: a.dim == m && b.dim == n && c.dim == p ==>
               !Circle(a, b, c) && !Circle(c, b, a))
       <==> Mixable(m, n, p)
  {
    hide Circle;
    if Mixable(m, n, p) {
      forall a: NDBox, b: NDBox, c: NDBox | a.dim == m && b.dim == n && c.dim == p
        ensures !Circle(a, b, c) && !Circle(c, b, a)
      {
        NoCircle(a, b, c);
      }
    } else {
      var a, b, c := SomeCircle(m, n, p);
    }
  }
}
