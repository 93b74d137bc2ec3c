/**
 N-dimensional boxes (cube.c).  A box lists two opposite corners, in either order; boxes of
 different dimension are compared as if the missing coordinates were zero.  Coordinates are
 reals here: rounding and NaN are not modelled.
 */
module Cubes {
  datatype Corners = Corners(dim: nat, x: seq<real>)

  type NDBox = b: Corners | |b.x| == 2 * b.dim witness Corners(0, [])

  function Min(a: real, b: real): real {
    if a < b then a else b
  }

  function Max(a: real, b: real): real {
    if a > b then a else b
  }

  /** A product by name, so that proofs can leave its arithmetic aside. */
  function Times(x: real, y: real): real {
    x * y
  }

  function MaxDim(a: NDBox, b: NDBox): nat {
    if a.dim < b.dim then b.dim else a.dim
  }

  /** The lower and upper coordinate along axis i, zero past the box's own dimensions. */
  function Lo(b: NDBox, i: nat): real {
    if i < b.dim then Min(b.x[i], b.x[b.dim + i]) else 0.0
  }

  function Hi(b: NDBox, i: nat): real {
    if i < b.dim then Max(b.x[i], b.x[b.dim + i]) else 0.0
  }

  /** The point p, of any number of coordinates, lies in the zero-padded box. */
  ghost predicate In(p: seq<real>, b: NDBox) {
    forall i :: 0 <= i < |p| ==> Lo(b, i) <= p[i] <= Hi(b, i)
  }

  /** Between the corners along every axis the box has, and at zero along any other. */
  lemma InExactly(p: seq<real>, b: NDBox)
    ensures In(p, b) <==> forall i :: 0 <= i < |p| ==> BetweenCorners(p[i], b, i)
  {
    forall i | 0 <= i < |p| ensures BetweenCorners(p[i], b, i) <==> Lo(b, i) <= p[i] <= Hi(b, i) {
    }
  }

  predicate BetweenCorners(c: real, b: NDBox, i: nat) {
    if i < b.dim then b.x[i] <= c <= b.x[b.dim + i] || b.x[b.dim + i] <= c <= b.x[i] else c == 0.0
  }

  // ---------- Union ----------

  /** Every axis of b lies within that of a. */
  ghost predicate Covers(a: NDBox, b: NDBox) {
    forall i: nat :: Lo(a, i) <= Lo(b, i) && Hi(b, i) <= Hi(a, i)
  }

  function Union(a: NDBox, b: NDBox): NDBox {
    var d := MaxDim(a, b);
    Corners(d, seq(2 * d, k requires 0 <= k < 2 * d =>
                     if k < d then Min(Lo(a, k), Lo(b, k)) else Max(Hi(a, k - d), Hi(b, k - d))))
  }

  lemma UnionAxes(a: NDBox, b: NDBox, i: nat)
    ensures Lo(Union(a, b), i) == Min(Lo(a, i), Lo(b, i)) && Hi(Union(a, b), i) == Max(Hi(a, i), Hi(b, i))
  {
    var u := Union(a, b);
    if i < u.dim {
      assert u.x[i] == Min(Lo(a, i), Lo(b, i)) && u.x[u.dim + i] == Max(Hi(a, i), Hi(b, i));
    }
  }

  /** The union is the least box that covers both. */
  lemma UnionIsLeast(a: NDBox, b: NDBox)
    ensures Covers(Union(a, b), a) && Covers(Union(a, b), b)
    ensures forall c: NDBox :: Covers(c, a) && Covers(c, b) ==> Covers(c, Union(a, b))
  {
    forall i: nat
      ensures Lo(Union(a, b), i) == Min(Lo(a, i), Lo(b, i)) && Hi(Union(a, b), i) == Max(Hi(a, i), Hi(b, i))
    {
      UnionAxes(a, b, i);
    }
  }

  /** The smaller box, padded with zeroes to the dimension of the result. */
  method FillIn(b: NDBox, d: nat, x: array<real>)
    requires b.dim <= d && x.Length == 2 * d
    modifies x
    ensures forall k :: 0 <= k < d ==> x[k] == Lo(b, k) && x[d + k] == Hi(b, k)
  {
    for i := 0 to b.dim
      invariant forall k :: 0 <= k < i ==> x[k] == Lo(b, k) && x[d + k] == Hi(b, k)
    {
      x[i] := Min(b.x[i], b.x[i + b.dim]);
      x[i + d] := Max(b.x[i], b.x[i + b.dim]);
    }
    for i := b.dim to d
      invariant forall k :: 0 <= k < i ==> x[k] == Lo(b, k) && x[d + k] == Hi(b, k)
    {
      x[i] := 0.0;
      x[i + d] := 0.0;
    }
  }

  /** Widens every axis to take in the larger box. */
  method Widen(a: NDBox, ghost b: NDBox, x: array<real>)
    requires x.Length == 2 * a.dim
    requires forall k :: 0 <= k < a.dim ==> x[k] == Lo(b, k) && x[a.dim + k] == Hi(b, k)
    modifies x
    ensures forall k :: 0 <= k < a.dim ==> x[k] == Min(Lo(a, k), Lo(b, k)) && x[a.dim + k] == Max(Hi(a, k), Hi(b, k))
  {
    var d := a.dim;
    for i := 0 to d
      invariant forall k :: 0 <= k < i ==> x[k] == Min(Lo(a, k), Lo(b, k)) && x[d + k] == Max(Hi(a, k), Hi(b, k))
      invariant forall k :: i <= k < d ==> x[k] == Lo(b, k) && x[d + k] == Hi(b, k)
    {
      var lo := Min(Min(a.x[i], a.x[i + d]), x[i]);
      var hi := Max(Max(a.x[i], a.x[i + d]), x[i + d]);
      assert lo == Min(Lo(a, i), Lo(b, i)) && hi == Max(Hi(a, i), Hi(b, i));
      hide Lo, Hi, Min, Max;
      x[i] := lo;
      x[i + d] := hi;
    }
  }

  /** cube_union_v0 */
  method CubeUnion(a0: NDBox, b0: NDBox) returns (r: NDBox)
    ensures r == Union(a0, b0)
  {
    var a, b := a0, b0;
    if a.dim < b.dim {
      a, b := b, a;
    }
    var d := a.dim;
    var x := new real[2 * d];
    FillIn(b, d, x);
    Widen(a, b, x);
    r := Corners(d, x[..]);
    SameAxes(x[..], a0, b0, d);
  }

  lemma SameAxes(x: seq<real>, a: NDBox, b: NDBox, d: nat)
    requires d == MaxDim(a, b) && |x| == 2 * d
    requires forall k :: 0 <= k < d ==> x[k] == Min(Lo(a, k), Lo(b, k)) && x[d + k] == Max(Hi(a, k), Hi(b, k))
    ensures Corners(d, x) == Union(a, b)
  {
  }

  // ---------- Containment ----------

  /** b lies within a along every axis b has; a's further axes do not matter. */
  ghost predicate Contains(a: NDBox, b: NDBox) {
    forall i :: 0 <= i < b.dim ==> Lo(a, i) <= Lo(b, i) && Hi(b, i) <= Hi(a, i)
  }

  /** cube_contains_v0 */
  method CubeContains(a: NDBox, b: NDBox) returns (r: bool)
    ensures r <==> Contains(a, b)
  {
    if a.dim < b.dim {
      for i := a.dim to b.dim
        invariant forall k :: a.dim <= k < i ==> Lo(b, k) == Hi(b, k) == 0.0
      {
        if b.x[i] != 0.0 {
          assert !(0.0 <= Lo(b, i) && Hi(b, i) <= 0.0);
          return false;
        }
        if b.x[i + b.dim] != 0.0 {
          assert !(0.0 <= Lo(b, i) && Hi(b, i) <= 0.0);
          return false;
        }
      }
    }
    var common := if a.dim < b.dim then a.dim else b.dim;
    for i := 0 to common
      invariant forall k :: 0 <= k < i ==> Lo(a, k) <= Lo(b, k) && Hi(b, k) <= Hi(a, k)
    {
      if Min(a.x[i], a.x[a.dim + i]) > Min(b.x[i], b.x[b.dim + i]) {
        assert Lo(a, i) > Lo(b, i);
        return false;
      }
      if Max(a.x[i], a.x[a.dim + i]) < Max(b.x[i], b.x[b.dim + i]) {
        assert Hi(a, i) < Hi(b, i);
        return false;
      }
    }
    return true;
  }

  function LoCorner(b: NDBox, n: nat): (p: seq<real>)
    ensures |p| == n
  {
    seq(n, i requires 0 <= i < n => Lo(b, i))
  }

  function HiCorner(b: NDBox, n: nat): (p: seq<real>)
    ensures |p| == n
  {
    seq(n, i requires 0 <= i < n => Hi(b, i))
  }

  lemma CornersAreIn(b: NDBox, n: nat)
    ensures In(LoCorner(b, n), b) && In(HiCorner(b, n), b)
  {
  }

  /** Containment in terms of points: every point of b, in b's own dimensions, is in a. */
  lemma ContainsPoints(a: NDBox, b: NDBox)
    ensures Contains(a, b) <==> forall p: seq<real> :: |p| == b.dim && In(p, b) ==> In(p, a)
  {
    if forall p: seq<real> :: |p| == b.dim && In(p, b) ==> In(p, a) {
      CornersAreIn(b, b.dim);
      var l, h := LoCorner(b, b.dim), HiCorner(b, b.dim);
      assert In(l, a) && In(h, a);
      forall i | 0 <= i < b.dim ensures Lo(a, i) <= Lo(b, i) && Hi(b, i) <= Hi(a, i) {
        assert Lo(a, i) <= l[i] && h[i] <= Hi(a, i);
      }
    }
  }

  // ---------- Overlap ----------

  ghost predicate Overlaps(a: NDBox, b: NDBox) {
    forall i: nat :: Lo(a, i) <= Hi(b, i) && Lo(b, i) <= Hi(a, i)
  }

  /** cube_overlap_v0 */
  method CubeOverlap(a0: NDBox, b0: NDBox) returns (r: bool)
    ensures r <==> Overlaps(a0, b0)
  {
    var a, b := a0, b0;
    if a.dim < b.dim {
      a, b := b, a;
    }
    for i := 0 to b.dim
      invariant forall k :: 0 <= k < i ==> Lo(a, k) <= Hi(b, k) && Lo(b, k) <= Hi(a, k)
    {
      if Min(a.x[i], a.x[a.dim + i]) > Max(b.x[i], b.x[b.dim + i]) {
        assert Lo(a, i) > Hi(b, i);
        return false;
      }
      if Max(a.x[i], a.x[a.dim + i]) < Min(b.x[i], b.x[b.dim + i]) {
        assert Hi(a, i) < Lo(b, i);
        return false;
      }
    }
    for i := b.dim to a.dim
      invariant forall k :: 0 <= k < i ==> Lo(a, k) <= Hi(b, k) && Lo(b, k) <= Hi(a, k)
    {
      if Min(a.x[i], a.x[a.dim + i]) > 0.0 {
        assert Lo(a, i) > Hi(b, i);
        return false;
      }
      if Max(a.x[i], a.x[a.dim + i]) < 0.0 {
        assert Hi(a, i) < Lo(b, i);
        return false;
      }
    }
    return true;
  }

  /** Overlap in terms of points: the two padded boxes have one in common. */
  lemma OverlapsPoints(a: NDBox, b: NDBox)
    ensures Overlaps(a, b) <==> exists p: seq<real> :: |p| == MaxDim(a, b) && In(p, a) && In(p, b)
  {
    var n := MaxDim(a, b);
    if Overlaps(a, b) {
      var p := seq(n, i requires 0 <= i < n => Max(Lo(a, i), Lo(b, i)));
      assert |p| == n && In(p, a) && In(p, b);
    }
    if p: seq<real> :| |p| == n && In(p, a) && In(p, b) {
      forall i: nat ensures Lo(a, i) <= Hi(b, i) && Lo(b, i) <= Hi(a, i) {
        if i < n {
          assert Lo(a, i) <= p[i] <= Hi(b, i) && Lo(b, i) <= p[i] <= Hi(a, i);
        }
      }
    }
  }

  // ---------- Intersection ----------

  /** cube_inter */
  function Intersection(a: NDBox, b: NDBox): NDBox {
    var d := MaxDim(a, b);
    Corners(d, seq(2 * d, k requires 0 <= k < 2 * d =>
                     if k < d then Max(Lo(a, k), Lo(b, k)) else Min(Hi(a, k - d), Hi(b, k - d))))
  }

  lemma IntersectionAxes(a: NDBox, b: NDBox, i: nat)
    requires Overlaps(a, b)
    ensures Lo(Intersection(a, b), i) == Max(Lo(a, i), Lo(b, i))
    ensures Hi(Intersection(a, b), i) == Min(Hi(a, i), Hi(b, i))
  {
    var c := Intersection(a, b);
    assert Lo(a, i) <= Hi(b, i) && Lo(b, i) <= Hi(a, i);
    if i < c.dim {
      assert c.x[i] == Max(Lo(a, i), Lo(b, i)) && c.x[c.dim + i] == Min(Hi(a, i), Hi(b, i));
    }
  }

  /** Of boxes that overlap, the intersection holds exactly the points that both hold. */
  lemma IntersectionPoints(a: NDBox, b: NDBox, p: seq<real>)
    requires Overlaps(a, b)
    ensures In(p, Intersection(a, b)) <==> In(p, a) && In(p, b)
  {
    hide Intersection, Lo, Hi;
    forall i | 0 <= i < |p|
      ensures Lo(Intersection(a, b), i) <= p[i] <= Hi(Intersection(a, b), i)
         <==> Lo(a, i) <= p[i] <= Hi(a, i) && Lo(b, i) <= p[i] <= Hi(b, i)
    {
      IntersectionAxes(a, b, i);
    }
  }
}
