/**
 The distance between boxes before its square root is taken (cube_distance): the least
 squared distance between a point of one padded box and a point of the other.
 */
module CubeDistance {
  import opened Cubes

  /** distance_1D */
  function Distance1D(a1: real, a2: real, b1: real, b2: real): real {
    if a1 <= b1 && a2 <= b1 && a1 <= b2 && a2 <= b2 then Min(b1, b2) - Max(a1, a2)
    else if a1 > b1 && a2 > b1 && a1 > b2 && a2 > b2 then Min(a1, a2) - Max(b1, b2)
    else 0.0
  }

  /** The gap between two intervals, zero when they meet. */
  function Gap(aLo: real, aHi: real, bLo: real, bHi: real): real {
    if aHi < bLo then bLo - aHi else if bHi < aLo then aLo - bHi else 0.0
  }

  lemma Distance1DIsGap(a1: real, a2: real, b1: real, b2: real)
    ensures Distance1D(a1, a2, b1, b2) == Gap(Min(a1, a2), Max(a1, a2), Min(b1, b2), Max(b1, b2))
  {
  }

  function AxisGap(a: NDBox, b: NDBox, i: nat): real {
    Gap(Lo(a, i), Hi(a, i), Lo(b, i), Hi(b, i))
  }

  function Square(r: real): real {
    r * r
  }

  function SumOfSquares(a: NDBox, b: NDBox, n: nat): real {
    if n == 0 then 0.0 else SumOfSquares(a, b, n - 1) + Square(AxisGap(a, b, n - 1))
  }

  function SquaredDistance(p: seq<real>, q: seq<real>): real
    requires |p| == |q|
  {
    if p == [] then 0.0
    else SquaredDistance(p[..|p| - 1], q[..|p| - 1]) + Square(p[|p| - 1] - q[|p| - 1])
  }

  /** cube_distance, up to the square root */
  method CubeDistanceSquared(a0: NDBox, b0: NDBox) returns (distance: real)
    ensures distance == SumOfSquares(a0, b0, MaxDim(a0, b0))
  {
    hide Distance1D, Gap, Square;
    var a, b := a0, b0;
    GapSymmetric(a0, b0, MaxDim(a0, b0));
    if a.dim < b.dim {
      a, b := b, a;
    }
    distance := 0.0;
    for i := 0 to b.dim
      invariant distance == SumOfSquares(a, b, i)
    {
      Distance1DIsGap(a.x[i], a.x[i + a.dim], b.x[i], b.x[i + b.dim]);
      var d := Distance1D(a.x[i], a.x[i + a.dim], b.x[i], b.x[i + b.dim]);
      assert d == AxisGap(a, b, i);
      distance := distance + Square(d);
    }
    for i := b.dim to a.dim
      invariant distance == SumOfSquares(a, b, i)
    {
      Distance1DIsGap(a.x[i], a.x[i + a.dim], 0.0, 0.0);
      var d := Distance1D(a.x[i], a.x[i + a.dim], 0.0, 0.0);
      assert d == AxisGap(a, b, i);
      distance := distance + Square(d);
    }
  }

  lemma {:induction false} GapSymmetric(a: NDBox, b: NDBox, n: nat)
    ensures SumOfSquares(a, b, n) == SumOfSquares(b, a, n)
  {
    hide Square;
    if 0 < n {
      GapSymmetric(a, b, n - 1);
      assert AxisGap(a, b, n - 1) == AxisGap(b, a, n - 1);
    }
  }

  lemma Symmetric(a: NDBox, b: NDBox)
    ensures SumOfSquares(a, b, MaxDim(a, b)) == SumOfSquares(b, a, MaxDim(b, a))
  {
    GapSymmetric(a, b, MaxDim(a, b));
  }

  lemma SquareMonotone(g: real, d: real)
    requires 0.0 <= g && (g <= d || g <= -d)
    ensures Square(g) <= Square(d)
  {
  }

  /** No pair of points is closer. */
  lemma {:induction false} NoCloserPoints(a: NDBox, b: NDBox, p: seq<real>, q: seq<real>)
    requires |p| == |q| && In(p, a) && In(q, b)
    ensures SumOfSquares(a, b, |p|) <= SquaredDistance(p, q)
  {
    hide Square;
    if p != [] {
      var k := |p| - 1;
      NoCloserPoints(a, b, p[..k], q[..k]);
      SquareMonotone(AxisGap(a, b, k), p[k] - q[k]);
    }
  }

  /** Some pair of points is exactly that close. */
  lemma {:induction false} ClosestPoints(a: NDBox, b: NDBox, n: nat) returns (p: seq<real>, q: seq<real>)
    ensures |p| == |q| == n && In(p, a) && In(q, b)
    ensures SquaredDistance(p, q) == SumOfSquares(a, b, n)
  {
    hide Square, Gap;
    if n == 0 {
      p, q := [], [];
    } else {
      var k := n - 1;
      p, q := ClosestPoints(a, b, k);
      assert Lo(a, k) <= Hi(a, k) && Lo(b, k) <= Hi(b, k);
      hide Lo, Hi, In, SquaredDistance;
      var x, y := AxisPoints(Lo(a, k), Hi(a, k), Lo(b, k), Hi(b, k));
      OneMoreAxis(p, q, x, y);
      InOneMore(p, a, x);
      InOneMore(q, b, y);
      p, q := p + [x], q + [y];
    }
  }

  lemma OneMoreAxis(p: seq<real>, q: seq<real>, x: real, y: real)
    requires |p| == |q|
    ensures SquaredDistance(p + [x], q + [y]) == SquaredDistance(p, q) + Square(x - y)
  {
  }

  lemma InOneMore(p: seq<real>, b: NDBox, x: real)
    requires In(p, b) && Lo(b, |p|) <= x <= Hi(b, |p|)
    ensures In(p + [x], b)
  {
  }

  /** With the square root taken, the distance is no more than that between any two points. */
  lemma RootIsLeast(a: NDBox, b: NDBox, p: seq<real>, q: seq<real>, distance: real, apart: real)
    requires |p| == |q| == MaxDim(a, b) && In(p, a) && In(q, b) && 0.0 <= distance && 0.0 <= apart
    requires Square(distance) == SumOfSquares(a, b, MaxDim(a, b)) && Square(apart) == SquaredDistance(p, q)
    ensures distance <= apart
  {
    hide Square;
    NoCloserPoints(a, b, p, q);
    if apart < distance {
      SquareGrows(apart, distance);
    }
  }

  lemma SquareGrows(g: real, d: real)
    requires 0.0 <= g < d
    ensures Square(g) < Square(d)
  {
    var z := PositiveProduct(d - g, d + g);
    assert z == d * d - g * g;
  }

  lemma AxisPoints(aLo: real, aHi: real, bLo: real, bHi: real) returns (x: real, y: real)
    requires aLo <= aHi && bLo <= bHi
    ensures aLo <= x <= aHi && bLo <= y <= bHi
    ensures Square(x - y) == Square(Gap(aLo, aHi, bLo, bHi))
  {
    if aHi < bLo {
      x, y := aHi, bLo;
      SquareNegated(x - y, bLo - aHi);
    } else if bHi < aLo {
      x, y := aLo, bHi;
    } else {
      x := Max(aLo, bLo);
      y := x;
    }
  }

  lemma SquareNegated(u: real, v: real)
    requires u == -v
    ensures Square(u) == Square(v)
  {
  }

  /** The distance is zero exactly when the boxes overlap. */
  lemma ZeroExactlyOnOverlap(a: NDBox, b: NDBox)
    ensures SumOfSquares(a, b, MaxDim(a, b)) == 0.0 <==> Overlaps(a, b)
  {
    hide SumOfSquares;
    var n := MaxDim(a, b);
    ZeroSum(a, b, n);
    forall i: nat ensures AxisGap(a, b, i) == 0.0 <==> Lo(a, i) <= Hi(b, i) && Lo(b, i) <= Hi(a, i) {
    }
  }

  lemma {:induction false} ZeroSum(a: NDBox, b: NDBox, n: nat)
    ensures 0.0 <= SumOfSquares(a, b, n)
    ensures SumOfSquares(a, b, n) == 0.0 <==> forall i :: 0 <= i < n ==> AxisGap(a, b, i) == 0.0
  {
    hide Square, AxisGap;
    if 0 < n {
      ZeroSum(a, b, n - 1);
      SquareZero(AxisGap(a, b, n - 1));
    }
  }

  lemma SquareZero(g: real)
    ensures 0.0 <= Square(g) && (Square(g) == 0.0 <==> g == 0.0)
    decreases g < 0.0
  {
    if g < 0.0 {
      SquareNegated(g, -g);
      SquareZero(-g);
    } else if g > 0.0 {
      var z := PositiveProduct(g, g);
    }
  }

  lemma PositiveProduct(x: real, y: real) returns (z: real)
    requires 0.0 < x && 0.0 < y
    ensures z == x * y && 0.0 < z
  {
    z := x * y;
  }

  // ---------- The distance of points is Euclidean ----------

  function Negated(p: seq<real>): (q: seq<real>)
    ensures |q| == |p|
  {
    seq(|p|, i requires 0 <= i < |p| => -p[i])
  }

  function Origin(n: nat): (p: seq<real>)
    ensures |p| == n
  {
    seq(n, _ => 0.0)
  }

  function Scaled(p: seq<real>, k: real): (q: seq<real>)
    ensures |q| == |p|
  {
    seq(|p|, i requires 0 <= i < |p| => Times(k, p[i]))
  }

  lemma SquareOfSumAndDifference(x: real, y: real)
    ensures Square(x - y) + Square(x + y) == 2.0 * (Square(x) + Square(y))
  {
  }

  /** The parallelogram law. */
  lemma {:induction false} Parallelogram(p: seq<real>, q: seq<real>)
    requires |p| == |q|
    ensures SquaredDistance(p, q) + SquaredDistance(p, Negated(q))
         == 2.0 * (SquaredDistance(p, Origin(|p|)) + SquaredDistance(q, Origin(|q|)))
  {
    if p != [] {
      var n := |p| - 1;
      Parallelogram(p[..n], q[..n]);
      assert Negated(q)[..n] == Negated(q[..n]) && Origin(|p|)[..n] == Origin(n);
      hide Square;
      SquareOfSumAndDifference(p[n], q[n]);
    }
  }

  lemma SquareOfProduct(k: real, x: real, y: real)
    ensures Square(Times(k, x) - Times(k, y)) == k * k * Square(x - y)
  {
    calc {
      Square(Times(k, x) - Times(k, y));
    == { assert k * x - k * y == k * (x - y); }
      k * (x - y) * (k * (x - y));
    == { Regroup(k, x - y); }
      k * k * Square(x - y);
    }
  }

  lemma Regroup(k: real, d: real)
    ensures k * d * (k * d) == k * k * (d * d)
  {
  }

  /** Scaled by k, points are k times as far apart: the squared distance grows by k squared. */
  lemma {:induction false} ScaledDistance(p: seq<real>, q: seq<real>, k: real)
    requires |p| == |q|
    ensures SquaredDistance(Scaled(p, k), Scaled(q, k)) == k * k * SquaredDistance(p, q)
  {
    if p != [] {
      hide Times;
      var n := |p| - 1;
      ScaledDistance(p[..n], q[..n], k);
      assert Scaled(p, k)[..n] == Scaled(p[..n], k) && Scaled(q, k)[..n] == Scaled(q[..n], k);
      hide Square;
      SquareOfProduct(k, p[n], q[n]);
    }
  }

  /** Along one axis, points one apart are at distance one. */
  lemma UnitDistance()
    ensures SquaredDistance([0.0], [1.0]) == 1.0
  {
    assert SquaredDistance([0.0][..0], [1.0][..0]) == 0.0;
  }
}
