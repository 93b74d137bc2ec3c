/**
 Why a bounded search may skip most of the edit-distance matrix.

 From a cell (i, j) at least `Residual` more must be paid to reach the corner, to make
 up the difference in what is left of the two strings.  A cell is `Alive` when its value
 plus that residual is within the bound.  The band that levenshtein_less_equal keeps
 holds a `Faithful` number in every cell it reads: one that passes the bound test exactly
 when the cell is alive, and is then the true value.  (A dead cell may hold anything that
 fails the test, and the sentinel may well be smaller than the true value.)
 */
module EditBand {
  import opened EditDistance
  import opened Integers

  /** The least cost left at (i, j) when m characters are to become n characters. */
  function Residual(m: int, n: int, i: int, j: int, c: Costs): int {
    var zeroPoint := j - (n - m);
    var netInserts := i - zeroPoint;
    if netInserts > 0 then netInserts * c.ins else -netInserts * c.del
  }

  predicate Alive<C(==)>(s: seq<C>, t: seq<C>, i: nat, j: nat, c: Costs, maxD: int)
    requires i <= |s| && j <= |t|
  {
    Cell(s, t, i, j, c) + Residual(|s|, |t|, i, j, c) <= maxD
  }

  predicate Faithful<C(==)>(v: int, s: seq<C>, t: seq<C>, i: nat, j: nat, c: Costs, maxD: int)
    requires i <= |s| && j <= |t|
  {
    && (v + Residual(|s|, |t|, i, j, c) <= maxD <==> Alive(s, t, i, j, c, maxD))
    && (Alive(s, t, i, j, c, maxD) ==> v == Cell(s, t, i, j, c))
  }

  /** In row j, no column in [from, to) is alive. */
  ghost predicate Dead<C>(s: seq<C>, t: seq<C>, from: nat, to: nat, j: nat, c: Costs, maxD: int)
    requires to <= |s| + 1 && j <= |t|
  {
    forall k :: from <= k < to ==> !Alive(s, t, k, j, c, maxD)
  }

  // ---------- The residual ----------

  /** The residual never falls by more than the operation costs, and not at all along a diagonal. */
  lemma ResidualSteps(m: int, n: int, i: int, j: int, c: Costs)
    requires c.Balanced()
    ensures Residual(m, n, i - 1, j, c) <= Residual(m, n, i, j, c) + c.del
    ensures Residual(m, n, i, j - 1, c) <= Residual(m, n, i, j, c) + c.ins
    ensures Residual(m, n, i - 1, j - 1, c) == Residual(m, n, i, j, c)
  {
  }

  lemma ResidualNonNegative(m: int, n: int, i: int, j: int, c: Costs)
    requires c.NonNegative()
    ensures 0 <= Residual(m, n, i, j, c)
  {
  }

  /** The corner has no residual; the origin's residual bounds every route from below. */
  lemma {:induction false} ResidualBoundsCell<C>(s: seq<C>, t: seq<C>, i: nat, j: nat, c: Costs)
    requires i <= |s| && j <= |t| && c.Balanced()
    ensures Residual(|s|, |t|, 0, 0, c) <= Cell(s, t, i, j, c) + Residual(|s|, |t|, i, j, c)
    decreases i + j
  {
    hide Cell, Residual;
    ResidualSteps(|s|, |t|, i, j, c);
    var op := LastOp(s, t, i, j, c);
    match op
    case Nothing =>
    case Insertion => ResidualBoundsCell(s, t, i, j - 1, c);
    case Deletion => ResidualBoundsCell(s, t, i - 1, j, c);
    case Diagonal => ResidualBoundsCell(s, t, i - 1, j - 1, c);
  }

  // ---------- The bounds computed before any row is filled ----------

  /** Paying for the difference in length is unavoidable. */
  lemma TheoreticalMinimum<C>(s: seq<C>, t: seq<C>, c: Costs)
    requires c.Balanced()
    ensures Residual(|s|, |t|, 0, 0, c) <= Distance(s, t, c)
  {
    ResidualBoundsCell(s, t, |s|, |t|, c);
  }

  /** Substituting along the shorter string and then growing or shrinking is always possible. */
  lemma {:induction false} TheoreticalMaximum<C>(s: seq<C>, t: seq<C>, i: nat, j: nat, c: Costs)
    requires i <= |s| && j <= |t| && c.NonNegative()
    ensures Cell(s, t, i, j, c) <= (if j < i then (i - j) * c.del else (j - i) * c.ins) + c.sub * Min(i, j)
    decreases i + j
  {
    hide Cell;
    if i == 0 {
      FirstColumn(s, t, j, c);
    } else if j == 0 {
      FirstRow(s, t, i, c);
    } else {
      OneStep(s, t, i, j, c);
      TheoreticalMaximum(s, t, i - 1, j - 1, c);
      assert c.sub * Min(i, j) == c.sub * Min(i - 1, j - 1) + c.sub;
    }
  }

  function CappedSub(c: Costs): Costs {
    if c.ins + c.del < c.sub then c.(sub := c.ins + c.del) else c
  }

  /** A substitution dearer than a deletion and an insertion is never needed. */
  lemma {:induction false} CapChangesNothing<C>(s: seq<C>, t: seq<C>, i: nat, j: nat, c: Costs)
    requires i <= |s| && j <= |t|
    ensures Cell(s, t, i, j, CappedSub(c)) == Cell(s, t, i, j, c)
    decreases i + j
  {
    hide Cell;
    if i == 0 {
      FirstColumn(s, t, j, c);
      FirstColumn(s, t, j, CappedSub(c));
    } else if j == 0 {
      FirstRow(s, t, i, c);
      FirstRow(s, t, i, CappedSub(c));
    } else {
      CapChangesNothing(s, t, i - 1, j, c);
      CapChangesNothing(s, t, i, j - 1, c);
      CapChangesNothing(s, t, i - 1, j - 1, c);
      InnerCell(s, t, i, j, c);
      InnerCell(s, t, i, j, CappedSub(c));
      OneStep(s, t, i, j - 1, c);
      CapStep(Cell(s, t, i, j - 1, c), Cell(s, t, i - 1, j, c), Cell(s, t, i - 1, j - 1, c), s[i - 1] == t[j - 1], c);
    }
  }

  lemma CapStep(above: int, left: int, diagonal: int, same: bool, c: Costs)
    requires above <= diagonal + c.del
    ensures Step(above, left, diagonal, same, CappedSub(c)) == Step(above, left, diagonal, same, c)
  {
  }

  // ---------- Values never fall along a diagonal ----------

  lemma {:induction false} Neighbours<C>(s: seq<C>, t: seq<C>, i: nat, j: nat, c: Costs)
    requires i <= |s| && j <= |t| && c.NonNegative()
    ensures 0 < i ==> Cell(s, t, i - 1, j, c) <= Cell(s, t, i, j, c) + c.ins
    ensures 0 < j ==> Cell(s, t, i, j - 1, c) <= Cell(s, t, i, j, c) + c.del
    decreases i + j
  {
    hide Cell;
    var op := LastOp(s, t, i, j, c);
    match op
    case Nothing =>
    case Insertion =>
      Neighbours(s, t, i, j - 1, c);
      if 0 < i { OneStep(s, t, i - 1, j, c); }
    case Deletion =>
      Neighbours(s, t, i - 1, j, c);
      if 0 < j { OneStep(s, t, i, j - 1, c); }
    case Diagonal =>
      OneStep(s, t, i - 1, j, c);
      OneStep(s, t, i, j - 1, c);
  }

  lemma DiagonalMonotone<C>(s: seq<C>, t: seq<C>, i: nat, j: nat, c: Costs)
    requires 0 < i <= |s| && 0 < j <= |t| && c.NonNegative()
    ensures Cell(s, t, i - 1, j - 1, c) <= Cell(s, t, i, j, c)
  {
    hide Cell;
    var op := LastOp(s, t, i, j, c);
    match op
    case Nothing =>
    case Insertion => Neighbours(s, t, i, j - 1, c);
    case Deletion => Neighbours(s, t, i - 1, j, c);
    case Diagonal =>
  }

  // ---------- Where the alive cells are ----------

  /** Every alive cell but the origin is reached from an alive cell. */
  lemma AlivePredecessor<C>(s: seq<C>, t: seq<C>, i: nat, j: nat, c: Costs, maxD: int)
    requires i <= |s| && j <= |t| && c.NonNegative() && Alive(s, t, i, j, c, maxD)
    ensures || (i == 0 && j == 0)
            || (0 < j && Alive(s, t, i, j - 1, c, maxD))
            || (0 < i && Alive(s, t, i - 1, j, c, maxD))
            || (0 < i && 0 < j && Alive(s, t, i - 1, j - 1, c, maxD))
  {
    hide Cell, Residual;
    ResidualSteps(|s|, |t|, i, j, c);
    var op := LastOp(s, t, i, j, c);
  }

  /** What is dead below `start` in one row stays dead in the next. */
  lemma DeadOnTheLeft<C>(s: seq<C>, t: seq<C>, start: nat, j: nat, c: Costs, maxD: int)
    requires start <= |s| + 1 && 0 < j <= |t| && c.NonNegative()
    requires Dead(s, t, 0, start, j - 1, c, maxD)
    ensures Dead(s, t, 0, start, j, c, maxD)
  {
    hide Cell, Residual, Alive;
    for k := 0 to start
      invariant Dead(s, t, 0, k, j, c, maxD)
    {
      if Alive(s, t, k, j, c, maxD) {
        AlivePredecessor(s, t, k, j, c, maxD);
      }
    }
  }

  /** Along a diagonal what is dead stays dead, so a band grows by one column at most. */
  lemma DeadOnTheRight<C>(s: seq<C>, t: seq<C>, stop: nat, j: nat, c: Costs, maxD: int)
    requires stop <= |s| && 0 < j <= |t| && c.NonNegative()
    requires Dead(s, t, stop, |s| + 1, j - 1, c, maxD)
    ensures Dead(s, t, stop + 1, |s| + 1, j, c, maxD)
  {
    hide Cell, Residual;
    forall i | stop + 1 <= i < |s| + 1 ensures !Alive(s, t, i, j, c, maxD) {
      DiagonalMonotone(s, t, i, j, c);
      ResidualSteps(|s|, |t|, i, j, c);
      assert !Alive(s, t, i - 1, j - 1, c, maxD);
    }
  }

  /** A wholly dead row means the distance exceeds the bound. */
  lemma {:induction false} DeadRow<C>(s: seq<C>, t: seq<C>, j: nat, c: Costs, maxD: int)
    requires j <= |t| && c.NonNegative()
    requires Dead(s, t, 0, |s| + 1, j, c, maxD)
    ensures maxD < Distance(s, t, c)
    decreases |t| - j
  {
    hide Cell;
    if j < |t| {
      DeadOnTheLeft(s, t, |s| + 1, j + 1, c, maxD);
      DeadRow(s, t, j + 1, c, maxD);
    } else {
      assert !Alive(s, t, |s|, j, c, maxD);
    }
  }

  lemma CornerResidual(m: int, n: int, c: Costs)
    ensures Residual(m, n, m, n, c) == 0
  {
  }

  /** In a row with an alive column, the columns from there to the zero point are alive too. */
  lemma {:induction false} AliveUpToZeroPoint<C>(s: seq<C>, t: seq<C>, i: nat, k: nat, j: nat, c: Costs, maxD: int)
    requires i <= k <= |s| && j <= |t| && c.NonNegative() && Alive(s, t, i, j, c, maxD)
    requires k <= j - (|t| - |s|)
    ensures Alive(s, t, k, j, c, maxD)
    decreases k - i
  {
    hide Cell;
    if i < k {
      OneStep(s, t, i + 1, j, c);
      var net := i - (j - (|t| - |s|));
      assert -(net + 1) * c.del == -net * c.del - c.del;
      AliveUpToZeroPoint(s, t, i + 1, k, j, c, maxD);
    }
  }

  /** In the first row, every column at or past the initial stop column is dead. */
  lemma FirstRowDead<C>(s: seq<C>, t: seq<C>, i: nat, c: Costs, maxD: int)
    requires i <= |s| && c.NonNegative() && 0 < c.ins + c.del
    requires Residual(|s|, |t|, 0, 0, c) <= maxD
    requires
      var best := if |t| < |s| then |s| - |t| else 0;
      best + (maxD - Residual(|s|, |t|, 0, 0, c)) / (c.ins + c.del) + 1 <= i
    ensures !Alive(s, t, i, 0, c, maxD)
  {
    FirstRow(s, t, i, c);
    var best := if |t| < |s| then |s| - |t| else 0;
    var slack, both := maxD - Residual(|s|, |t|, 0, 0, c), c.ins + c.del;
    var extra := i - best;
    assert slack < extra * both by {
      DivisionBelow(slack, both, extra);
    }
    assert extra * both == extra * c.ins + extra * c.del;
    if |t| < |s| {
      assert i * c.del == extra * c.del + best * c.del;
    } else {
      assert (i + |t| - |s|) * c.ins == extra * c.ins + (|t| - |s|) * c.ins;
    }
  }

  lemma DivisionBelow(a: int, b: int, q: int)
    requires 0 <= a && 0 < b && a / b + 1 <= q
    ensures a < q * b
  {
    assert a < (a / b + 1) * b;
    assert (a / b + 1) * b <= q * b;
  }

  // ---------- Filling a cell keeps it faithful ----------

  lemma ExactIsFaithful<C>(s: seq<C>, t: seq<C>, i: nat, j: nat, c: Costs, maxD: int)
    requires i <= |s| && j <= |t|
    ensures Faithful(Cell(s, t, i, j, c), s, t, i, j, c, maxD)
  {
  }

  lemma SentinelIsFaithful<C>(s: seq<C>, t: seq<C>, i: nat, j: nat, c: Costs, maxD: int)
    requires i <= |s| && j <= |t| && c.NonNegative() && !Alive(s, t, i, j, c, maxD)
    ensures Faithful(maxD + 1, s, t, i, j, c, maxD)
  {
  }

  lemma StepIsFaithful<C>(s: seq<C>, t: seq<C>, i: nat, j: nat, c: Costs, maxD: int,
                          above: int, left: int, diagonal: int)
    requires 0 < i <= |s| && 0 < j <= |t| && c.NonNegative()
    requires Faithful(above, s, t, i, j - 1, c, maxD)
    requires Faithful(left, s, t, i - 1, j, c, maxD)
    requires Faithful(diagonal, s, t, i - 1, j - 1, c, maxD)
    ensures Faithful(Step(above, left, diagonal, s[i - 1] == t[j - 1], c), s, t, i, j, c, maxD)
  {
    hide Cell, Residual;
    ResidualSteps(|s|, |t|, i, j, c);
    OneStep(s, t, i, j, c);
    var op := LastOp(s, t, i, j, c);
  }
}
