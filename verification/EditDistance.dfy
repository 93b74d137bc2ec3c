/**
 Weighted edit distance: the notional matrix that both compiled forms of
 levenshtein.c fill in, and what that matrix means.

 `Cell(s, t, i, j, c)` is the entry that transforms the first i characters of s
 into the first j characters of t.  Independently of the matrix, an `Edit` inserts,
 deletes or substitutes one character anywhere in a string, and a list of edits
 `Transforms` one string into another.  For non-negative costs the corner of the
 matrix is the least total cost of any such list.
 */
module EditDistance {
  import opened Integers

  datatype Costs = Costs(ins: int, del: int, sub: int) {
    predicate NonNegative() {
      0 <= ins && 0 <= del && 0 <= sub
    }

    /** Neither a substitution nor an insertion and a deletion together bring in anything. */
    predicate Balanced() {
      0 <= ins + del && 0 <= sub
    }

    predicate Positive() {
      0 < ins && 0 < del && 0 < sub
    }

    /** The costs of undoing: an insertion becomes a deletion and vice versa. */
    function Reversed(): Costs {
      Costs(del, ins, sub)
    }
  }

  function SubCost<C(==)>(x: C, y: C, c: Costs): int {
    if x == y then 0 else c.sub
  }

  /** The cell at (i, j), from its neighbours above, to the left, and diagonally above-left. */
  function Step(above: int, left: int, diagonal: int, same: bool, c: Costs): int {
    Min(Min(above + c.ins, left + c.del), diagonal + if same then 0 else c.sub)
  }

  function Cell<C(==)>(s: seq<C>, t: seq<C>, i: nat, j: nat, c: Costs): int
    requires i <= |s| && j <= |t|
    decreases i + j
  {
    if i == 0 && j == 0 then 0
    else if i == 0 then Cell(s, t, i, j - 1, c) + c.ins
    else if j == 0 then Cell(s, t, i - 1, j, c) + c.del
    else Step(Cell(s, t, i, j - 1, c), Cell(s, t, i - 1, j, c), Cell(s, t, i - 1, j - 1, c), s[i - 1] == t[j - 1], c)
  }

  function Distance<C(==)>(s: seq<C>, t: seq<C>, c: Costs): int {
    Cell(s, t, |s|, |t|, c)
  }

  // ---------- The first row and the first column ----------

  lemma {:induction false} FirstRow<C>(s: seq<C>, t: seq<C>, i: nat, c: Costs)
    requires i <= |s|
    ensures Cell(s, t, i, 0, c) == i * c.del
  {
    if i != 0 {
      FirstRow(s, t, i - 1, c);
      assert i * c.del == (i - 1) * c.del + c.del;
    }
  }

  lemma {:induction false} FirstColumn<C>(s: seq<C>, t: seq<C>, j: nat, c: Costs)
    requires j <= |t|
    ensures Cell(s, t, 0, j, c) == j * c.ins
  {
    if j != 0 {
      FirstColumn(s, t, j - 1, c);
      assert j * c.ins == (j - 1) * c.ins + c.ins;
    }
  }

  // ---------- The last operation of a cheapest way to reach a cell ----------

  datatype Op = Nothing | Insertion | Deletion | Diagonal

  lemma LastOp<C>(s: seq<C>, t: seq<C>, i: nat, j: nat, c: Costs) returns (op: Op)
    requires i <= |s| && j <= |t|
    ensures op == Nothing ==> i == 0 && j == 0 && Cell(s, t, i, j, c) == 0
    ensures op == Insertion ==> 0 < j && Cell(s, t, i, j, c) == Cell(s, t, i, j - 1, c) + c.ins
    ensures op == Deletion ==> 0 < i && Cell(s, t, i, j, c) == Cell(s, t, i - 1, j, c) + c.del
    ensures op == Diagonal ==>
              0 < i && 0 < j && Cell(s, t, i, j, c) == Cell(s, t, i - 1, j - 1, c) + SubCost(s[i - 1], t[j - 1], c)
  {
    op := if i == 0 && j == 0 then Nothing
          else if 0 < j && Cell(s, t, i, j, c) == Cell(s, t, i, j - 1, c) + c.ins then Insertion
          else if 0 < i && Cell(s, t, i, j, c) == Cell(s, t, i - 1, j, c) + c.del then Deletion
          else Diagonal;
  }

  // ---------- Elementary facts ----------

  lemma InnerCell<C>(s: seq<C>, t: seq<C>, i: nat, j: nat, c: Costs)
    requires 0 < i <= |s| && 0 < j <= |t|
    ensures Cell(s, t, i, j, c)
         == Step(Cell(s, t, i, j - 1, c), Cell(s, t, i - 1, j, c), Cell(s, t, i - 1, j - 1, c), s[i - 1] == t[j - 1], c)
  {
  }

  /** No cell is dearer than a neighbour plus one operation. */
  lemma OneStep<C>(s: seq<C>, t: seq<C>, i: nat, j: nat, c: Costs)
    requires i <= |s| && j <= |t|
    ensures 0 < j ==> Cell(s, t, i, j, c) <= Cell(s, t, i, j - 1, c) + c.ins
    ensures 0 < i ==> Cell(s, t, i, j, c) <= Cell(s, t, i - 1, j, c) + c.del
    ensures 0 < i && 0 < j ==> Cell(s, t, i, j, c) <= Cell(s, t, i - 1, j - 1, c) + SubCost(s[i - 1], t[j - 1], c)
  {
  }

  lemma {:induction false} CellNonNegative<C>(s: seq<C>, t: seq<C>, i: nat, j: nat, c: Costs)
    requires i <= |s| && j <= |t| && c.NonNegative()
    ensures 0 <= Cell(s, t, i, j, c)
    decreases i + j
  {
    hide Cell;
    var op := LastOp(s, t, i, j, c);
    match op
    case Nothing =>
    case Insertion => CellNonNegative(s, t, i, j - 1, c);
    case Deletion => CellNonNegative(s, t, i - 1, j, c);
    case Diagonal => CellNonNegative(s, t, i - 1, j - 1, c);
  }

  // ---------- The distance is a metric ----------

  lemma {:induction false} CellTriangle<C>(s: seq<C>, t: seq<C>, u: seq<C>, i: nat, j: nat, k: nat, c: Costs)
    requires i <= |s| && j <= |t| && k <= |u| && c.NonNegative()
    ensures Cell(s, u, i, k, c) <= Cell(s, t, i, j, c) + Cell(t, u, j, k, c)
    decreases i + j + k
  {
    hide Cell;
    var first := LastOp(s, t, i, j, c);
    var second := LastOp(t, u, j, k, c);
    if first == Deletion {
      OneStep(s, u, i, k, c);
      CellTriangle(s, t, u, i - 1, j, k, c);
    } else if second == Insertion {
      OneStep(s, u, i, k, c);
      CellTriangle(s, t, u, i, j, k - 1, c);
    } else if first == Insertion && second == Deletion {
      CellTriangle(s, t, u, i, j - 1, k, c);
    } else if first == Insertion && second == Diagonal {
      OneStep(s, u, i, k, c);
      CellTriangle(s, t, u, i, j - 1, k - 1, c);
    } else if first == Diagonal && second == Deletion {
      OneStep(s, u, i, k, c);
      CellTriangle(s, t, u, i - 1, j - 1, k, c);
    } else if first == Diagonal && second == Diagonal {
      OneStep(s, u, i, k, c);
      CellTriangle(s, t, u, i - 1, j - 1, k - 1, c);
    } else {
      var third := LastOp(s, u, i, k, c);
    }
  }

  lemma Triangle<C>(s: seq<C>, t: seq<C>, u: seq<C>, c: Costs)
    requires c.NonNegative()
    ensures Distance(s, u, c) <= Distance(s, t, c) + Distance(t, u, c)
  {
    CellTriangle(s, t, u, |s|, |t|, |u|, c);
  }

  lemma CellReversed<C>(s: seq<C>, t: seq<C>, i: nat, j: nat, c: Costs)
    requires i <= |s| && j <= |t|
    ensures Cell(s, t, i, j, c) == Cell(t, s, j, i, c.Reversed())
  {
  }

  lemma Symmetry<C>(s: seq<C>, t: seq<C>, c: Costs)
    ensures Distance(s, t, c) == Distance(t, s, c.Reversed())
    ensures c.ins == c.del ==> Distance(s, t, c) == Distance(t, s, c)
  {
    CellReversed(s, t, |s|, |t|, c);
  }

  lemma {:induction false} CellZero<C>(s: seq<C>, t: seq<C>, i: nat, j: nat, c: Costs)
    requires i <= |s| && j <= |t| && c.Positive()
    ensures Cell(s, t, i, j, c) == 0 <==> s[..i] == t[..j]
    decreases i + j
  {
    hide Cell;
    if s[..i] == t[..j] {
      assert forall k :: 0 <= k < i ==> s[k] == s[..i][k] && t[k] == t[..j][k];
      EqualPrefixesAreFree(s, t, i, c);
      CellNonNegative(s, t, i, j, c);
    }
    var op := LastOp(s, t, i, j, c);
    match op
    case Nothing =>
    case Insertion => CellNonNegative(s, t, i, j - 1, c);
    case Deletion => CellNonNegative(s, t, i - 1, j, c);
    case Diagonal =>
      CellNonNegative(s, t, i - 1, j - 1, c);
      CellZero(s, t, i - 1, j - 1, c);
      assert s[..i] == s[..i - 1] + [s[i - 1]];
      assert t[..j] == t[..j - 1] + [t[j - 1]];
  }

  lemma ZeroExactlyOnEqual<C>(s: seq<C>, t: seq<C>, c: Costs)
    requires c.Positive()
    ensures Distance(s, t, c) == 0 <==> s == t
  {
    CellZero(s, t, |s|, |t|, c);
    assert s[..|s|] == s && t[..|t|] == t;
  }

  // ---------- The distance is the least cost of any list of edits ----------

  datatype Edit<C> =
    | Insert(at: nat, ch: C)
    | Delete(at: nat)
    | Substitute(at: nat, ch: C)
  {
    predicate Applicable(u: seq<C>) {
      if Insert? then at <= |u| else at < |u|
    }

    function Apply(u: seq<C>): seq<C>
      requires Applicable(u)
    {
      match this
      case Insert(p, x) => u[..p] + [x] + u[p..]
      case Delete(p) => u[..p] + u[p + 1..]
      case Substitute(p, x) => u[p := x]
    }

    function Cost(c: Costs): int {
      match this
      case Insert(_, _) => c.ins
      case Delete(_) => c.del
      case Substitute(_, _) => c.sub
    }
  }

  ghost predicate Transforms<C>(es: seq<Edit<C>>, s: seq<C>, t: seq<C>) {
    if es == [] then s == t
    else es[0].Applicable(s) && Transforms(es[1..], es[0].Apply(s), t)
  }

  function TotalCost<C>(es: seq<Edit<C>>, c: Costs): int {
    if es == [] then 0 else es[0].Cost(c) + TotalCost(es[1..], c)
  }

  lemma {:induction false} EqualPrefixesAreFree<C>(s: seq<C>, t: seq<C>, i: nat, c: Costs)
    requires i <= |s| && i <= |t| && c.NonNegative()
    requires forall k :: 0 <= k < i ==> s[k] == t[k]
    ensures Cell(s, t, i, i, c) <= 0
  {
    if 0 < i {
      EqualPrefixesAreFree(s, t, i - 1, c);
    }
  }

  lemma SliceFront<C>(s: seq<C>, i: nat, n: nat)
    requires 0 < n && i + n <= |s|
    ensures s[i..i + n] == s[i..i + n - 1] + [s[i + n - 1]]
  {
  }

  /** Once past (i, j), equal suffixes add nothing. */
  lemma {:induction false} EqualSuffixesAreFree<C>(s: seq<C>, t: seq<C>, i: nat, j: nat, n: nat, c: Costs)
    requires i + n <= |s| && j + n <= |t|
    requires s[i..i + n] == t[j..j + n]
    ensures Cell(s, t, i + n, j + n, c) <= Cell(s, t, i, j, c)
  {
    if 0 < n {
      hide Cell;
      SliceFront(s, i, n);
      SliceFront(t, j, n);
      LastOfEqual(s[i..i + n - 1], s[i + n - 1], t[j..j + n - 1], t[j + n - 1]);
      EqualSuffixesAreFree(s, t, i, j, n - 1, c);
      OneStep(s, t, i + n, j + n, c);
    }
  }

  lemma LastOfEqual<C>(a: seq<C>, x: C, b: seq<C>, y: C)
    requires a + [x] == b + [y]
    ensures a == b && x == y
  {
    assert (a + [x])[|a|] == x && (b + [y])[|b|] == y;
    assert (a + [x])[..|a|] == a && (b + [y])[..|b|] == b;
  }

  lemma OneEdit<C>(e: Edit<C>, u: seq<C>, c: Costs)
    requires e.Applicable(u) && c.NonNegative()
    ensures Distance(u, e.Apply(u), c) <= e.Cost(c)
  {
    hide Cell;
    var v := e.Apply(u);
    var p := e.at;
    EqualPrefixesAreFree(u, v, p, c);
    match e
    case Insert(_, x) =>
      OneStep(u, v, p, p + 1, c);
      assert u[p..p + (|u| - p)] == v[p + 1..p + 1 + (|u| - p)];
      EqualSuffixesAreFree(u, v, p, p + 1, |u| - p, c);
    case Delete(_) =>
      OneStep(u, v, p + 1, p, c);
      assert u[p + 1..p + 1 + (|u| - p - 1)] == v[p..p + (|u| - p - 1)];
      EqualSuffixesAreFree(u, v, p + 1, p, |u| - p - 1, c);
    case Substitute(_, x) =>
      OneStep(u, v, p + 1, p + 1, c);
      assert u[p + 1..p + 1 + (|u| - p - 1)] == v[p + 1..p + 1 + (|u| - p - 1)];
      EqualSuffixesAreFree(u, v, p + 1, p + 1, |u| - p - 1, c);
  }

  /** No list of edits, in any order and at any positions, is cheaper than the distance. */
  lemma {:induction false} NoCheaperEdits<C>(es: seq<Edit<C>>, s: seq<C>, t: seq<C>, c: Costs)
    requires Transforms(es, s, t) && c.NonNegative()
    ensures Distance(s, t, c) <= TotalCost(es, c)
  {
    if es == [] {
      EqualPrefixesAreFree(s, t, |s|, c);
    } else {
      var u := es[0].Apply(s);
      OneEdit(es[0], s, c);
      NoCheaperEdits(es[1..], u, t, c);
      Triangle(s, u, t, c);
    }
  }

  lemma NoEdits<C>(s: seq<C>, c: Costs) returns (es: seq<Edit<C>>)
    ensures Transforms(es, s, s) && TotalCost(es, c) == 0
  {
    es := [];
  }

  lemma EditFirst<C>(e: Edit<C>, rest: seq<Edit<C>>, s: seq<C>, t: seq<C>, c: Costs) returns (es: seq<Edit<C>>)
    requires e.Applicable(s) && Transforms(rest, e.Apply(s), t)
    ensures Transforms(es, s, t) && TotalCost(es, c) == e.Cost(c) + TotalCost(rest, c)
  {
    es := [e] + rest;
    assert es[1..] == rest;
  }

  lemma MoveBoundary<C>(s: seq<C>, i: nat, w: seq<C>)
    requires 0 < i <= |s|
    ensures s[..i] + w == s[..i - 1] + ([s[i - 1]] + w)
  {
  }

  lemma EditAtBoundary<C>(p: seq<C>, x: C, y: C, w: seq<C>)
    ensures Insert(|p|, y).Applicable(p + w) && Insert(|p|, y).Apply(p + w) == p + ([y] + w)
    ensures Edit.Delete(|p|).Applicable(p + ([x] + w)) && Edit.Delete(|p|).Apply(p + ([x] + w)) == p + w
    ensures Substitute(|p|, y).Applicable(p + ([x] + w))
    ensures Substitute(|p|, y).Apply(p + ([x] + w)) == p + ([y] + w)
  {
  }

  /** Edits that rewrite the first i characters of s into the first j of t, in front of any w. */
  lemma {:induction false} PrefixEdits<C>(s: seq<C>, t: seq<C>, i: nat, j: nat, w: seq<C>, c: Costs)
    returns (es: seq<Edit<C>>)
    requires i <= |s| && j <= |t|
    ensures Transforms(es, s[..i] + w, t[..j] + w)
    ensures TotalCost(es, c) == Cell(s, t, i, j, c)
    decreases i + j
  {
    hide Cell, Transforms, TotalCost;
    var op := LastOp(s, t, i, j, c);
    match op
    case Nothing =>
      es := NoEdits(w, c);
      assert s[..i] + w == w && t[..j] + w == w;
    case Insertion =>
      var y := t[j - 1];
      es := PrefixEdits(s, t, i, j - 1, [y] + w, c);
      MoveBoundary(t, j, w);
      EditAtBoundary(s[..i], y, y, w);
      es := EditFirst(Insert(i, y), es, s[..i] + w, t[..j] + w, c);
    case Deletion =>
      var x := s[i - 1];
      es := PrefixEdits(s, t, i - 1, j, w, c);
      MoveBoundary(s, i, w);
      EditAtBoundary(s[..i - 1], x, x, w);
      es := EditFirst(Delete(i - 1), es, s[..i] + w, t[..j] + w, c);
    case Diagonal =>
      var x, y := s[i - 1], t[j - 1];
      es := PrefixEdits(s, t, i - 1, j - 1, [y] + w, c);
      MoveBoundary(s, i, w);
      MoveBoundary(t, j, w);
      if x != y {
        EditAtBoundary(s[..i - 1], x, y, w);
        es := EditFirst(Substitute(i - 1, y), es, s[..i] + w, t[..j] + w, c);
      }
  }

  /** Some list of edits attains the distance. */
  lemma CheapestEdits<C>(s: seq<C>, t: seq<C>, c: Costs) returns (es: seq<Edit<C>>)
    ensures Transforms(es, s, t)
    ensures TotalCost(es, c) == Distance(s, t, c)
  {
    es := PrefixEdits(s, t, |s|, |t|, [], c);
    assert s[..|s|] + [] == s && t[..|t|] + [] == t;
  }
}
