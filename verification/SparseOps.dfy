/**
 Arithmetic on two compressed vectors (op_sdata_by_sdata), and the set-returning function
 that emits a vector's elements one call at a time (svec_unnest).
 */
module SparseOps {
  import opened Bytes
  import opened CompWord
  import opened Runs
  import opened SparseVectors
  import opened Integers

  /** Subtraction, addition, multiplication or division of two float8 patterns, by its number. */
  type Arithmetic = (int, Float8, Float8) -> Float8

  function Pointwise(op: (Float8, Float8) -> Float8, a: seq<Float8>, b: seq<Float8>): seq<Float8>
    requires |a| == |b|
  {
    seq(|a|, p requires 0 <= p < |a| => op(a[p], b[p]))
  }

  /** While one run of each vector is current, the operation is constant. */
  lemma Stretch(op: (Float8, Float8) -> Float8, L: seq<Run>, R: seq<Run>, i: nat, j: nat, from: nat, to: nat)
    requires i < |L| && j < |R| && Total(L) == Total(R)
    requires Total(L[..i]) <= from <= to <= Total(L[..i + 1]) && Total(R[..j]) <= from <= to <= Total(R[..j + 1])
    ensures to <= Total(L)
    ensures Pointwise(op, Expand(L), Expand(R))[..to]
         == Pointwise(op, Expand(L), Expand(R))[..from] + Repeat(op(L[i].value, R[j].value), to - from)
  {
    hide Total, Expand;
    PrefixWithin(L, i + 1);
    var all := Pointwise(op, Expand(L), Expand(R));
    forall p | from <= p < to ensures all[p] == op(L[i].value, R[j].value) {
      ExpandAt(L, i, p);
      ExpandAt(R, j, p);
    }
  }

  /** What has been written so far: closed runs, and a pending run not yet written. */
  ghost predicate Written(out: seq<Run>, last: Float8, tot: int, done: seq<Float8>) {
    && NeighboursDiffer(out)
    && if tot == -1 then out == [] && done == []
       else 0 <= tot && EndsOtherThan(out, last) && done == Expand(out) + Repeat(last, tot)
  }

  lemma WriteMore(out: seq<Run>, last: Float8, tot: int, done: seq<Float8>, v: Float8, n: nat)
    requires Written(out, last, tot, done)
    ensures tot == -1 ==> Written(out, v, n, done + Repeat(v, n))
    ensures 0 <= tot && v == last ==> Written(out, v, tot + n, done + Repeat(v, n))
    ensures 0 <= tot && v != last ==> Written(out + [Run(last, tot)], v, n, done + Repeat(v, n))
    ensures 0 <= tot ==> Total(out) + tot == |done|
  {
  }

  /** One step of the merge: close the pending run if the value changes, and extend the pending one. */
  method Accumulate(sdata: SparseData, last0: Float8, tot0: int, v: Float8, n: nat, ghost done: seq<Float8>)
    returns (last: Float8, tot: int)
    requires sdata.Valid() && Written(sdata.runs, last0, tot0, done) && |done| <= INT32_MAX
    modifies sdata
    ensures sdata.Valid() && last == v && 0 <= tot && Written(sdata.runs, v, tot, done + Repeat(v, n))
    ensures |sdata.runs| <= |old(sdata.runs)| + if tot0 == -1 then 0 else 1
    ensures 0 < n && tot0 != 0 && Positive(old(sdata.runs)) ==> 0 < tot && Positive(sdata.runs)
  {
    hide Expand, Total, Counts, Index, Repeat, Values, NeighboursDiffer;
    WriteMore(sdata.runs, last0, tot0, done, v, n);
    last, tot := last0, tot0;
    if tot == -1 {
      last := v;
      tot := 0;
    }
    if v != last {
      sdata.AddRun(last, tot);
      tot := 0;
      last := v;
    }
    tot := tot + n;
  }

  /** A place in a vector: the i-th run, its index entry, and the elements [lst, nxt) it covers. */
  datatype Cursor = Cursor(i: nat, iptr: nat, lst: int, nxt: int) {
    ghost predicate On(rs: seq<Run>) {
      && i < |rs| && iptr == |Index(Counts(rs[..i]))|
      && lst == Total(rs[..i]) && nxt == Total(rs[..i + 1]) == lst + rs[i].count <= Total(rs)
    }
  }

  method FirstRun(sdata: SparseData) returns (c: Cursor)
    requires sdata.Valid() && sdata.runs != []
    ensures c.On(sdata.runs) && c.i == 0 && c.lst == 0
  {
    NoRuns(sdata.runs);
    var runLength := sdata.ReadCount(0, 0);
    c := Cursor(0, 0, 0, runLength);
  }

  lemma EndOfLastRun(rs: seq<Run>, i: nat)
    requires i < |rs|
    ensures i + 1 == |rs| ==> Total(rs[..i + 1]) == Total(rs)
  {
    if i + 1 == |rs| {
      assert rs[..i + 1] == rs;
    }
  }

  /** Moves a cursor to the next run; short of the vector's end there is one. */
  method NextRun(sdata: SparseData, c: Cursor) returns (c': Cursor)
    requires sdata.Valid() && c.On(sdata.runs) && c.nxt != Total(sdata.runs)
    ensures c'.On(sdata.runs) && c'.i == c.i + 1 && c'.lst == c.nxt
  {
    hide Total, Index;
    EndOfLastRun(sdata.runs, c.i);
    var iptr := sdata.NextEntry(c.i, c.iptr);
    var runLength := sdata.ReadCount(c.i + 1, iptr);
    c' := Cursor(c.i + 1, iptr, c.nxt, runLength + c.nxt);
  }

  /** Moves past whichever run ends first, or past both. */
  method Advance(left: SparseData, right: SparseData, l: Cursor, r: Cursor) returns (l': Cursor, r': Cursor)
    requires left.Valid() && right.Valid() && Total(left.runs) == Total(right.runs)
    requires l.On(left.runs) && r.On(right.runs) && !(l.nxt == r.nxt == Total(left.runs))
    requires l.lst <= r.nxt && r.lst <= l.nxt
    ensures l'.On(left.runs) && r'.On(right.runs) && l.i + r.i < l'.i + r'.i
    ensures l'.lst <= Min(l.nxt, r.nxt) && r'.lst <= Min(l.nxt, r.nxt) <= Min(l'.nxt, r'.nxt)
    ensures Positive(left.runs) && Positive(right.runs) ==> Min(l.nxt, r.nxt) < Min(l'.nxt, r'.nxt)
  {
    hide Total, Index;
    l', r' := l, r;
    if l.nxt == r.nxt {
      l' := NextRun(left, l);
      r' := NextRun(right, r);
    } else if Min(l.nxt, r.nxt) == l.nxt {
      l' := NextRun(left, l);
    } else {
      r' := NextRun(right, r);
    }
  }

  /**
   op_sdata_by_sdata.  The result stands for the pointwise operation on the two arrays, in
   maximal runs when both arguments have no empty runs.
   */
  method OpSdataBySdata(operation: int, arith: Arithmetic, left: SparseData, right: SparseData)
    returns (r: Result<SparseData>)
    requires left.Valid() && right.Valid()
    ensures r.Failure? <==> Total(left.runs) != Total(right.runs) || operation < 0 || 3 < operation
    ensures r.Success? ==> fresh(r.value) && r.value.Valid()
    ensures r.Success? ==>
              r.value.Contents() == Pointwise((x, y) => arith(operation, x, y), left.Contents(), right.Contents())
    ensures r.Success? ==> NeighboursDiffer(r.value.runs)
    ensures r.Success? && Positive(left.runs) && Positive(right.runs) ==> Canonical(r.value.runs)
    ensures r.Success? ==> r.value.runs == [] || |r.value.runs| < |left.runs| + |right.runs|
  {
    if left.totalValueCount != right.totalValueCount {
      return Failure("Operation undefined when dimension of left and right vectors are not the same");
    }
    if operation > 3 || operation < 0 {
      return Failure("Operation not in range 0-3");
    }
    if left.uniqueValueCount == 0 || right.uniqueValueCount == 0 {
      // An empty index is followed by a zero byte, which reads as a run of no elements: both
      // vectors are at their end in the first turn of the loop, and nothing is pending.
      NoElements(left.runs);
      NoElements(right.runs);
      var none := new SparseData();
      return Success(none);
    }
    var sdata := Merge((x, y) => arith(operation, x, y), left, right);
    r := Success(sdata);
  }

  /** The loop of op_sdata_by_sdata, with a cursor on each argument. */
  method Merge(op: (Float8, Float8) -> Float8, left: SparseData, right: SparseData) returns (sdata: SparseData)
    requires left.Valid() && right.Valid() && left.runs != [] && right.runs != []
    requires Total(left.runs) == Total(right.runs)
    ensures fresh(sdata) && sdata.Valid()
    ensures sdata.Contents() == Pointwise(op, left.Contents(), right.Contents())
    ensures NeighboursDiffer(sdata.runs)
    ensures Positive(left.runs) && Positive(right.runs) ==> Positive(sdata.runs)
    ensures |sdata.runs| <= |left.runs| + |right.runs| - 1
  {
    hide Expand, Total, Counts, Index, Repeat, Written, NeighboursDiffer, Pointwise;
    ghost var L, R := left.runs, right.runs;
    ghost var all := Pointwise(op, Expand(L), Expand(R));
    sdata := new SparseData();
    var l := FirstRun(left);
    var r := FirstRun(right);
    var nextpos, lastpos := Min(l.nxt, r.nxt), 0;
    var tot, lastNewValue, newValue := -1, 0, 0;
    PointwiseLength(op, L, R);
    NothingWritten(all, lastNewValue);
    while true
      invariant fresh(sdata) && sdata.Valid()
      invariant l.On(L) && r.On(R)
      invariant l.lst <= lastpos && r.lst <= lastpos <= nextpos == Min(l.nxt, r.nxt)
      invariant Written(sdata.runs, lastNewValue, tot, all[..lastpos])
      invariant |sdata.runs| + (if tot == -1 then 0 else 1) <= l.i + r.i
      invariant Positive(L) && Positive(R) ==> lastpos < nextpos && Positive(sdata.runs) && tot != 0
      decreases |L| - l.i + |R| - r.i
    {
      newValue := op(left.vals[l.i], right.vals[r.i]);
      Stretch(op, L, R, l.i, r.i, lastpos, nextpos);
      lastNewValue, tot := Accumulate(sdata, lastNewValue, tot, newValue, nextpos - lastpos, all[..lastpos]);
      if l.nxt == r.nxt && l.nxt == left.totalValueCount {
        break;
      }
      l, r := Advance(left, right, l, r);
      lastpos := nextpos;
      nextpos := Min(l.nxt, r.nxt);
    }
    assert all[..nextpos] == all;
    LastWritten(sdata.runs, newValue, tot, all);
    if tot != 0 {
      sdata.AddRun(newValue, tot);
    }
  }

  lemma NoElements(rs: seq<Run>)
    ensures rs == [] ==> Total(rs) == 0
    ensures Total(rs) == 0 ==> Expand(rs) == []
  {
  }

  lemma PointwiseLength(op: (Float8, Float8) -> Float8, L: seq<Run>, R: seq<Run>)
    requires Total(L) == Total(R)
    ensures |Pointwise(op, Expand(L), Expand(R))| == Total(L)
  {
  }

  lemma NothingWritten(all: seq<Float8>, v: Float8)
    ensures Written([], v, -1, all[..0])
  {
  }

  lemma LastWritten(out: seq<Run>, last: Float8, tot: nat, done: seq<Float8>)
    requires Written(out, last, tot, done)
    ensures Total(out) + tot == |done| && NeighboursDiffer(out)
    ensures tot == 0 ==> Expand(out) == done
    ensures Expand(out + [Run(last, tot)]) == done && NeighboursDiffer(out + [Run(last, tot)])
  {
  }

  // ---------- Emitting a vector's elements ----------

  /** The runs as svec_unnest emits them: an empty run still gives one element. */
  function Emitted(rs: seq<Run>): (es: seq<Run>)
    ensures |es| == |rs|
  {
    seq(|rs|, i requires 0 <= i < |rs| => Run(rs[i].value, if rs[i].count == 0 then 1 else rs[i].count))
  }

  /** The dimension of a stored vector; a vector of one element is a scalar, marked -1. */
  function Dimension(rs: seq<Run>): int {
    if Total(rs) == 1 then -1 else Total(rs)
  }

  lemma {:induction false} EmittedIsNoShorter(rs: seq<Run>, i: nat)
    requires i <= |rs|
    ensures Total(rs[..i]) <= Total(Emitted(rs)[..i])
  {
    if 0 < i {
      EmittedIsNoShorter(rs, i - 1);
      TotalPrefix(rs, i - 1);
      TotalPrefix(Emitted(rs), i - 1);
    }
  }

  function EmptyRuns(rs: seq<Run>): nat {
    if rs == [] then 0 else EmptyRuns(rs[..|rs| - 1]) + if rs[|rs| - 1].count == 0 then 1 else 0
  }

  /** One element more for each empty run. */
  lemma {:induction false} EmittedTotal(rs: seq<Run>)
    ensures Total(Emitted(rs)) == Total(rs) + EmptyRuns(rs)
  {
    if rs != [] {
      EmittedTotal(rs[..|rs| - 1]);
      assert Emitted(rs)[..|rs| - 1] == Emitted(rs[..|rs| - 1]);
    }
  }

  /** The first k runs are not empty, so they are emitted as they are. */
  lemma EmittedPrefix(rs: seq<Run>, k: nat)
    requires k <= |rs| && forall i :: 0 <= i < k ==> 0 < rs[i].count
    ensures Emitted(rs)[..k] == rs[..k] && Expand(rs[..k]) <= Expand(Emitted(rs)) && Expand(rs[..k]) <= Expand(rs)
  {
    hide Total, Expand, Counts, Index;
    assert Emitted(rs)[..k] == rs[..k];
    PrefixWithin(rs, k);
    PrefixWithin(Emitted(rs), k);
  }

  /** Empty runs, if any, come after all the elements. */
  predicate NoEmptyRunInside(rs: seq<Run>) {
    forall i :: 0 <= i < |rs| && rs[i].count == 0 ==> Total(rs[..i]) == Total(rs)
  }

  lemma FirstEmptyRun(rs: seq<Run>) returns (k: nat)
    ensures k <= |rs| && (forall i :: 0 <= i < k ==> 0 < rs[i].count) && (k < |rs| ==> rs[k].count == 0)
  {
    k := 0;
    while k < |rs| && rs[k].count != 0
      invariant k <= |rs| && forall i :: 0 <= i < k ==> 0 < rs[i].count
    {
      k := k + 1;
    }
  }

  /** What is emitted is the array when no empty run comes before the array's end ... */
  lemma EmittedWhole(rs: seq<Run>)
    requires NoEmptyRunInside(rs)
    ensures Total(rs) <= Total(Emitted(rs)) && Expand(Emitted(rs))[..Total(rs)] == Expand(rs)
  {
    hide Total, Expand;
    var k := FirstEmptyRun(rs);
    assert rs[..|rs|] == rs;
    EmittedPrefix(rs, k);
  }

  /** ... and only then: otherwise some array with runs of the same lengths comes out wrong. */
  lemma EmittedSpoiled(rs: seq<Run>) returns (spoiled: seq<Run>)
    requires !NoEmptyRunInside(rs)
    ensures Counts(spoiled) == Counts(rs)
    ensures Total(spoiled) <= Total(Emitted(spoiled)) && Expand(Emitted(spoiled))[..Total(spoiled)] != Expand(spoiled)
  {
    hide Total, Expand, Index;
    var k := FirstEmptyRun(rs);
    spoiled := seq(|rs|, i requires 0 <= i < |rs| => Run(if i == k then 1 else 0, rs[i].count));
    SameCountsSameTotal(rs, spoiled, |rs|);
    assert rs[..|rs|] == rs && spoiled[..|rs|] == spoiled && Emitted(spoiled)[..|rs|] == Emitted(spoiled);
    EmittedIsNoShorter(spoiled, |rs|);
    EmittedPrefix(spoiled, k);
    var bad :| 0 <= bad < |rs| && rs[bad].count == 0 && Total(rs[..bad]) != Total(rs);
    TotalMonotone(rs, k, bad);
    PrefixWithin(rs, bad);
    SameCountsSameTotal(rs, spoiled, k);
    var p := Total(spoiled[..k]);
    TotalPrefix(Emitted(spoiled), k);
    ExpandAt(Emitted(spoiled), k, p);
    assert Expand(Emitted(spoiled))[..Total(spoiled)][p] == 1;
    var i := RunOf(spoiled, p);
  }

  lemma {:induction false} SameCountsSameTotal(a: seq<Run>, b: seq<Run>, k: nat)
    requires |a| == |b| && k <= |a| && forall i :: 0 <= i < |a| ==> a[i].count == b[i].count
    ensures Total(a[..k]) == Total(b[..k])
  {
    if 0 < k {
      SameCountsSameTotal(a, b, k - 1);
      TotalPrefix(a, k - 1);
      TotalPrefix(b, k - 1);
    }
  }

  lemma {:induction false} TotalMonotone(rs: seq<Run>, i: nat, j: nat)
    requires i <= j <= |rs|
    ensures Total(rs[..i]) <= Total(rs[..j])
    decreases j - i
  {
    if i < j {
      TotalMonotone(rs, i, j - 1);
      TotalPrefix(rs, j - 1);
    }
  }

  /** Every element comes from a run that is not empty. */
  lemma {:induction false} RunOf(rs: seq<Run>, p: nat) returns (i: nat)
    requires p < Total(rs)
    ensures i < |rs| && 0 < rs[i].count && Expand(rs)[p] == rs[i].value
  {
    var n := |rs| - 1;
    if p < Total(rs[..n]) {
      i := RunOf(rs[..n], p);
    } else {
      i := n;
    }
  }

  /** The state svec_unnest keeps between calls. */
  class Unnest {
    const sdata: SparseData
    const dimension: int

    var absoluteValuePosition: nat
    var uniqueValuePosition: nat
    var runPosition: nat
    var indexPosition: nat

    ghost predicate Valid()
      reads this, sdata
    {
      var rs, u := sdata.runs, uniqueValuePosition;
      && sdata.Valid() && dimension == Dimension(rs) && u <= |rs|
      && indexPosition == |Index(Counts(rs[..u]))|
      && 1 <= runPosition
      && absoluteValuePosition == Total(Emitted(rs)[..u]) + runPosition - 1
      && (u < |rs| ==> runPosition <= Emitted(rs)[u].count)
      && (u == |rs| ==> runPosition == 1)
    }

    /** The first call of the function. */
    constructor (s: SparseData)
      requires s.Valid()
      ensures Valid() && sdata == s && absoluteValuePosition == 0
      ensures dimension == -1 <==> Total(s.runs) == 1
    {
      sdata := s;
      dimension := if s.totalValueCount == 1 then -1 else s.totalValueCount;
      absoluteValuePosition := 0;
      uniqueValuePosition := 0;
      indexPosition := 0;
      runPosition := 1;
      new;
      NoRuns(s.runs);
      NoRuns(Emitted(s.runs));
    }

    /**
     Every call.  Once the elements are used up the run length read at the end of the index
     plays no part, so it is not read here.
     */
    method Next() returns (r: Option<Float8>)
      requires Valid()
      modifies this
      ensures Valid()
      ensures old(absoluteValuePosition) < dimension ==>
                && old(absoluteValuePosition) < Total(Emitted(sdata.runs))
                && r == Some(Expand(Emitted(sdata.runs))[old(absoluteValuePosition)])
                && absoluteValuePosition == old(absoluteValuePosition) + 1
      ensures dimension <= old(absoluteValuePosition) ==>
                r == None && absoluteValuePosition == old(absoluteValuePosition)
    {
      hide Expand, Total, Index, Counts, Values;
      if dimension > absoluteValuePosition {
        ghost var rs, es, u := sdata.runs, Emitted(sdata.runs), uniqueValuePosition;
        ElementsLeft(rs, u, absoluteValuePosition);
        var runLength := sdata.ReadCount(u, indexPosition);
        TotalPrefix(es, u);
        ExpandAt(es, u, absoluteValuePosition);
        ValueOf(rs, u);
        r := Some(sdata.vals[uniqueValuePosition]);
        absoluteValuePosition := absoluteValuePosition + 1;
        runPosition := runPosition + 1;
        if runPosition > runLength {
          runPosition := 1;
          indexPosition := sdata.NextEntry(u, indexPosition);
          uniqueValuePosition := uniqueValuePosition + 1;
          StartOfRun(rs, u + 1);
        }
      } else {
        r := None;
      }
    }
  }

  lemma ValueOf(rs: seq<Run>, u: nat)
    requires u < |rs|
    ensures |Values(rs)| == |rs| && Values(rs)[u] == rs[u].value
  {
  }

  lemma StartOfRun(rs: seq<Run>, u: nat)
    requires u <= |rs|
    ensures u < |rs| ==> 1 <= Emitted(rs)[u].count
  {
  }

  /** Short of the dimension, a run remains. */
  lemma ElementsLeft(rs: seq<Run>, u: nat, position: nat)
    requires u <= |rs| && position < Dimension(rs) && Total(Emitted(rs)[..u]) <= position
    ensures u < |rs|
  {
    EmittedIsNoShorter(rs, |rs|);
    assert rs[..|rs|] == rs;
  }

  /**
   All the calls of one query, until the function says there is no more.  A vector with
   no empty run inside comes out whole, unless it is a scalar, which comes out empty.
   */
  method UnnestAll(sdata: SparseData) returns (out: seq<Float8>)
    requires sdata.Valid()
    ensures Total(sdata.runs) == 1 ==> out == []
    ensures Total(sdata.runs) != 1 ==>
              Total(sdata.runs) <= Total(Emitted(sdata.runs)) && out == Expand(Emitted(sdata.runs))[..Total(sdata.runs)]
    ensures NoEmptyRunInside(sdata.runs) ==> (out == sdata.Contents() <==> Total(sdata.runs) != 1)
  {
    hide Expand, Total, Index, Counts, Values;
    ghost var rs, full := sdata.runs, Expand(Emitted(sdata.runs));
    EmittedIsNoShorter(rs, |rs|);
    assert rs[..|rs|] == rs && Emitted(rs)[..|rs|] == Emitted(rs);
    if NoEmptyRunInside(rs) {
      EmittedWhole(rs);
    }
    var context := new Unnest(sdata);
    out := [];
    while true
      invariant context.Valid() && fresh(context) && context.sdata == sdata && sdata.runs == rs
      invariant context.absoluteValuePosition == |out| && |out| <= Total(rs)
      invariant 0 < |out| ==> |out| <= context.dimension
      invariant out == full[..|out|]
      decreases Total(rs) - |out|
    {
      var r := context.Next();
      if r.None? {
        break;
      }
      out := out + [r.value];
    }
  }
}
