/**
 levenshtein_less_equal: the distance, or anything above the bound.

 Before each row the band [start, stop) holds every alive column of the row above, and
 every cell the row reads is faithful (see EditBand).  After the row both ends slide
 inwards past dead columns.
 */
module LevenshteinBounded {
  import opened Bytes
  import opened Texts
  import opened EditDistance
  import opened EditBand
  import opened BoundedCosts
  import opened Levenshtein

  // ---------- Before the first row ----------

  function InitialStop(m: nat, n: nat, c: Costs, maxD: int): (stop: int)
    requires 0 < c.ins + c.del && MinTheoD(m, n, c) <= maxD
    ensures 1 <= stop
  {
    var slackD := maxD - MinTheoD(m, n, c);
    var bestColumn := if n < m then m - n else 0;
    bestColumn + slackD / (c.ins + c.del) + 1
  }

  lemma TheoreticalBounds(s: seq<Character>, t: seq<Character>, c: Costs)
    requires c.NonNegative()
    ensures MinTheoD(|s|, |t|, c) <= Distance(s, t, c) <= MaxTheoD(|s|, |t|, CappedSub(c))
  {
    hide Cell;
    TheoreticalMinimum(s, t, c);
    CapChangesNothing(s, t, |s|, |t|, c);
    TheoreticalMaximum(s, t, |s|, |t|, CappedSub(c));
  }

  lemma InitialStopDead(s: seq<Character>, t: seq<Character>, stop: nat, c: Costs, maxD: int)
    requires c.NonNegative() && MinTheoD(|s|, |t|, c) <= maxD < MaxTheoD(|s|, |t|, c) && c.sub <= c.ins + c.del
    requires stop == |s| + 1 || (0 < c.ins + c.del && stop == InitialStop(|s|, |t|, c, maxD) <= |s|)
    ensures Dead(s, t, stop, |s| + 1, 0, c, maxD)
  {
    hide Cell, Alive;
    forall i | stop <= i < |s| + 1 ensures !Alive(s, t, i, 0, c, maxD) {
      FirstRowDead(s, t, i, c, maxD);
    }
  }

  datatype Plan = Exceeded | Search(c: Costs, maxD: int, stop: nat)

  /** Is the bound hopeless, useless, or tight enough to limit the first row? */
  method PlanSearch(ghost s: seq<Character>, ghost t: seq<Character>, m: nat, n: nat, c: Costs, maxD: int)
    returns (p: Plan)
    requires 0 < m == |s| && 0 < n == |t|
    ensures maxD < 0 ==> p == Search(c, maxD, m + 1)
    ensures p.Search? ==> 1 <= p.stop <= m + 1 && (p.maxD < 0 ==> p.stop == m + 1)
    ensures 0 <= maxD && p.Search? ==> p.c == CappedSub(c) && (p.maxD == maxD || p.maxD == -1)
    ensures 0 <= maxD && Sound(c) && p.Exceeded? ==> maxD < Distance(s, t, c)
    ensures 0 <= maxD && c.NonNegative() && p.Search? && p.maxD < 0 ==> Distance(s, t, c) <= maxD
    ensures 0 <= maxD && Sound(c) && p.Search? && 0 <= p.maxD ==>
              c.NonNegative() && Dead(s, t, p.stop, m + 1, 0, p.c, maxD)
    ensures 0 <= maxD && Misled(s, t, c, maxD) ==>
              if CappedSub(c).sub < 0 then p.Exceeded? else p == Search(CappedSub(c), 0, 1)
  {
    hide Cell, MinTheoD, MaxTheoD, InitialStop, Dead, Sound;
    if maxD < 0 {
      return Search(c, maxD, m + 1);
    }
    if c.NonNegative() {
      TheoreticalBounds(s, t, c);
    }
    if Sound(c) {
      SoundBounds(s, t, c, maxD);
    }
    if Misled(s, t, c, maxD) {
      MisledPlan(s, t, c, maxD);
    }
    if MinTheoD(m, n, c) > maxD {
      return Exceeded;
    }
    var d := CappedSub(c);
    CapKeepsMinimum(m, n, c);
    if maxD >= MaxTheoD(m, n, d) {
      return Search(d, -1, m + 1);
    }
    var stop := m + 1;
    if d.ins + d.del > 0 {
      stop := InitialStop(m, n, d, maxD);
      if stop > m {
        stop := m + 1;
      }
    }
    if c.NonNegative() {
      InitialStopDead(s, t, stop, d, maxD);
    }
    p := Search(d, maxD, stop);
  }

  lemma MisledPlan(s: seq<Character>, t: seq<Character>, c: Costs, maxD: int)
    requires Misled(s, t, c, maxD)
    ensures CappedSub(c).sub < 0 ==> maxD < MinTheoD(|s|, |t|, c)
    ensures 0 <= CappedSub(c).sub ==>
              && maxD == MinTheoD(|s|, |t|, c) == MinTheoD(|s|, |t|, CappedSub(c)) == 0
              && maxD < MaxTheoD(|s|, |t|, CappedSub(c)) && 0 < CappedSub(c).ins + CappedSub(c).del
              && InitialStop(|s|, |t|, CappedSub(c), maxD) == 1
  {
  }

  // ---------- One row of the band ----------

  /** The first column the row computes; column 0 is a special case. */
  function FirstFilled(start: nat): nat {
    if start == 0 then 1 else start
  }

  method BandRow(s: Text, t: Text, lens: array?<int>, sData: nat, y: nat, yLen: nat, j: nat, c: Costs, maxD: int,
                 prev: array<int>, curr: array<int>, start: nat, stop0: nat)
    returns (stop: nat)
    requires s.Valid() && t.Valid() && 0 < j <= |t.Chars()| && 0 < |s.Chars()|
    requires Cached(lens, s, t) && prev != curr && lens != prev && lens != curr
    requires prev.Length == curr.Length == |s.Chars()| + 1
    requires start < stop0 <= |s.Chars()| + 1
    requires sData == s.Offset(FirstFilled(start) - 1) && y == t.Offset(j - 1) && yLen == |t.Chars()[j - 1]|
    modifies prev, curr
    ensures stop == if stop0 <= |s.Chars()| then stop0 + 1 else stop0
    ensures prev[..] == if stop0 <= |s.Chars()| then old(prev[..])[stop0 := maxD + 1] else old(prev[..])
    ensures start == 0 ==> curr[0] == j * c.ins
    ensures RowFilled(s.Chars(), t.Chars(), j, c, prev[..], curr[..], FirstFilled(start), stop)
    ensures forall k :: 0 <= k < start ==> curr[k] == old(curr[k])
  {
    stop := stop0;
    if stop < |s.Chars()| + 1 {
      prev[stop] := maxD + 1;
      stop := stop + 1;
    }
    var i: nat;
    if start == 0 {
      curr[0] := j * c.ins;
      i := 1;
    } else {
      i := start;
    }
    if lens != null {
      FillRowMultibyte(s, t, lens, sData, y, yLen, j, c, prev, curr, i, stop);
    } else {
      s.SingleBytes(i - 1);
      t.SingleBytes(j - 1);
      FillRowSingleByte(s, t, sData, y, j, c, prev, curr, i, stop);
    }
  }

  /** The test that lets a column end the slide. */
  predicate Passes(v: int, m: int, n: int, k: int, j: int, c: Costs, maxD: int) {
    v + Residual(m, n, k, j, c) <= maxD
  }

  /** The stop column slides left past every column that fails the test. */
  method SlideStop(row: array<int>, m: nat, n: nat, j: nat, c: Costs, maxD: int, stop0: nat) returns (stop: nat)
    requires stop0 <= row.Length
    ensures stop <= stop0
    ensures forall k :: stop <= k < stop0 ==> !Passes(row[k], m, n, k, j, c, maxD)
    ensures 0 < stop ==> Passes(row[stop - 1], m, n, stop - 1, j, c, maxD)
  {
    var zp := j - (n - m);
    stop := stop0;
    while stop > 0
      invariant 0 <= stop <= stop0
      invariant forall k :: stop <= k < stop0 ==> !Passes(row[k], m, n, k, j, c, maxD)
    {
      var ii := stop - 1;
      var netInserts := ii - zp;
      if row[ii] + (if netInserts > 0 then netInserts * c.ins else -netInserts * c.del) <= maxD {
        assert Passes(row[ii], m, n, ii, j, c, maxD);
        break;
      }
      assert !Passes(row[ii], m, n, ii, j, c, maxD);
      stop := stop - 1;
    }
  }

  /**
   The start column slides right, leaving the sentinel in both arrays, and the source
   offset follows it.
   */
  method SlideStart(s: Text, t: Text, lens: array?<int>, sData0: nat, j: nat, c: Costs, maxD: int,
                    prev: array<int>, curr: array<int>, start0: nat, stop: nat)
    returns (start: nat, sData: nat)
    requires s.Valid() && t.Valid() && 0 < |s.Chars()|
    requires Cached(lens, s, t) && prev != curr && lens != prev && lens != curr
    requires prev.Length == curr.Length == |s.Chars()| + 1
    requires start0 <= |s.Chars()| && stop <= |s.Chars()| + 1 && sData0 == s.Offset(FirstFilled(start0) - 1)
    modifies prev, curr
    ensures start0 <= start && (start0 < start ==> start <= stop)
    ensures start < stop ==> sData == s.Offset(FirstFilled(start) - 1)
    ensures start < stop ==> Passes(prev[start], |s.Chars()|, |t.Chars()|, start, j, c, maxD)
    ensures forall k :: start0 <= k < start ==> !Passes(old(prev[k]), |s.Chars()|, |t.Chars()|, k, j, c, maxD)
    ensures forall k :: start0 <= k < start ==> prev[k] == curr[k] == maxD + 1
    ensures forall k :: 0 <= k < prev.Length && !(start0 <= k < start) ==>
              prev[k] == old(prev[k]) && curr[k] == old(curr[k])
  {
    var m, n := |s.Chars()|, |t.Chars()|;
    var zp := j - (n - m);
    start, sData := start0, sData0;
    while start < stop
      invariant start0 <= start && (start0 < start ==> start <= stop)
      invariant start < stop || start == start0 ==> sData == s.Offset(FirstFilled(start) - 1)
      invariant forall k :: start0 <= k < start ==> !Passes(old(prev[k]), m, n, k, j, c, maxD)
      invariant forall k :: start0 <= k < start ==> prev[k] == curr[k] == maxD + 1
      invariant forall k :: 0 <= k < prev.Length && !(start0 <= k < start) ==>
                  prev[k] == old(prev[k]) && curr[k] == old(curr[k])
      invariant Cached(lens, s, t)
    {
      var netInserts := start - zp;
      if prev[start] + (if netInserts > 0 then netInserts * c.ins else -netInserts * c.del) <= maxD {
        assert Passes(prev[start], m, n, start, j, c, maxD);
        break;
      }
      assert !Passes(old(prev[start]), m, n, start, j, c, maxD);
      prev[start] := maxD + 1;
      curr[start] := maxD + 1;
      if start != 0 {
        sData := NextOffset(s, t, lens, sData, start - 1);
      }
      start := start + 1;
    }
  }

  method NextOffset(s: Text, t: Text, lens: array?<int>, x: nat, k: nat) returns (x': nat)
    requires s.Valid() && t.Valid() && Cached(lens, s, t) && k < |s.Chars()| && x == s.Offset(k)
    ensures x' == s.Offset(k + 1)
  {
    s.CharAt(k);
    if lens == null { s.SingleBytes(k); }
    x' := x + if lens != null then lens[k] else 1;
  }

  method SlideColumns(s: Text, t: Text, lens: array?<int>, sData0: nat, j: nat, c: Costs, maxD: int,
                      prev: array<int>, curr: array<int>, start0: nat, stop0: nat)
    returns (start: nat, stop: nat, sData: nat)
    requires s.Valid() && t.Valid() && 0 < |s.Chars()|
    requires Cached(lens, s, t) && prev != curr && lens != prev && lens != curr
    requires prev.Length == curr.Length == |s.Chars()| + 1
    requires start0 < stop0 <= |s.Chars()| + 1 && sData0 == s.Offset(FirstFilled(start0) - 1)
    modifies prev, curr
    ensures start0 <= start && stop <= stop0 && (start0 < start ==> start <= stop)
    ensures start < stop ==> sData == s.Offset(FirstFilled(start) - 1)
    ensures start < stop ==> Passes(prev[start], |s.Chars()|, |t.Chars()|, start, j, c, maxD)
    ensures start < stop ==> Passes(prev[stop - 1], |s.Chars()|, |t.Chars()|, stop - 1, j, c, maxD)
    ensures forall k :: stop <= k < stop0 ==> !Passes(old(prev[k]), |s.Chars()|, |t.Chars()|, k, j, c, maxD)
    ensures forall k :: start0 <= k < start ==> !Passes(old(prev[k]), |s.Chars()|, |t.Chars()|, k, j, c, maxD)
    ensures forall k :: start0 <= k < start ==> prev[k] == curr[k] == maxD + 1
    ensures forall k :: 0 <= k < prev.Length && !(start0 <= k < start) ==>
              prev[k] == old(prev[k]) && curr[k] == old(curr[k])
  {
    hide Passes;
    stop := SlideStop(prev, |s.Chars()|, |t.Chars()|, j, c, maxD, stop0);
    start, sData := SlideStart(s, t, lens, sData0, j, c, maxD, prev, curr, start0, stop);
  }

  // ---------- What the band holds between rows ----------

  ghost predicate FaithfulRow(row: seq<int>, s: seq<Character>, t: seq<Character>, to: nat, j: nat, c: Costs, maxD: int)
    requires |row| == |s| + 1 && to <= |s| + 1 && j <= |t|
  {
    forall k :: 0 <= k < to ==> Faithful(row[k], s, t, k, j, c, maxD)
  }

  /** Row j is in `prev`; both arrays hold the sentinel to the left of the band. */
  ghost predicate Band(prev: seq<int>, curr: seq<int>, s: seq<Character>, t: seq<Character>,
                       start: nat, stop: nat, j: nat, c: Costs, maxD: int)
  {
    && |prev| == |curr| == |s| + 1 && start < stop <= |s| + 1 && j <= |t|
    && Dead(s, t, 0, start, j, c, maxD)
    && Dead(s, t, stop, |s| + 1, j, c, maxD)
    && FaithfulRow(prev, s, t, stop, j, c, maxD)
    && forall k :: 0 <= k < start ==> prev[k] == curr[k] == maxD + 1
  }

  lemma FirstBand(prev: seq<int>, curr: seq<int>, s: seq<Character>, t: seq<Character>, stop: nat, c: Costs, maxD: int)
    requires |prev| == |curr| == |s| + 1 && 0 < stop <= |s| + 1 && Dead(s, t, stop, |s| + 1, 0, c, maxD)
    requires forall k :: 0 <= k < stop ==> prev[k] == k * c.del
    ensures Band(prev, curr, s, t, 0, stop, 0, c, maxD)
  {
    hide Cell;
    forall k | 0 <= k < stop ensures Faithful(prev[k], s, t, k, 0, c, maxD) {
      FirstRow(s, t, k, c);
      ExactIsFaithful(s, t, k, 0, c, maxD);
    }
  }

  /** A filled row of the band is faithful, and what lies outside it is dead. */
  lemma NextRowFaithful(s: seq<Character>, t: seq<Character>, j: nat, c: Costs, maxD: int,
                        prev0: seq<int>, curr0: seq<int>, prev: seq<int>, curr: seq<int>,
                        start: nat, stop0: nat, stop: nat)
    requires 0 < j <= |t| && c.NonNegative() && Band(prev0, curr0, s, t, start, stop0, j - 1, c, maxD)
    requires stop == if stop0 <= |s| then stop0 + 1 else stop0
    requires prev == if stop0 <= |s| then prev0[stop0 := maxD + 1] else prev0
    requires |curr| == |s| + 1 && RowFilled(s, t, j, c, prev, curr, FirstFilled(start), stop)
    requires start == 0 ==> curr[0] == j * c.ins
    requires forall k :: 0 <= k < start ==> curr[k] == curr0[k]
    ensures Dead(s, t, 0, start, j, c, maxD) && Dead(s, t, stop, |s| + 1, j, c, maxD)
    ensures FaithfulRow(curr, s, t, stop, j, c, maxD)
  {
    hide Cell, Residual, Alive, Faithful;
    DeadOnTheLeft(s, t, start, j, c, maxD);
    if stop0 <= |s| {
      DeadOnTheRight(s, t, stop0, j, c, maxD);
      SentinelIsFaithful(s, t, stop0, j - 1, c, maxD);
    }
    assert FaithfulRow(prev, s, t, stop, j - 1, c, maxD);
    if start == 0 {
      FirstColumn(s, t, j, c);
      ExactIsFaithful(s, t, 0, j, c, maxD);
    }
    for k := 0 to start
      invariant FaithfulRow(curr, s, t, k, j, c, maxD)
    {
      SentinelIsFaithful(s, t, k, j, c, maxD);
    }
    for k := FirstFilled(start) to stop
      invariant FaithfulRow(curr, s, t, k, j, c, maxD)
    {
      assert Faithful(prev[k], s, t, k, j - 1, c, maxD) && Faithful(prev[k - 1], s, t, k - 1, j - 1, c, maxD);
      assert Faithful(curr[k - 1], s, t, k - 1, j, c, maxD);
      StepIsFaithful(s, t, k, j, c, maxD, prev[k], curr[k - 1], prev[k - 1]);
    }
  }

  /** Columns that fail the test are dead, so sliding past them loses nothing. */
  lemma SlideKeepsBand(s: seq<Character>, t: seq<Character>, j: nat, c: Costs, maxD: int,
                       row: seq<int>, row': seq<int>, start0: nat, stop0: nat, start: nat, stop: nat)
    requires |row| == |row'| == |s| + 1 && j <= |t| && c.NonNegative()
    requires start0 <= start && stop <= stop0 <= |s| + 1 && (start0 < start ==> start <= stop) && start0 < stop0
    requires FaithfulRow(row, s, t, stop0, j, c, maxD)
    requires Dead(s, t, 0, start0, j, c, maxD) && Dead(s, t, stop0, |s| + 1, j, c, maxD)
    requires forall k :: stop <= k < stop0 ==> !Passes(row[k], |s|, |t|, k, j, c, maxD)
    requires forall k :: start0 <= k < start ==> !Passes(row[k], |s|, |t|, k, j, c, maxD)
    requires forall k :: start0 <= k < start ==> row'[k] == maxD + 1
    requires forall k :: 0 <= k < |row| && !(start0 <= k < start) ==> row'[k] == row[k]
    ensures Dead(s, t, 0, start, j, c, maxD) && Dead(s, t, stop, |s| + 1, j, c, maxD)
    ensures FaithfulRow(row', s, t, stop, j, c, maxD)
    ensures start < stop && Passes(row'[stop - 1], |s|, |t|, stop - 1, j, c, maxD) ==> Alive(s, t, stop - 1, j, c, maxD)
  {
    hide Cell, Residual;
    forall k | 0 <= k < start ensures !Alive(s, t, k, j, c, maxD) {
      if start0 <= k {
        assert Faithful(row[k], s, t, k, j, c, maxD) && !Passes(row[k], |s|, |t|, k, j, c, maxD);
      }
    }
    forall k | stop <= k < |s| + 1 ensures !Alive(s, t, k, j, c, maxD) {
      if k < stop0 {
        assert Faithful(row[k], s, t, k, j, c, maxD) && !Passes(row[k], |s|, |t|, k, j, c, maxD);
      }
    }
    forall k | 0 <= k < stop ensures Faithful(row'[k], s, t, k, j, c, maxD) {
      assert Faithful(row[k], s, t, k, j, c, maxD);
      if start0 <= k < start {
        SentinelIsFaithful(s, t, k, j, c, maxD);
      }
    }
  }

  /** The ends of the band have met: nothing in the row is alive. */
  lemma BandGone(s: seq<Character>, t: seq<Character>, start: nat, stop: nat, j: nat, c: Costs, maxD: int)
    requires stop <= start <= |s| + 1 && j <= |t| && c.NonNegative()
    requires Dead(s, t, 0, start, j, c, maxD) && Dead(s, t, stop, |s| + 1, j, c, maxD)
    ensures maxD < Distance(s, t, c)
  {
    hide Cell, Alive;
    assert Dead(s, t, 0, |s| + 1, j, c, maxD);
    DeadRow(s, t, j, c, maxD);
  }

  /** After the last row the band reaches the corner, which then holds the distance. */
  lemma CornerWithinBound(prev: seq<int>, curr: seq<int>, s: seq<Character>, t: seq<Character>,
                          start: nat, stop: nat, c: Costs, maxD: int)
    requires Band(prev, curr, s, t, start, stop, |t|, c, maxD) && c.NonNegative() && 0 <= maxD
    requires Alive(s, t, stop - 1, |t|, c, maxD)
    ensures WithinBound(prev[|s|], Distance(s, t, c), maxD)
  {
    hide Cell, Residual;
    AliveUpToZeroPoint(s, t, stop - 1, |s|, |t|, c, maxD);
    assert stop == |s| + 1;
    assert Faithful(prev[|s|], s, t, |s|, |t|, c, maxD);
    CornerResidual(|s|, |t|, c);
  }

  // ---------- The bounded computation ----------

  /** Exact up to the bound; above the bound, anything above it.  A negative bound is no bound. */
  ghost predicate WithinBound(r: int, d: int, maxD: int) {
    if maxD < 0 || d <= maxD then r == d else maxD < r
  }

  method LevenshteinLessEqualInternal(s: Text, t: Text, c0: Costs, maxD0: int) returns (r: Result<int>)
    requires s.Valid() && t.Valid()
    ensures r.Failure? <==> TooLong(s, t)
    ensures r.Success? && (maxD0 < 0 || Sound(c0)) ==>
              WithinBound(r.value, Distance(s.Chars(), t.Chars(), c0), maxD0)
    ensures r.Success? && 0 <= maxD0 && Misled(s.Chars(), t.Chars(), c0, maxD0) ==>
              !WithinBound(r.value, Distance(s.Chars(), t.Chars(), c0), maxD0)
    ensures Join(s.Chars()) == s.bytes && Join(t.Chars()) == t.bytes
    ensures r.Success? ==> TellsApart(s, t, c0, r.value)
  {
    s.CharsMakeUp();
    t.CharsMakeUp();
    r := LessEqualOfChars(s, t, c0, maxD0);
    if r.Success? {
      BoundedTellsApart(s, t, c0, maxD0, r.value);
    }
  }

  lemma BoundedTellsApart(s: Text, t: Text, c: Costs, maxD: int, r: int)
    requires s.Valid() && t.Valid()
    requires maxD < 0 || Sound(c) ==> WithinBound(r, Distance(s.Chars(), t.Chars(), c), maxD)
    ensures TellsApart(s, t, c, r)
  {
    hide Cell;
    DistanceTellsApart(s, t, c);
    if c.Positive() {
      NonNegativeIsSound(c);
    }
  }

  /** The computation, in terms of the characters. */
  method LessEqualOfChars(s: Text, t: Text, c0: Costs, maxD0: int) returns (r: Result<int>)
    requires s.Valid() && t.Valid()
    ensures r.Failure? <==> TooLong(s, t)
    ensures r.Success? && (maxD0 < 0 || Sound(c0)) ==>
              WithinBound(r.value, Distance(s.Chars(), t.Chars(), c0), maxD0)
    ensures r.Success? && 0 <= maxD0 && Misled(s.Chars(), t.Chars(), c0, maxD0) ==>
              !WithinBound(r.value, Distance(s.Chars(), t.Chars(), c0), maxD0)
  {
    hide Cell, Sound;
    ghost var S, T := s.Chars(), t.Chars();
    var m, n := |s.Chars()|, |t.Chars()|;
    if m == 0 {
      FirstColumn(S, T, n, c0);
      return Success(n * c0.ins);
    }
    if n == 0 {
      FirstRow(S, T, m, c0);
      return Success(m * c0.del);
    }
    if m > MAX_LEVENSHTEIN_STRLEN || n > MAX_LEVENSHTEIN_STRLEN {
      return Failure("argument exceeds the maximum length");
    }
    var plan := PlanSearch(S, T, m, n, c0, maxD0);
    if 0 <= maxD0 && Misled(S, T, c0, maxD0) {
      MisledDistance(S, T, c0, maxD0);
    }
    if plan.Exceeded? {
      return Success(maxD0 + 1);
    }
    CapChangesNothing(S, T, m, n, c0);
    NonNegativeIsSound(c0);
    var v := SearchBand(s, t, plan.c, plan.maxD, plan.stop);
    r := Success(v);
  }

  lemma MisledDistance(s: seq<Character>, t: seq<Character>, c: Costs, maxD: int)
    requires Misled(s, t, c, maxD)
    ensures CappedSub(c).sub < 0 ==> Distance(s, t, c) <= maxD
    ensures 0 <= CappedSub(c).sub ==> maxD == 0 < Distance(s, t, c)
    ensures 0 <= CappedSub(c).sub ==> Slips(s, t, CappedSub(c))
  {
    hide Cell;
    if CappedSub(c).sub < 0 {
      GivenUpWrongly(s, t, c, maxD);
    } else {
      AboveTheBound(s, t, c);
    }
  }

  /** Between rows: the whole row when there is no bound, otherwise the band. */
  ghost predicate RowState(prev: seq<int>, curr: seq<int>, s: seq<Character>, t: seq<Character>,
                           start: nat, stop: nat, j: nat, c: Costs, maxD: int)
    requires j <= |t|
  {
    && start < stop <= |s| + 1
    && (maxD < 0 ==> start == 0 && stop == |s| + 1 && ExactRow(prev, s, t, j, c))
    && (0 <= maxD && c.NonNegative() ==> Band(prev, curr, s, t, start, stop, j, c, maxD))
    && (0 <= maxD && c.NonNegative() && 0 < j ==> Alive(s, t, stop - 1, j, c, maxD))
  }

  // ---------- One turn of the row loop ----------

  /** The row as filled from the row above it, which has its sentinel. */
  ghost predicate Filled(s: seq<Character>, t: seq<Character>, j: nat, c: Costs, maxD: int,
                         prev0: seq<int>, curr0: seq<int>, start0: nat, stop0: nat,
                         above: seq<int>, row: seq<int>, stop1: nat)
  {
    && |prev0| == |curr0| == |above| == |row| == |s| + 1 && 0 < j <= |t| && start0 < stop0 <= |s| + 1
    && stop1 == (if stop0 <= |s| then stop0 + 1 else stop0)
    && above == (if stop0 <= |s| then prev0[stop0 := maxD + 1] else prev0)
    && (start0 == 0 ==> row[0] == j * c.ins) && (forall k :: 0 <= k < start0 ==> row[k] == curr0[k])
    && RowFilled(s, t, j, c, above, row, FirstFilled(start0), stop1)
  }

  /** What the two slides leave of the row and the row above it. */
  ghost predicate Slid(s: seq<Character>, t: seq<Character>, j: nat, c: Costs, maxD: int,
                       above: seq<int>, row: seq<int>, start0: nat, stop1: nat,
                       prev: seq<int>, curr: seq<int>, start: nat, stop: nat)
  {
    var m, n := |s|, |t|;
    && |above| == |row| == |prev| == |curr| == m + 1
    && start0 <= start && stop <= stop1 <= m + 1 && start0 < stop1 && (start0 < start ==> start <= stop)
    && (start < stop ==> Passes(row[start], m, n, start, j, c, maxD))
    && (start < stop ==> Passes(row[stop - 1], m, n, stop - 1, j, c, maxD))
    && (forall k :: stop <= k < stop1 ==> !Passes(row[k], m, n, k, j, c, maxD))
    && (forall k :: start0 <= k < start ==> !Passes(row[k], m, n, k, j, c, maxD))
    && (forall k :: start0 <= k < start ==> prev[k] == curr[k] == maxD + 1)
    && (forall k :: 0 <= k <= m && !(start0 <= k < start) ==> prev[k] == above[k] && curr[k] == row[k])
  }

  /** Filling and sliding keep the band, or the ends cross and the distance exceeds the bound. */
  lemma TurnKeepsBand(s: seq<Character>, t: seq<Character>, j: nat, c: Costs, maxD: int,
                      prev0: seq<int>, curr0: seq<int>, start0: nat, stop0: nat,
                      above: seq<int>, row: seq<int>, stop1: nat,
                      prev: seq<int>, curr: seq<int>, start: nat, stop: nat)
    requires 0 <= maxD && 0 < j <= |t| && RowState(prev0, curr0, s, t, start0, stop0, j - 1, c, maxD)
    requires Filled(s, t, j, c, maxD, prev0, curr0, start0, stop0, above, row, stop1)
    requires Slid(s, t, j, c, maxD, above, row, start0, stop1, prev, curr, start, stop)
    ensures start < stop ==> RowState(curr, prev, s, t, start, stop, j, c, maxD)
    ensures stop <= start && c.NonNegative() ==> maxD < Distance(s, t, c)
  {
    hide Cell, Residual, Faithful, Alive, Dead, FaithfulRow, RowFilled, ExactRow;
    if c.NonNegative() {
      NextRowFaithful(s, t, j, c, maxD, prev0, curr0, above, row, start0, stop0, stop1);
      SlideKeepsBand(s, t, j, c, maxD, row, curr, start0, stop1, start, stop);
      if start >= stop {
        BandGone(s, t, start, stop, j, c, maxD);
      }
    }
  }

  // ---------- The rows on which other costs mislead ----------

  /** The rows of the strings on which a sentinel slips under a bound of 0. */
  ghost predicate Trail(prev: seq<int>, curr: seq<int>, s: seq<Character>, t: seq<Character>,
                        start: nat, stop: nat, j: nat, c: Costs)
    requires |prev| == |curr| == |s| + 1
  {
    && (InsertionMisled(s, t, c) ==>
          if j == 0 then start == 0 && stop == 1 && prev[0] == 0 else prev[1] == 1 + c.ins)
    && (DeletionMisled(s, t, c) ==>
          if j == 0 then start == 0 && stop == 1 && prev[0] == 0
          else if j == 1 then start == 1 && stop == 2 && prev[0] == curr[0] == 1 && prev[1] == 0
          else prev[2] == 1 + 2 * c.del)
  }

  lemma TrailGoesOn(s: seq<Character>, t: seq<Character>, j: nat, c: Costs,
                    prev0: seq<int>, curr0: seq<int>, start0: nat, stop0: nat,
                    above: seq<int>, row: seq<int>, stop1: nat,
                    prev: seq<int>, curr: seq<int>, start: nat, stop: nat)
    requires Filled(s, t, j, c, 0, prev0, curr0, start0, stop0, above, row, stop1)
    requires Slid(s, t, j, c, 0, above, row, start0, stop1, prev, curr, start, stop)
    requires Trail(prev0, curr0, s, t, start0, stop0, j - 1, c)
    ensures Slips(s, t, c) ==> start < stop
    ensures Trail(curr, prev, s, t, start, stop, j, c)
  {
    if InsertionMisled(s, t, c) {
      assert row[1] == Step(above[1], row[0], above[0], false, c) == 1 + c.ins;
      assert Passes(row[1], 1, 1, 1, 1, c, 0);
    } else if DeletionMisled(s, t, c) && j == 1 {
      assert row[1] == Step(above[1], row[0], above[0], true, c) == 0;
      assert Passes(row[1], 2, 2, 1, 1, c, 0) && !Passes(row[0], 2, 2, 0, 1, c, 0);
    } else if DeletionMisled(s, t, c) {
      assert row[1] == Step(above[1], row[0], above[0], true, c) == 1 + c.del;
      assert row[2] == Step(above[2], row[1], above[1], false, c) == 1 + 2 * c.del;
      assert Passes(row[2], 2, 2, 2, 2, c, 0);
    }
  }

  // ---------- The row loop ----------

  /** All that is known between rows; `first` is the stop column of the first row. */
  ghost predicate LoopState(prev: seq<int>, curr: seq<int>, s: seq<Character>, t: seq<Character>,
                            start: nat, stop: nat, j: nat, c: Costs, maxD: int, first: nat)
  {
    && |prev| == |curr| == |s| + 1 && j <= |t| && start < stop <= |s| + 1
    && (maxD < 0 ==> start == 0 && stop == |s| + 1)
    && RowState(prev, curr, s, t, start, stop, j, c, maxD)
    && (maxD == 0 && first == 1 ==> Trail(prev, curr, s, t, start, stop, j, c))
  }

  lemma FirstState(prev: seq<int>, curr: seq<int>, s: seq<Character>, t: seq<Character>, stop: nat, c: Costs, maxD: int)
    requires |prev| == |curr| == |s| + 1 && 0 < stop <= |s| + 1 && (maxD < 0 ==> stop == |s| + 1)
    requires forall k :: 0 <= k < stop ==> prev[k] == k * c.del
    requires 0 <= maxD && c.NonNegative() ==> Dead(s, t, stop, |s| + 1, 0, c, maxD)
    ensures LoopState(prev, curr, s, t, 0, stop, 0, c, maxD, stop)
  {
    hide Cell, Dead, Band;
    if maxD < 0 {
      forall k | 0 <= k <= |s| ensures prev[k] == Cell(s, t, k, 0, c) { FirstRow(s, t, k, c); }
    } else if c.NonNegative() {
      FirstBand(prev, curr, s, t, stop, c, maxD);
    }
    assert prev[0] == 0 * c.del;
  }

  /** What the corner holds after the last row. */
  lemma LastState(prev: seq<int>, curr: seq<int>, s: seq<Character>, t: seq<Character>,
                  start: nat, stop: nat, c: Costs, maxD: int, first: nat)
    requires 0 < |t| && LoopState(prev, curr, s, t, start, stop, |t|, c, maxD, first)
    ensures maxD < 0 || c.NonNegative() ==> WithinBound(prev[|s|], Distance(s, t, c), maxD)
    ensures maxD == 0 && first == 1 && Slips(s, t, c) ==> prev[|s|] <= 0
  {
    hide Cell, Alive, Band;
    if 0 <= maxD && c.NonNegative() {
      CornerWithinBound(prev, curr, s, t, start, stop, c, maxD);
    }
  }

  /** Fills the next row into `curr` and slides the ends of its band inwards. */
  method NextRow(s: Text, t: Text, lens: array?<int>, sData0: nat, y: nat, yLen: nat, j: nat, c: Costs, maxD: int,
                 prev: array<int>, curr: array<int>, start0: nat, stop0: nat, ghost first: nat)
    returns (start: nat, stop: nat, sData: nat)
    requires s.Valid() && t.Valid() && 0 < j <= |t.Chars()| && 0 < |s.Chars()|
    requires Cached(lens, s, t) && prev != curr && lens != prev && lens != curr
    requires prev.Length == curr.Length == |s.Chars()| + 1
    requires LoopState(prev[..], curr[..], s.Chars(), t.Chars(), start0, stop0, j - 1, c, maxD, first)
    requires sData0 == s.Offset(FirstFilled(start0) - 1) && y == t.Offset(j - 1) && yLen == |t.Chars()[j - 1]|
    modifies prev, curr
    ensures start < stop ==> LoopState(curr[..], prev[..], s.Chars(), t.Chars(), start, stop, j, c, maxD, first)
    ensures start < stop ==> sData == s.Offset(FirstFilled(start) - 1)
    ensures stop <= start ==> 0 <= maxD && (c.NonNegative() ==> maxD < Distance(s.Chars(), t.Chars(), c))
    ensures maxD == 0 && first == 1 && Slips(s.Chars(), t.Chars(), c) ==> start < stop
  {
    hide Cell, RowFilled, Cached, ExactRow, Trail, RowState, Passes, Slips;
    ghost var S, T, prev0, curr0 := s.Chars(), t.Chars(), prev[..], curr[..];
    start, sData := start0, sData0;
    stop := BandRow(s, t, lens, sData, y, yLen, j, c, maxD, prev, curr, start, stop0);
    ghost var above, row, stop1 := prev[..], curr[..], stop;
    assert Filled(S, T, j, c, maxD, prev0, curr0, start0, stop0, above, row, stop1);
    if maxD < 0 {
      UnboundedTurn(S, T, j, c, maxD, prev0, curr0, stop0, above, row, stop1);
    } else {
      start, stop, sData := SlideColumns(s, t, lens, sData, j, c, maxD, curr, prev, start, stop);
      assert Slid(S, T, j, c, maxD, above, row, start0, stop1, prev[..], curr[..], start, stop);
      BoundedTurn(S, T, j, c, maxD, prev0, curr0, start0, stop0, above, row, stop1,
                  prev[..], curr[..], start, stop, first);
    }
  }

  /** The strings on which, for other costs, the sentinel slips under a bound of 0. */
  ghost predicate Slips(s: seq<Character>, t: seq<Character>, c: Costs) {
    InsertionMisled(s, t, c) || DeletionMisled(s, t, c)
  }

  lemma UnboundedTurn(s: seq<Character>, t: seq<Character>, j: nat, c: Costs, maxD: int,
                      prev0: seq<int>, curr0: seq<int>, stop0: nat, above: seq<int>, row: seq<int>, stop1: nat)
    requires maxD < 0 < j <= |t| && stop0 == |s| + 1 && RowState(prev0, curr0, s, t, 0, stop0, j - 1, c, maxD)
    requires Filled(s, t, j, c, maxD, prev0, curr0, 0, stop0, above, row, stop1)
    ensures RowState(row, above, s, t, 0, stop1, j, c, maxD)
  {
    hide Cell, RowFilled;
    NextRowExact(s, t, j, c, above, row);
  }

  lemma BoundedTurn(s: seq<Character>, t: seq<Character>, j: nat, c: Costs, maxD: int,
                    prev0: seq<int>, curr0: seq<int>, start0: nat, stop0: nat,
                    above: seq<int>, row: seq<int>, stop1: nat,
                    prev: seq<int>, curr: seq<int>, start: nat, stop: nat, first: nat)
    requires 0 <= maxD && 0 < j <= |t| && LoopState(prev0, curr0, s, t, start0, stop0, j - 1, c, maxD, first)
    requires Filled(s, t, j, c, maxD, prev0, curr0, start0, stop0, above, row, stop1)
    requires Slid(s, t, j, c, maxD, above, row, start0, stop1, prev, curr, start, stop)
    ensures start < stop ==> LoopState(curr, prev, s, t, start, stop, j, c, maxD, first)
    ensures stop <= start && c.NonNegative() ==> maxD < Distance(s, t, c)
    ensures maxD == 0 && first == 1 && Slips(s, t, c) ==> start < stop
  {
    hide Cell, RowFilled, Trail, RowState, Passes, InsertionMisled, DeletionMisled, Filled;
    TurnKeepsBand(s, t, j, c, maxD, prev0, curr0, start0, stop0, above, row, stop1, prev, curr, start, stop);
    if maxD == 0 && first == 1 {
      TrailGoesOn(s, t, j, c, prev0, curr0, start0, stop0, above, row, stop1, prev, curr, start, stop);
    }
  }

  /** Both compiled forms of the row loop, for a bound that has been planned. */
  method SearchBand(s: Text, t: Text, c: Costs, maxD: int, stop0: nat) returns (r: int)
    requires s.Valid() && t.Valid() && 0 < |s.Chars()| && 0 < |t.Chars()|
    requires 0 < stop0 <= |s.Chars()| + 1 && (maxD < 0 ==> stop0 == |s.Chars()| + 1)
    requires 0 <= maxD && c.NonNegative() ==> Dead(s.Chars(), t.Chars(), stop0, |s.Chars()| + 1, 0, c, maxD)
    ensures maxD < 0 || c.NonNegative() ==> WithinBound(r, Distance(s.Chars(), t.Chars(), c), maxD)
    ensures maxD == 0 && stop0 == 1 && Slips(s.Chars(), t.Chars(), c) ==> r <= 0
  {
    hide Cell, Dead, RowState, Trail, Slips;
    ghost var S, T := s.Chars(), t.Chars();
    var m, n := |s.Chars()|, |t.Chars()|;
    var lens: array?<int> := null;
    if m != |s.bytes| || n != |t.bytes| {
      lens := CharLengths(s);
    }
    var start, stop := 0, stop0;
    var prev, curr := new int[m + 1], new int[m + 1];
    for i := start to stop
      invariant Cached(lens, s, t)
      invariant forall k :: 0 <= k < i ==> prev[k] == k * c.del
    {
      prev[i] := i * c.del;
    }
    FirstState(prev[..], curr[..], S, T, stop, c, maxD);
    var y, sData := 0, 0;
    for j := 1 to n + 1
      invariant prev.Length == curr.Length == m + 1 && prev != curr && lens != curr && lens != prev
      invariant fresh(prev) && fresh(curr)
      invariant Cached(lens, s, t)
      invariant LoopState(prev[..], curr[..], S, T, start, stop, j - 1, c, maxD, stop0)
      invariant y == t.Offset(j - 1) && sData == s.Offset(FirstFilled(start) - 1)
    {
      t.CharAt(j - 1);
      var yLen := if n != |t.bytes| then t.mblen(t.bytes[y..]) else 1;
      if n == |t.bytes| { t.SingleBytes(j - 1); }
      start, stop, sData := NextRow(s, t, lens, sData, y, yLen, j, c, maxD, prev, curr, start, stop, stop0);
      prev, curr := curr, prev;
      y := y + yLen;
      if start >= stop {
        return maxD + 1;
      }
    }
    LastState(prev[..], curr[..], S, T, start, stop, c, maxD, stop0);
    return prev[m];
  }
}
