/**
 For which costs levenshtein_less_equal is right.  Costs may be negative.  For some such costs
 the bound is always given up rightly or dropped; for all others there are two short strings
 and a bound for which the result is wrong.
 */
module BoundedCosts {
  import opened EditDistance
  import opened EditBand
  import opened Integers

  function MinTheoD(m: nat, n: nat, c: Costs): int {
    var netInserts := n - m;
    if netInserts < 0 then -netInserts * c.del else netInserts * c.ins
  }

  function MaxTheoD(m: nat, n: nat, c: Costs): int {
    MinTheoD(m, n, c) + c.sub * Min(m, n)
  }

  lemma CapKeepsMinimum(m: nat, n: nat, c: Costs)
    ensures MinTheoD(m, n, CappedSub(c)) == MinTheoD(m, n, c)
  {
  }

  /**
   No cost is negative; or substitutions, once capped, are free; or no operation costs anything
   and substitutions bring something in.
   */
  predicate Sound(c: Costs) {
    var sub := CappedSub(c).sub;
    c.NonNegative() || sub == 0 || (sub < 0 && c.ins <= 0 && c.del <= 0)
  }

  lemma NonNegativeIsSound(c: Costs)
    ensures CappedSub(c).NonNegative() ==> c.NonNegative()
    ensures c.NonNegative() ==> Sound(c)
  {
  }

  /** When a bound is kept at all for such costs, none of them is negative. */
  lemma SoundBounds<C>(s: seq<C>, t: seq<C>, c: Costs, maxD: int)
    requires Sound(c) && 0 <= maxD
    ensures maxD < MinTheoD(|s|, |t|, c) ==> maxD < Distance(s, t, c)
    ensures MinTheoD(|s|, |t|, c) <= maxD < MaxTheoD(|s|, |t|, CappedSub(c)) ==> c.NonNegative()
  {
    hide Cell;
    var m, n, sub := |s|, |t|, CappedSub(c).sub;
    if c.Balanced() {
      TheoreticalMinimum(s, t, c);
    }
    if sub <= 0 {
      assert sub * Min(m, n) <= 0;
    }
  }

  // ---------- Strings on which other costs mislead ----------

  ghost predicate InsertionMisled<C>(s: seq<C>, t: seq<C>, c: Costs) {
    && |s| == |t| == 1 && s[0] != t[0]
    && c.ins < 0 < c.sub <= c.ins + c.del
  }

  ghost predicate DeletionMisled<C>(s: seq<C>, t: seq<C>, c: Costs) {
    && |s| == |t| == 2 && t[0] == t[1] == s[0] != s[1]
    && c.del < 0 < c.sub <= c.ins + c.del
  }

  /** A bound that is given up although the distance is within it, or kept while a sentinel slips under it. */
  ghost predicate Misled<C>(s: seq<C>, t: seq<C>, c: Costs, maxD: int) {
    var d := CappedSub(c);
    || (|s| == 1 && |t| == 2 && s[0] != t[0] && d.sub < 0 < c.ins && maxD == c.ins - 1)
    || (|s| == 2 && |t| == 1 && s[0] != t[0] && d.sub < 0 < c.del && maxD == c.del - 1)
    || (maxD == 0 && (InsertionMisled(s, t, d) || DeletionMisled(s, t, d)))
  }

  /** The costs are sound exactly when no strings and bound are such. */
  lemma SoundExactly<C(!new)>(c: Costs, x: C, y: C)
    requires x != y
    ensures Sound(c) <==> forall s: seq<C>, t: seq<C>, maxD :: !Misled(s, t, c, maxD)
  {
    if !Sound(c) {
      var s, t, maxD := SomeMisled(c, x, y);
    }
  }

  lemma SomeMisled<C>(c: Costs, x: C, y: C) returns (s: seq<C>, t: seq<C>, maxD: int)
    requires x != y && !Sound(c)
    ensures Misled(s, t, c, maxD) && 0 <= maxD && 1 <= |s| <= 2 && 1 <= |t| <= 2
  {
    if CappedSub(c).sub < 0 {
      if 0 < c.ins {
        s, t, maxD := [x], [y, y], c.ins - 1;
      } else {
        s, t, maxD := [x, x], [y], c.del - 1;
      }
    } else if c.ins < 0 {
      s, t, maxD := [x], [y], 0;
    } else {
      s, t, maxD := [x, y], [x, x], 0;
    }
  }

  /** Such a bound is given up, though the distance is within it ... */
  lemma GivenUpWrongly<C>(s: seq<C>, t: seq<C>, c: Costs, maxD: int)
    requires Misled(s, t, c, maxD) && CappedSub(c).sub < 0
    ensures Distance(s, t, c) <= maxD < MinTheoD(|s|, |t|, c)
  {
    var d := CappedSub(c);
    CapChangesNothing(s, t, |s|, |t|, c);
    hide Cell;
    OneStep(s, t, 1, 1, d);
    OneStep(s, t, |s|, |t|, d);
    FirstRow(s, t, 0, d);
  }

  /** ... or kept, though the distance is above it. */
  lemma AboveTheBound<C>(s: seq<C>, t: seq<C>, c: Costs)
    requires InsertionMisled(s, t, CappedSub(c)) || DeletionMisled(s, t, CappedSub(c))
    ensures 0 < Distance(s, t, c)
    ensures MinTheoD(|s|, |t|, c) == 0 < MaxTheoD(|s|, |t|, CappedSub(c))
  {
  }
}
