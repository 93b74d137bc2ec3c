/**
 Lists of runs and the arrays they stand for.  A float8 is only ever moved and compared
 by memcmp, so it is its 64-bit pattern here.
 */
module Runs {
  import opened CompWord

  type Float8 = bits: int | 0 <= bits < 0x1_0000_0000_0000_0000

  datatype Run = Run(value: Float8, count: nat)

  function Repeat(v: Float8, n: nat): (r: seq<Float8>)
    ensures |r| == n && forall k :: 0 <= k < n ==> r[k] == v
  {
    seq(n, _ => v)
  }

  function Total(rs: seq<Run>): nat {
    if rs == [] then 0 else Total(rs[..|rs| - 1]) + rs[|rs| - 1].count
  }

  /** The uncompressed array. */
  function Expand(rs: seq<Run>): (r: seq<Float8>)
    ensures |r| == Total(rs)
  {
    if rs == [] then [] else Expand(rs[..|rs| - 1]) + Repeat(rs[|rs| - 1].value, rs[|rs| - 1].count)
  }

  function Values(rs: seq<Run>): seq<Float8> {
    seq(|rs|, i requires 0 <= i < |rs| => rs[i].value)
  }

  function Counts(rs: seq<Run>): seq<int> {
    seq(|rs|, i requires 0 <= i < |rs| => rs[i].count)
  }

  predicate Positive(rs: seq<Run>) {
    forall i :: 0 <= i < |rs| ==> 0 < rs[i].count
  }

  predicate NeighboursDiffer(rs: seq<Run>) {
    forall i :: 0 < i < |rs| ==> rs[i - 1].value != rs[i].value
  }

  /** Maximal runs: none empty, and no two adjacent ones of the same value. */
  predicate Canonical(rs: seq<Run>) {
    Positive(rs) && NeighboursDiffer(rs)
  }

  lemma TotalAppend(rs: seq<Run>, r: Run)
    ensures Total(rs + [r]) == Total(rs) + r.count
    ensures Expand(rs + [r]) == Expand(rs) + Repeat(r.value, r.count)
    ensures Counts(rs + [r]) == Counts(rs) + [r.count]
    ensures Values(rs + [r]) == Values(rs) + [r.value]
  {
  }

  lemma TotalPrefix(rs: seq<Run>, i: nat)
    requires i < |rs|
    ensures Total(rs[..i + 1]) == Total(rs[..i]) + rs[i].count
    ensures Expand(rs[..i + 1]) == Expand(rs[..i]) + Repeat(rs[i].value, rs[i].count)
    ensures Counts(rs[..i + 1]) == Counts(rs[..i]) + [rs[i].count]
  {
    TotalAppend(rs[..i], rs[i]);
    assert rs[..i] + [rs[i]] == rs[..i + 1];
  }

  lemma {:induction false} PrefixWithin(rs: seq<Run>, i: nat)
    requires i <= |rs|
    ensures Total(rs[..i]) <= Total(rs) && Expand(rs[..i]) <= Expand(rs)
    ensures Index(Counts(rs[..i])) <= Index(Counts(rs))
    ensures Counts(rs)[..i] == Counts(rs[..i])
    decreases |rs| - i
  {
    hide Total, Expand, Index, Repeat, Entry;
    if i == |rs| {
      assert rs[..i] == rs;
    } else {
      TotalPrefix(rs, i);
      PrefixWithin(rs, i + 1);
      IndexAppend(Counts(rs[..i]), rs[i].count);
    }
  }

  /** Between two run boundaries the array is constant. */
  lemma ExpandAt(rs: seq<Run>, i: nat, p: nat)
    requires i < |rs| && Total(rs[..i]) <= p < Total(rs[..i + 1])
    ensures p < Total(rs) && Expand(rs)[p] == rs[i].value
  {
    hide Total, Expand;
    TotalPrefix(rs, i);
    PrefixWithin(rs, i + 1);
  }

  /** How many equal elements end the array. */
  function TailRun(s: seq<Float8>): nat {
    if |s| <= 1 then |s|
    else if s[|s| - 1] == s[|s| - 2] then 1 + TailRun(s[..|s| - 1])
    else 1
  }

  lemma {:induction false} TailRunOfRepeat(s: seq<Float8>, v: Float8, n: nat)
    requires 0 < n && (s == [] || s[|s| - 1] != v)
    ensures TailRun(s + Repeat(v, n)) == n
  {
    var t := s + Repeat(v, n);
    assert t[|t| - 1] == v;
    if 1 < n {
      TailRunOfRepeat(s, v, n - 1);
      assert t[..|t| - 1] == s + Repeat(v, n - 1);
    }
  }

  /** The last maximal run can be read off the array. */
  lemma LastRun(a: seq<Run>)
    requires a != [] && Canonical(a)
    ensures Canonical(a[..|a| - 1])
    ensures 0 < |Expand(a)| && Expand(a)[|Expand(a)| - 1] == a[|a| - 1].value
    ensures TailRun(Expand(a)) == a[|a| - 1].count
    ensures Expand(a)[..|Expand(a)| - a[|a| - 1].count] == Expand(a[..|a| - 1])
  {
    hide TailRun;
    var front := a[..|a| - 1];
    if front != [] {
      assert front[|front| - 1].value != a[|a| - 1].value;
    }
    TailRunOfRepeat(Expand(front), a[|a| - 1].value, a[|a| - 1].count);
  }

  /** An array has only one list of maximal runs. */
  lemma {:induction false} CanonicalUnique(a: seq<Run>, b: seq<Run>)
    requires Canonical(a) && Canonical(b) && Expand(a) == Expand(b)
    ensures a == b
    decreases |a|
  {
    hide Expand, TailRun, Total;
    NoRunsForEmpty(a);
    NoRunsForEmpty(b);
    if a != [] {
      LastRun(a);
      LastRun(b);
      CanonicalUnique(a[..|a| - 1], b[..|b| - 1]);
      assert a == a[..|a| - 1] + [a[|a| - 1]] && b == b[..|b| - 1] + [b[|b| - 1]];
    }
  }

  lemma NoRunsForEmpty(a: seq<Run>)
    requires Canonical(a)
    ensures a == [] <==> Expand(a) == []
  {
  }
}
