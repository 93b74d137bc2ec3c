/**
 Sparse vectors: run-length encoded float8 arrays (SparseData.h, SparseData.c) and the
 operations that work on the compressed form.
 */
module SparseVectors {
  import opened Bytes
  import opened CompWord
  import opened Runs
  import opened Integers

  class SparseData {
    ghost var runs: seq<Run>

    var vals: seq<Float8>
    var index: seq<SignedChar>
    var uniqueValueCount: int
    var totalValueCount: int

    ghost predicate Valid()
      reads this
    {
      && vals == Values(runs) && index == Index(Counts(runs))
      && uniqueValueCount == |runs| && totalValueCount == Total(runs) <= INT32_MAX
    }

    /** The array this vector stands for. */
    ghost function Contents(): seq<Float8>
      reads this
    {
      Expand(runs)
    }

    constructor ()
      ensures Valid() && runs == []
    {
      vals, index, uniqueValueCount, totalValueCount := [], [], 0, 0;
      runs := [];
    }

    /** append_to_rle_index */
    method AppendToRleIndex(runLen: int)
      requires 0 <= runLen <= INT64_MAX
      modifies this`index
      ensures index == old(index) + Entry(runLen)
    {
      var bytes := new SignedChar[9](_ => 0);
      Int8ToCompword(runLen, bytes);
      EntryRoundTrip(runLen, [], []);
      assert bytes[..|Entry(runLen)|][0] == bytes[0];
      index := index + bytes[..StorageSize(bytes[0])];
    }

    /** add_run_to_sdata */
    method AddRun(runVal: Float8, runLen: nat)
      requires Valid() && Total(runs) + runLen <= INT32_MAX
      modifies this
      ensures Valid() && runs == old(runs) + [Run(runVal, runLen)]
    {
      vals := vals + [runVal];
      AppendToRleIndex(runLen);
      uniqueValueCount := uniqueValueCount + 1;
      totalValueCount := totalValueCount + runLen;
      TotalAppend(runs, Run(runVal, runLen));
      IndexAppend(Counts(runs), runLen);
      runs := runs + [Run(runVal, runLen)];
    }

    /** compword_to_int8 at the i-th entry of the index */
    method ReadCount(ghost i: nat, iptr: nat) returns (count: nat)
      requires Valid() && i < |runs| && iptr == |Index(Counts(runs[..i]))|
      ensures count == runs[i].count
      ensures Total(runs[..i + 1]) == Total(runs[..i]) + count <= Total(runs)
    {
      CountAt(runs, i);
      count := CompwordToInt8(index, iptr).value;
    }

    /** iptr += int8compstoragesize(iptr) at the i-th entry of the index */
    method NextEntry(ghost i: nat, iptr: nat) returns (next: nat)
      requires Valid() && i < |runs| && iptr == |Index(Counts(runs[..i]))|
      ensures next == |Index(Counts(runs[..i + 1]))| <= |index|
      ensures i + 1 == |runs| ==> next == |index|
    {
      CountAt(runs, i);
      next := iptr + StorageSize(index[iptr]);
    }
  }

  lemma {:induction false} SmallCounts(rs: seq<Run>, i: nat)
    requires i < |rs| && Total(rs) <= INT32_MAX
    ensures rs[i].count <= INT32_MAX
  {
    TotalPrefix(rs, i);
    PrefixWithin(rs, i + 1);
  }

  /** WalkStep for the index of a list of runs. */
  lemma CountAt(rs: seq<Run>, i: nat)
    requires i < |rs| && Total(rs) <= INT32_MAX
    ensures CompwordToInt8(Index(Counts(rs)), |Index(Counts(rs[..i]))|) == Some(rs[i].count)
    ensures |Index(Counts(rs[..i]))| < |Index(Counts(rs))|
    ensures |Index(Counts(rs[..i]))| + StorageSize(Index(Counts(rs))[|Index(Counts(rs[..i]))|])
         == |Index(Counts(rs[..i + 1]))| <= |Index(Counts(rs))|
    ensures Total(rs[..i + 1]) == Total(rs[..i]) + rs[i].count <= Total(rs)
    ensures i + 1 == |rs| ==> |Index(Counts(rs[..i + 1]))| == |Index(Counts(rs))|
  {
    hide Total, Index, CompwordToInt8, StorageSize;
    TotalPrefix(rs, i);
    PrefixWithin(rs, i);
    PrefixWithin(rs, i + 1);
    forall k | 0 <= k < |rs| ensures rs[k].count <= INT32_MAX { SmallCounts(rs, k); }
    WalkStep(Counts(rs), i);
  }

  // ---------- Compressing and uncompressing ----------

  predicate EndsOtherThan(rs: seq<Run>, v: Float8) {
    rs == [] || rs[|rs| - 1].value != v
  }

  lemma CanonicalAppend(rs: seq<Run>, r: Run)
    requires NeighboursDiffer(rs) && EndsOtherThan(rs, r.value)
    ensures NeighboursDiffer(rs + [r])
    ensures Positive(rs) && 0 < r.count ==> Positive(rs + [r])
  {
  }

  lemma RepeatMore(s: seq<Float8>, v: Float8, n: nat, k: nat)
    ensures s + Repeat(v, n) + Repeat(v, k) == s + Repeat(v, n + k)
  {
  }

  /** float8arr_to_sdata */
  method Float8ArrToSdata(data: seq<Float8>) returns (sdata: SparseData)
    requires 1 <= |data| <= INT32_MAX
    ensures fresh(sdata) && sdata.Valid()
    ensures sdata.Contents() == data && Canonical(sdata.runs)
  {
    var runVal := data[0];
    var runLen: nat := 1;
    sdata := new SparseData();
    assert sdata.Contents() + Repeat(runVal, 1) == data[..1];
    hide Expand, Total, Values, Counts, Index, Repeat, Positive, NeighboursDiffer, EndsOtherThan;
    for i := 1 to |data|
      invariant fresh(sdata) && sdata.Valid() && 0 < runLen
      invariant sdata.Contents() + Repeat(runVal, runLen) == data[..i]
      invariant Canonical(sdata.runs) && EndsOtherThan(sdata.runs, runVal)
    {
      var currVal := data[i];
      NextElement(sdata.runs, runVal, runLen, data, i);
      if currVal != runVal {
        CanonicalAppend(sdata.runs, Run(runVal, runLen));
        sdata.AddRun(runVal, runLen);
        runVal, runLen := currVal, 1;
      } else {
        runLen := runLen + 1;
      }
    }
    assert data[..|data|] == data;
    TotalAppend(sdata.runs, Run(runVal, runLen));
    CanonicalAppend(sdata.runs, Run(runVal, runLen));
    sdata.AddRun(runVal, runLen);
  }

  /** The next element either lengthens the current run or closes it. */
  lemma NextElement(rs: seq<Run>, v: Float8, n: nat, data: seq<Float8>, i: nat)
    requires i < |data| && Expand(rs) + Repeat(v, n) == data[..i]
    ensures data[i] == v ==> Expand(rs) + Repeat(v, n + 1) == data[..i + 1]
    ensures Total(rs) + n <= |data| && Expand(rs + [Run(v, n)]) + Repeat(data[i], 1) == data[..i + 1]
    ensures EndsOtherThan(rs + [Run(v, n)], data[i]) <==> data[i] != v
  {
    hide Expand, Total;
    TotalAppend(rs, Run(v, n));
    RepeatMore(Expand(rs), v, n, 1);
    assert data[..i + 1] == data[..i] + Repeat(data[i], 1);
  }

  /** The inner loop of sdata_to_float8arr: one value, written count times. */
  method FillRun(arr: array<Float8>, aptr0: nat, v: Float8, count: nat) returns (aptr: nat)
    requires aptr0 + count <= arr.Length
    modifies arr
    ensures aptr == aptr0 + count && arr[..aptr] == old(arr[..aptr0]) + Repeat(v, count)
  {
    aptr := aptr0;
    for j := 0 to count
      invariant aptr == aptr0 + j
      invariant arr[..aptr] == old(arr[..aptr0]) + Repeat(v, j)
    {
      arr[aptr] := v;
      aptr := aptr + 1;
    }
  }

  /** sdata_to_float8arr */
  method SdataToFloat8Arr(sdata: SparseData) returns (r: Result<array<Float8>>)
    requires sdata.Valid()
    ensures r.Success? && fresh(r.value) && r.value[..] == sdata.Contents()
  {
    hide Expand, Total, Counts, Index, Repeat;
    var arr := new Float8[sdata.totalValueCount];
    var iptr, aptr := 0, 0;
    NoRuns(sdata.runs);
    for i := 0 to sdata.uniqueValueCount
      invariant iptr == |Index(Counts(sdata.runs[..i]))| && aptr == Total(sdata.runs[..i]) <= arr.Length
      invariant arr[..aptr] == Expand(sdata.runs[..i])
    {
      TotalPrefix(sdata.runs, i);
      PrefixWithin(sdata.runs, i + 1);
      var count := sdata.ReadCount(i, iptr);
      aptr := FillRun(arr, aptr, sdata.vals[i], count);
      iptr := sdata.NextEntry(i, iptr);
    }
    assert sdata.runs[..|sdata.runs|] == sdata.runs;
    assert arr[..aptr] == arr[..];
    if aptr != sdata.totalValueCount {
      return Failure("Array size is incorrect");
    }
    r := Success(arr);
  }

  lemma NoRuns(rs: seq<Run>)
    ensures Total(rs[..0]) == 0 && Expand(rs[..0]) == [] && |Index(Counts(rs[..0]))| == 0
  {
  }

  /** sdata_index_to_int64arr: the counts, with the walk ending at the end of the index. */
  method SdataIndexToInt64Arr(sdata: SparseData) returns (counts: array<int>, iptr: nat)
    requires sdata.Valid()
    ensures counts[..] == Counts(sdata.runs) && iptr == |sdata.index|
  {
    counts := new int[sdata.uniqueValueCount];
    iptr := 0;
    for i := 0 to sdata.uniqueValueCount
      invariant iptr == |Index(Counts(sdata.runs[..i]))|
      invariant counts[..i] == Counts(sdata.runs[..i])
    {
      TotalPrefix(sdata.runs, i);
      var count := sdata.ReadCount(i, iptr);
      counts[i] := count;
      iptr := sdata.NextEntry(i, iptr);
    }
    assert sdata.runs[..|sdata.runs|] == sdata.runs;
  }

  // ---------- Equality ----------

  /** memcmp(a, b, n) == 0, which reads both buffers only up to their first difference. */
  method SameBytes<T(==)>(a: seq<T>, b: seq<T>, n: nat) returns (same: bool)
    requires n <= |a| && (|b| < n ==> !(b <= a))
    ensures same <==> n <= |b| && a[..n] == b[..n]
  {
    var k := 0;
    WholePrefix(a, b, 0);
    while k < n
      invariant k <= n && k <= |b| && (k < n ==> k < |b|) && a[..k] == b[..k]
    {
      if a[k] != b[k] {
        return false;
      }
      k := k + 1;
      WholePrefix(a, b, k);
    }
    return true;
  }

  lemma WholePrefix<T>(a: seq<T>, b: seq<T>, k: nat)
    requires k <= |a| && k <= |b| && a[..k] == b[..k]
    ensures k == |b| ==> b <= a
  {
  }

  lemma IndexDecidesRuns(a: seq<Run>, b: seq<Run>)
    requires |a| == |b| && Total(a) <= INT32_MAX && Total(b) <= INT32_MAX
    requires Index(Counts(a)) <= Index(Counts(b))
    ensures Counts(a) == Counts(b)
  {
    hide Total, Index;
    forall k | 0 <= k < |a| ensures a[k].count <= INT32_MAX && b[k].count <= INT32_MAX {
      SmallCounts(a, k);
      SmallCounts(b, k);
    }
    PrefixFree(Counts(a), Counts(b), |a|);
    assert Counts(a)[..|a|] == Counts(a) && Counts(b)[..|a|] == Counts(b);
  }

  /**
   sparsedata_eq.  The index comparison covers left's index only, which may be longer than
   right's; the difference is then found before right's index ends.
   */
  method SparsedataEq(left: SparseData, right: SparseData) returns (eq: bool)
    requires left.Valid() && right.Valid()
    ensures eq <==> left.runs == right.runs
    ensures Canonical(left.runs) && Canonical(right.runs) ==> (eq <==> left.Contents() == right.Contents())
  {
    hide Total, Index, Expand, NeighboursDiffer, Positive;
    ghost var a, b := left.runs, right.runs;
    if Canonical(a) && Canonical(b) && Expand(a) == Expand(b) {
      CanonicalUnique(a, b);
    }
    if left.totalValueCount != right.totalValueCount || left.uniqueValueCount != right.uniqueValueCount {
      return false;
    }
    if a != b {
      DifferentRuns(a, b);
    }
    var sameVals := SameBytes(left.vals, right.vals, |left.vals|);
    if !sameVals {
      return false;
    }
    eq := SameBytes(left.index, right.index, |left.index|);
  }

  /** Equally many runs with the same values differ within the shorter of their indexes. */
  lemma DifferentRuns(a: seq<Run>, b: seq<Run>)
    requires |a| == |b| && a != b && Total(a) <= INT32_MAX && Total(b) <= INT32_MAX
    ensures Values(a) == Values(b) ==>
              !(Index(Counts(a)) <= Index(Counts(b))) && !(Index(Counts(b)) <= Index(Counts(a)))
  {
    hide Total, Index;
    if Index(Counts(a)) <= Index(Counts(b)) {
      IndexDecidesRuns(a, b);
    }
    if Index(Counts(b)) <= Index(Counts(a)) {
      IndexDecidesRuns(b, a);
    }
    if Values(a) == Values(b) && Counts(a) == Counts(b) {
      SameRuns(a, b);
    }
  }

  lemma SameRuns(a: seq<Run>, b: seq<Run>)
    requires |a| == |b| && Values(a) == Values(b) && Counts(a) == Counts(b)
    ensures a == b
  {
    forall k | 0 <= k < |a| ensures a[k] == b[k] {
      assert Values(a)[k] == Values(b)[k] && Counts(a)[k] == Counts(b)[k];
    }
  }
}
