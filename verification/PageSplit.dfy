/** Splitting a page by sorting its entries: what the split functions of btree_gist have in common. */
module PageSplit {
  /** An entry with its offset on the page. */
  datatype Numbered<K> = Numbered(i: nat, key: K)

  /** The entries of a page with their offsets, which start at 1; entry 0 is unused. */
  function Number<K>(entries: seq<K>): seq<Numbered<K>>
    requires entries != []
  {
    seq(|entries| - 1, i requires 0 <= i < |entries| - 1 => Numbered(i + 1, entries[i + 1]))
  }

  lemma {:induction false} NumberedOnce<K>(entries: seq<K>, e: Numbered<K>, k: nat)
    requires entries != [] && k < |entries|
    ensures multiset(Number(entries)[..k])[e] == if 1 <= e.i <= k && e.key == entries[e.i] then 1 else 0
  {
    if 0 < k {
      var all := Number(entries);
      NumberedOnce(entries, e, k - 1);
      assert all[..k] == all[..k - 1] + [all[k - 1]];
    }
  }

  /** Every offset but zero is there once, with the entry found at it. */
  lemma NumberExactly<K>(entries: seq<K>, e: Numbered<K>)
    requires entries != []
    ensures multiset(Number(entries))[e] == if 1 <= e.i < |entries| && e.key == entries[e.i] then 1 else 0
  {
    NumberedOnce(entries, e, |entries| - 1);
    assert Number(entries)[..|entries| - 1] == Number(entries);
  }

  function KeysOf<K>(s: seq<Numbered<K>>): (ks: seq<K>)
    ensures |ks| == |s|
  {
    seq(|s|, i requires 0 <= i < |s| => s[i].key)
  }

  /** These are the offsets of the entries on one side. */
  ghost predicate Lists<K>(offsets: seq<nat>, side: seq<Numbered<K>>) {
    |offsets| == |side| && forall k :: 0 <= k < |side| ==> offsets[k] == side[k].i
  }

  ghost predicate Sorted<K>(le: (K, K) -> bool, s: seq<Numbered<K>>) {
    forall i, j :: 0 <= i < j < |s| ==> le(s[i].key, s[j].key)
  }

  /** Any sorting routine: it returns a sorted permutation. */
  ghost predicate Sorts<K(!new)>(le: (K, K) -> bool, qsort: seq<Numbered<K>> -> seq<Numbered<K>>) {
    forall s :: Sorted(le, qsort(s)) && multiset(qsort(s)) == multiset(s)
  }

  lemma SameSize<T>(a: seq<T>, b: seq<T>)
    requires multiset(a) == multiset(b)
    ensures |a| == |b|
  {
    assert |multiset(a)| == |a| && |multiset(b)| == |b|;
  }

  lemma LeftBelowRight<K>(le: (K, K) -> bool, l: seq<Numbered<K>>, r: seq<Numbered<K>>)
    requires Sorted(le, l + r)
    ensures Sorted(le, l) && Sorted(le, r)
    ensures forall a, b :: a in l && b in r ==> le(a.key, b.key)
  {
    var s := l + r;
    assert forall i :: 0 <= i < |l| ==> s[i] == l[i];
    assert forall j :: 0 <= j < |r| ==> s[|l| + j] == r[j];
    forall a, b | a in l && b in r ensures le(a.key, b.key) {
      var i :| 0 <= i < |l| && l[i] == a;
      var j :| 0 <= j < |r| && r[j] == b;
      assert s[i] == a && s[|l| + j] == b;
    }
  }

  lemma KeysOfMore<K>(side: seq<Numbered<K>>, e: Numbered<K>)
    ensures KeysOf(side + [e]) == KeysOf(side) + [e.key]
  {
  }

  /** Appends one offset to the list at the front of a split's array. */
  method Append(a: array<nat>, n: nat, k: nat)
    requires n < a.Length
    modifies a
    ensures a[..n + 1] == old(a[..n]) + [k]
  {
    a[n] := k;
  }
}
