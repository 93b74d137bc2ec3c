/**
 levenshtein: the two-row computation of the edit distance, and the row-filling loops it
 shares with the bounded form.  They work on the bytes of the two texts, moving byte
 offsets where the source moves pointers, and keep two arrays that swap roles.
 */
module Levenshtein {
  import opened Bytes
  import opened Texts
  import opened EditDistance
  import opened Integers

  const MAX_LEVENSHTEIN_STRLEN := 255

  // ---------- Comparing characters ----------

  method RestOfCharSame(s1: seq<Byte>, x: nat, s2: seq<Byte>, y: nat, length: nat) returns (same: bool)
    requires x + length <= |s1| && y + length <= |s2|
    ensures same <==> s1[x..x + length] == s2[y..y + length]
  {
    ghost var p, q := s1[x..x + length], s2[y..y + length];
    var len := length;
    while len > 0
      invariant 0 <= len <= length
      invariant forall k :: len <= k < length ==> p[k] == q[k]
    {
      len := len - 1;
      if s1[x + len] != s2[y + len] {
        assert p[len] != q[len];
        return false;
      }
    }
    return true;
  }

  /** The multibyte comparison: last bytes, then lengths, then the rest. */
  method SameCharacter(s1: seq<Byte>, x: nat, xLen: nat, s2: seq<Byte>, y: nat, yLen: nat) returns (same: bool)
    requires 1 <= xLen && x + xLen <= |s1| && 1 <= yLen && y + yLen <= |s2|
    ensures same <==> s1[x..x + xLen] == s2[y..y + yLen]
  {
    var p, q := s1[x..x + xLen], s2[y..y + yLen];
    assert p[xLen - 1] == s1[x + xLen - 1] && q[yLen - 1] == s2[y + yLen - 1];
    if s1[x + xLen - 1] == s2[y + yLen - 1] && xLen == yLen {
      if xLen == 1 {
        return true;
      }
      same := RestOfCharSame(s1, x, s2, y, xLen);
    } else {
      return false;
    }
  }

  /** The cached character lengths, with a trailing zero. */
  method CharLengths(s: Text) returns (lens: array<int>)
    requires s.Valid()
    ensures fresh(lens) && lens.Length == |s.Chars()| + 1
    ensures forall k :: 0 <= k < |s.Chars()| ==> lens[k] == |s.Chars()[k]|
  {
    var m := |s.Chars()|;
    lens := new int[m + 1];
    var cp := 0;
    for i := 0 to m
      invariant cp == s.Offset(i)
      invariant forall k :: 0 <= k < i ==> lens[k] == |s.Chars()[k]|
    {
      s.CharAt(i);
      lens[i] := s.mblen(s.bytes[cp..]);
      cp := cp + lens[i];
    }
    lens[m] := 0;
  }

  /** Lengths are cached unless every character of both texts is a single byte. */
  ghost predicate Cached(lens: array?<int>, s: Text, t: Text)
    requires s.Valid() && t.Valid()
    reads lens
  {
    && (lens == null <==> |s.Chars()| == |s.bytes| && |t.Chars()| == |t.bytes|)
    && (lens != null ==> lens.Length == |s.Chars()| + 1)
    && (lens != null ==> forall k :: 0 <= k < |s.Chars()| ==> lens[k] == |s.Chars()[k]|)
  }

  // ---------- One row ----------

  /** Columns [from, to) of `curr` are row j of the matrix as computed from `prev`. */
  ghost predicate RowFilled(s: seq<Character>, t: seq<Character>, j: nat, c: Costs,
                            prev: seq<int>, curr: seq<int>, from: nat, to: nat)
    requires |prev| == |curr| == |s| + 1 && 1 <= from && to <= |s| + 1 && 0 < j <= |t|
  {
    forall k :: from <= k < to ==> curr[k] == Step(prev[k], curr[k - 1], prev[k - 1], s[k - 1] == t[j - 1], c)
  }

  method FillRowMultibyte(s: Text, t: Text, lens: array<int>, x0: nat, y: nat, yLen: nat, j: nat, c: Costs,
                          prev: array<int>, curr: array<int>, from: nat, to: nat)
    requires s.Valid() && t.Valid() && 0 < j <= |t.Chars()|
    requires prev.Length == curr.Length == lens.Length == |s.Chars()| + 1 && prev != curr && lens != curr
    requires forall k :: 0 <= k < |s.Chars()| ==> lens[k] == |s.Chars()[k]|
    requires 1 <= from <= to <= |s.Chars()| + 1
    requires x0 == s.Offset(from - 1) && y == t.Offset(j - 1) && yLen == |t.Chars()[j - 1]|
    modifies curr
    ensures RowFilled(s.Chars(), t.Chars(), j, c, prev[..], curr[..], from, to)
    ensures forall k :: 0 <= k < curr.Length && !(from <= k < to) ==> curr[k] == old(curr[k])
  {
    var x := x0;
    t.CharAt(j - 1);
    for i := from to to
      invariant x == s.Offset(i - 1)
      invariant RowFilled(s.Chars(), t.Chars(), j, c, prev[..], curr[..], from, i)
      invariant forall k :: 0 <= k < curr.Length && !(from <= k < i) ==> curr[k] == old(curr[k])
    {
      var xLen := lens[i - 1];
      s.CharAt(i - 1);
      var ins := prev[i] + c.ins;
      var del := curr[i - 1] + c.del;
      var same := SameCharacter(s.bytes, x, xLen, t.bytes, y, yLen);
      var sub := if same then prev[i - 1] else prev[i - 1] + c.sub;
      curr[i] := Min(ins, del);
      curr[i] := Min(curr[i], sub);
      x := x + xLen;
    }
  }

  method FillRowSingleByte(s: Text, t: Text, x0: nat, y: nat, j: nat, c: Costs,
                           prev: array<int>, curr: array<int>, from: nat, to: nat)
    requires s.Valid() && t.Valid() && 0 < j <= |t.Chars()|
    requires |s.Chars()| == |s.bytes| && |t.Chars()| == |t.bytes|
    requires prev.Length == curr.Length == |s.Chars()| + 1 && prev != curr
    requires 1 <= from <= to <= |s.Chars()| + 1
    requires x0 == from - 1 && y == j - 1
    modifies curr
    ensures RowFilled(s.Chars(), t.Chars(), j, c, prev[..], curr[..], from, to)
    ensures forall k :: 0 <= k < curr.Length && !(from <= k < to) ==> curr[k] == old(curr[k])
  {
    var x := x0;
    t.SingleBytes(j - 1);
    for i := from to to
      invariant x == i - 1
      invariant RowFilled(s.Chars(), t.Chars(), j, c, prev[..], curr[..], from, i)
      invariant forall k :: 0 <= k < curr.Length && !(from <= k < i) ==> curr[k] == old(curr[k])
    {
      s.SingleBytes(i - 1);
      var ins := prev[i] + c.ins;
      var del := curr[i - 1] + c.del;
      var sub := prev[i - 1] + if s.bytes[x] == t.bytes[y] then 0 else c.sub;
      curr[i] := Min(ins, del);
      curr[i] := Min(curr[i], sub);
      x := x + 1;
    }
  }

  // ---------- The two-row computation ----------

  ghost predicate ExactRow(row: seq<int>, s: seq<Character>, t: seq<Character>, j: nat, c: Costs) {
    |row| == |s| + 1 && j <= |t| && forall k :: 0 <= k <= |s| ==> row[k] == Cell(s, t, k, j, c)
  }

  lemma NextRowExact(s: seq<Character>, t: seq<Character>, j: nat, c: Costs, prev: seq<int>, curr: seq<int>)
    requires 0 < j <= |t| && |curr| == |s| + 1 && ExactRow(prev, s, t, j - 1, c)
    requires curr[0] == j * c.ins && RowFilled(s, t, j, c, prev, curr, 1, |s| + 1)
    ensures ExactRow(curr, s, t, j, c)
  {
    hide Cell;
    FirstColumn(s, t, j, c);
    for k := 1 to |s| + 1
      invariant forall l :: 0 <= l < k ==> curr[l] == Cell(s, t, l, j, c)
    {
      InnerCell(s, t, k, j, c);
    }
  }

  ghost predicate TooLong(s: Text, t: Text)
    requires s.Valid() && t.Valid()
  {
    var m, n := |s.Chars()|, |t.Chars()|;
    0 < m && 0 < n && (255 < m || 255 < n)
  }

  /** For positive costs a distance of zero tells equal texts from different ones. */
  ghost predicate TellsApart(s: Text, t: Text, c: Costs, distance: int) {
    c.Positive() && s.mblen == t.mblen ==> (distance == 0 <==> s.bytes == t.bytes)
  }

  lemma DistanceTellsApart(s: Text, t: Text, c: Costs)
    requires s.Valid() && t.Valid()
    ensures TellsApart(s, t, c, Distance(s.Chars(), t.Chars(), c))
  {
    if c.Positive() && s.mblen == t.mblen {
      ZeroExactlyOnEqual(s.Chars(), t.Chars(), c);
      SameTexts(s, t);
    }
  }

  method LevenshteinInternal(s: Text, t: Text, c: Costs) returns (r: Result<int>)
    requires s.Valid() && t.Valid()
    ensures r.Failure? <==> TooLong(s, t)
    ensures r.Success? ==> r.value == Distance(s.Chars(), t.Chars(), c)
    ensures Join(s.Chars()) == s.bytes && Join(t.Chars()) == t.bytes
    ensures r.Success? ==> TellsApart(s, t, c, r.value)
  {
    hide Cell, TellsApart, Join;
    DistanceTellsApart(s, t, c);
    s.CharsMakeUp();
    t.CharsMakeUp();
    var m, n := |s.Chars()|, |t.Chars()|;
    if m == 0 {
      FirstColumn(s.Chars(), t.Chars(), n, c);
      return Success(n * c.ins);
    }
    if n == 0 {
      FirstRow(s.Chars(), t.Chars(), m, c);
      return Success(m * c.del);
    }
    if m > MAX_LEVENSHTEIN_STRLEN || n > MAX_LEVENSHTEIN_STRLEN {
      return Failure("argument exceeds the maximum length");
    }
    var lens: array?<int> := null;
    if m != |s.bytes| || n != |t.bytes| {
      lens := CharLengths(s);
    }
    var prev, curr := new int[m + 1], new int[m + 1];
    for i := 0 to m + 1
      invariant Cached(lens, s, t)
      invariant forall k :: 0 <= k < i ==> prev[k] == Cell(s.Chars(), t.Chars(), k, 0, c)
    {
      FirstRow(s.Chars(), t.Chars(), i, c);
      prev[i] := i * c.del;
    }
    var y := 0;
    for j := 1 to n + 1
      invariant prev.Length == curr.Length == m + 1 && prev != curr && lens != curr && lens != prev
      invariant fresh(prev) && fresh(curr)
      invariant Cached(lens, s, t)
      invariant y == t.Offset(j - 1)
      invariant ExactRow(prev[..], s.Chars(), t.Chars(), j - 1, c)
    {
      t.CharAt(j - 1);
      var yLen := if n != |t.bytes| then t.mblen(t.bytes[y..]) else 1;
      if n == |t.bytes| { t.SingleBytes(j - 1); }
      curr[0] := j * c.ins;
      if lens != null {
        FillRowMultibyte(s, t, lens, 0, y, yLen, j, c, prev, curr, 1, m + 1);
      } else {
        FillRowSingleByte(s, t, 0, y, j, c, prev, curr, 1, m + 1);
      }
      NextRowExact(s.Chars(), t.Chars(), j, c, prev[..], curr[..]);
      prev, curr := curr, prev;
      y := y + yLen;
    }
    return Success(prev[m]);
  }
}
