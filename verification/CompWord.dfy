/**
 The variable-width count words of the sparse vector's run-length index (SparseData.h).

 A count below 128 is stored negated in one signed byte.  A larger one is a description
 byte giving the width of the word, 2, 4 or 8, followed by the word in little-endian
 memory order.
 */
module CompWord {
  import opened Bytes

  type SignedChar = c: int | -0x80 <= c < 0x80

  const INT64_MAX := 0x7FFF_FFFF_FFFF_FFFF
  const INT64_MIN := -0x8000_0000_0000_0000

  /** A C conversion to signed char. */
  function ToChar(n: int): SignedChar {
    (n + 0x80) % 0x100 - 0x80
  }

  function Pow256(k: nat): (r: nat)
    ensures 0 < r
  {
    if k == 0 then 1 else 0x100 * Pow256(k - 1)
  }

  /** The low k bytes of n in memory order. */
  function Memory(n: int, k: nat): (bs: seq<SignedChar>)
    ensures |bs| == k
    decreases k
  {
    if k == 0 then [] else [ToChar(n)] + Memory(n / 0x100, k - 1)
  }

  function Unsigned(bs: seq<SignedChar>): (n: nat) {
    if bs == [] then 0 else bs[0] % 0x100 + 0x100 * Unsigned(bs[1..])
  }

  /** The two's complement integer stored in the given bytes. */
  function Signed(bs: seq<SignedChar>): int {
    var n := Unsigned(bs);
    if 2 * n < Pow256(|bs|) then n else n - Pow256(|bs|)
  }

  lemma {:induction false} UnsignedOfMemory(n: nat, k: nat)
    requires n < Pow256(k)
    ensures Unsigned(Memory(n, k)) == n
  {
    if 0 < k {
      UnsignedOfMemory(n / 0x100, k - 1);
      assert Memory(n, k)[1..] == Memory(n / 0x100, k - 1);
      assert ToChar(n) % 0x100 == n % 0x100;
    }
  }

  // ---------- Reading and writing one word ----------

  /** int8compstoragesize: how many bytes the entry takes, from its first byte. */
  function StorageSize(first: SignedChar): nat {
    if first < 0 then 1 else 1 + first
  }

  /** The entry for a count, as int8_to_compword leaves it at the front of its buffer. */
  function Entry(num: int): (e: seq<SignedChar>)
    ensures 1 <= |e| <= 9
  {
    if num < 128 then [ToChar(-(ToChar(num) as int))]
    else if num < 32768 then [2] + Memory(num, 2)
    else if num < 2147483648 then [4] + Memory(num, 4)
    else [8] + Memory(num, 8)
  }

  method Int8ToCompword(num: int, entry: array<SignedChar>)
    requires INT64_MIN <= num <= INT64_MAX && entry.Length == 9
    modifies entry
    ensures entry[..|Entry(num)|] == Entry(num)
    ensures forall k :: |Entry(num)| <= k < 9 ==> entry[k] == old(entry[k])
  {
    if num < 128 {
      entry[0] := ToChar(-(ToChar(num) as int));
    } else if num < 32768 {
      entry[0] := 2;
      CopyWord(Memory(num, 2), entry);
    } else if num < 2147483648 {
      entry[0] := 4;
      CopyWord(Memory(num, 4), entry);
    } else {
      entry[0] := 8;
      CopyWord(Memory(num, 8), entry);
    }
  }

  method CopyWord(word: seq<SignedChar>, entry: array<SignedChar>)
    requires |word| < entry.Length
    modifies entry
    ensures entry[..1 + |word|] == [old(entry[0])] + word
    ensures forall k :: 1 + |word| <= k < entry.Length ==> entry[k] == old(entry[k])
  {
    for k := 0 to |word|
      invariant entry[0] == old(entry[0])
      invariant entry[1..1 + k] == word[..k]
      invariant forall l :: 1 + k <= l < entry.Length ==> entry[l] == old(entry[l])
    {
      entry[1 + k] := word[k];
    }
  }

  /**
   compword_to_int8 at position p.  There is no value when the entry runs past the buffer
   or has a width no case of the switch handles, where the source returns an uninitialised
   variable.
   */
  function CompwordToInt8(bytes: seq<SignedChar>, p: nat): Option<int> {
    if |bytes| <= p || |bytes| < p + StorageSize(bytes[p]) then None
    else match StorageSize(bytes[p])
      case 1 => Some(-(bytes[p] as int))
      case 3 => Some(Signed(bytes[p + 1..p + 3]))
      case 5 => Some(Signed(bytes[p + 1..p + 5]))
      case 9 => Some(Signed(bytes[p + 1..p + 9]))
      case _ => None
  }

  lemma PowersOf256()
    ensures Pow256(2) == 0x1_0000 && Pow256(4) == 0x1_0000_0000 && Pow256(8) == 0x1_0000_0000_0000_0000
  {
  }

  lemma WideEntry(num: nat, k: nat, before: seq<SignedChar>, after: seq<SignedChar>)
    requires k in {2, 4, 8} && 2 * num < Pow256(k)
    ensures CompwordToInt8(before + ([k] + Memory(num, k)) + after, |before|) == Some(num)
  {
    hide Memory, Unsigned, Pow256;
    var w, p := Memory(num, k), |before|;
    var bytes := before + ([k] + w) + after;
    assert bytes[p] == k;
    assert bytes[p + 1..p + 1 + k] == w;
    UnsignedOfMemory(num, k);
  }

  /** An entry says its own size, and reading it back gives the count wherever it stands. */
  lemma EntryRoundTrip(num: int, before: seq<SignedChar>, after: seq<SignedChar>)
    requires 0 <= num <= INT64_MAX
    ensures StorageSize(Entry(num)[0]) == |Entry(num)|
    ensures CompwordToInt8(before + Entry(num) + after, |before|) == Some(num)
  {
    hide Memory, Pow256;
    PowersOf256();
    if num < 128 {
      assert (before + Entry(num) + after)[|before|] == Entry(num)[0];
    } else {
      hide CompwordToInt8;
      WideEntry(num, if num < 32768 then 2 else if num < 2147483648 then 4 else 8, before, after);
    }
  }

  lemma {:induction false} UnsignedBound(bs: seq<SignedChar>)
    ensures Unsigned(bs) < Pow256(|bs|)
  {
    if bs != [] {
      UnsignedBound(bs[1..]);
    }
  }

  lemma SignedBound(bs: seq<SignedChar>)
    ensures 2 * Signed(bs) < Pow256(|bs|)
  {
    UnsignedBound(bs);
  }

  /** The least size of an entry that can hold a count. */
  function LeastSize(num: int): nat {
    if num <= 128 then 1 else if num <= 0x7FFF then 3 else if num <= 0x7FFF_FFFF then 5 else 9
  }

  /** Whatever reads as a count takes at least that. */
  lemma ReadsNoSmaller(e: seq<SignedChar>, num: int)
    requires e != [] && CompwordToInt8(e, 0) == Some(num)
    ensures LeastSize(num) <= StorageSize(e[0])
  {
    hide Signed, Pow256;
    PowersOf256();
    if StorageSize(e[0]) == 3 {
      SignedBound(e[1..3]);
    } else if StorageSize(e[0]) == 5 {
      SignedBound(e[1..5]);
    }
  }

  /**
   The entry of a count is the shortest that reads as it, except for 128: a lone byte -128 would
   read as 128, but three bytes are used.
   */
  lemma ShortestExactly(num: int)
    requires 0 <= num <= INT64_MAX
    ensures (forall e: seq<SignedChar> :: e != [] && CompwordToInt8(e, 0) == Some(num) ==>
               |Entry(num)| <= StorageSize(e[0]))
       <==> num != 128
  {
    hide CompwordToInt8, Memory;
    if num == 128 {
      LoneByte();
    } else {
      forall e: seq<SignedChar> | e != [] && CompwordToInt8(e, 0) == Some(num)
        ensures |Entry(num)| <= StorageSize(e[0])
      {
        ReadsNoSmaller(e, num);
      }
    }
  }

  lemma LoneByte()
    ensures CompwordToInt8([-0x80], 0) == Some(128) && StorageSize([-0x80][0]) == 1
  {
  }

  lemma DivideTwice(n: nat, p: nat)
    requires 0 < p
    ensures n / 0x100 / p == n / (0x100 * p)
  {
    var q, r := n / 0x100 / p, n / 0x100 % p;
    assert n == 0x100 * (p * q + r) + n % 0x100;
    assert n == (0x100 * p) * q + (0x100 * r + n % 0x100);
    assert 0 <= 0x100 * r + n % 0x100 < 0x100 * p;
    QuotientIs(n, 0x100 * p, q, 0x100 * r + n % 0x100);
  }

  lemma QuotientIs(n: int, d: int, q: int, r: int)
    requires 0 <= r < d && n == d * q + r
    ensures n / d == q
  {
    var k := n / d - q;
    assert d * k == d * (n / d) - d * q;
    assert -d < d * k < d;
    assert 1 <= k ==> d <= d * k;
    assert k <= -1 ==> d * k <= -d;
  }

  /** The i-th byte in memory is the i-th digit to base 256, lowest first. */
  lemma {:induction false} MemoryAt(n: nat, k: nat, i: nat)
    requires i < k
    ensures Memory(n, k)[i] == ToChar(n / Pow256(i))
  {
    if 0 < i {
      MemoryAt(n / 0x100, k - 1, i - 1);
      DivideTwice(n, Pow256(i - 1));
    }
  }

  /** A small count is a byte, negated; a larger one its width and then its digits to base 256, lowest first. */
  lemma EntryLayout(num: int, i: nat)
    requires 0 <= num <= INT64_MAX && i < |Entry(num)|
    ensures Entry(num)[i]
         == if num < 128 then -num else if i == 0 then |Entry(num)| - 1 else ToChar(num / Pow256(i - 1))
  {
    hide Memory, Pow256;
    if 128 <= num && 0 < i {
      MemoryAt(num, |Entry(num)| - 1, i - 1);
    }
  }

  function Zeroes(n: nat): (bs: seq<SignedChar>)
    ensures |bs| == n
  {
    seq(n, _ => 0)
  }

  /**
   A 64-bit number stored in the zeroed nine bytes of append_to_rle_index reads back as itself
   exactly when it is not negative, and exactly then whatever the bytes after it hold.
   */
  lemma RoundTripExactlyNonNegative(num: int)
    requires INT64_MIN <= num <= INT64_MAX
    ensures CompwordToInt8(Entry(num) + Zeroes(9 - |Entry(num)|), 0) == Some(num) <==> 0 <= num
    ensures (forall rest: seq<SignedChar> :: |Entry(num)| + |rest| == 9 ==>
               CompwordToInt8(Entry(num) + rest, 0) == Some(num))
       <==> 0 <= num
  {
    if 0 <= num {
      hide CompwordToInt8, Zeroes, Entry;
      forall rest: seq<SignedChar> ensures CompwordToInt8(Entry(num) + rest, 0) == Some(num) {
        EntryRoundTrip(num, [], rest);
        assert [] + Entry(num) + rest == Entry(num) + rest;
      }
    } else {
      NothingNegative(Entry(num)[0]);
      assert Entry(num) == [Entry(num)[0]];
      hide CompwordToInt8, Zeroes, Entry;
      assert |Entry(num)| + |Zeroes(8)| == 9;
    }
  }

  lemma {:induction false} ZeroesAreZero(n: nat)
    ensures Unsigned(Zeroes(n)) == 0
  {
    if 0 < n {
      ZeroesAreZero(n - 1);
      assert Zeroes(n)[1..] == Zeroes(n - 1);
    }
  }

  lemma ZeroTail(first: SignedChar, k: nat)
    requires k <= 8
    ensures Signed(([first] + Zeroes(8))[1..1 + k]) == 0
  {
    hide Unsigned, Zeroes;
    ZeroesAreZero(k);
    TakeZeroes(k, 8);
    assert ([first] + Zeroes(8))[1..1 + k] == Zeroes(8)[..k];
  }

  /** Before zeroes, no byte reads as a negative number. */
  lemma NothingNegative(first: SignedChar)
    ensures var r := CompwordToInt8([first] + Zeroes(8), 0); r.Some? ==> 0 <= r.value
  {
    hide Signed, Zeroes;
    ZeroTail(first, 2);
    ZeroTail(first, 4);
    ZeroTail(first, 8);
  }

  lemma TakeZeroes(k: nat, n: nat)
    requires k <= n
    ensures Zeroes(n)[..k] == Zeroes(k)
  {
  }

  /** Over leftover bytes that happen to spell it, a negative number can read back as itself. */
  lemma NegativeMayReadBack()
    ensures Entry(-2) == [2] && CompwordToInt8(Entry(-2) + [-2, -1, 0, 0, 0, 0, 0, 0], 0) == Some(-2)
  {
    var bytes: seq<SignedChar> := Entry(-2) + [-2, -1, 0, 0, 0, 0, 0, 0];
    assert bytes[1..3] == [-2, -1];
    assert Unsigned([-1]) == 0xFF;
    assert [-2, -1][1..] == [-1];
    PowersOf256();
  }

  // ---------- A whole index ----------

  predicate Countable(counts: seq<int>) {
    forall k :: 0 <= k < |counts| ==> 0 <= counts[k] <= INT64_MAX
  }

  function Index(counts: seq<int>): seq<SignedChar> {
    if counts == [] then [] else Index(counts[..|counts| - 1]) + Entry(counts[|counts| - 1])
  }

  lemma IndexAppend(counts: seq<int>, n: int)
    ensures Index(counts + [n]) == Index(counts) + Entry(n)
  {
  }

  /** The index splits at any entry boundary. */
  lemma {:induction false} IndexSplit(counts: seq<int>, k: nat)
    requires k < |counts|
    ensures exists rest :: Index(counts) == Index(counts[..k]) + Entry(counts[k]) + rest
  {
    hide Entry;
    var n := |counts| - 1;
    if k == n {
      assert Index(counts) == Index(counts[..k]) + Entry(counts[k]) + [];
    } else {
      var shorter := counts[..n];
      IndexSplit(shorter, k);
      assert shorter[..k] == counts[..k];
      var rest :| Index(shorter) == Index(counts[..k]) + Entry(counts[k]) + rest;
      assert Index(counts) == Index(counts[..k]) + Entry(counts[k]) + (rest + Entry(counts[n]));
    }
  }

  /**
   Standing at the k-th entry of an index, the walk reads the k-th count and moves to the
   next entry; after the last entry it stands at the end of the buffer.
   */
  lemma WalkStep(counts: seq<int>, k: nat)
    requires Countable(counts) && k < |counts|
    ensures |Index(counts[..k])| < |Index(counts[..k + 1])| <= |Index(counts)|
    ensures CompwordToInt8(Index(counts), |Index(counts[..k])|) == Some(counts[k])
    ensures |Index(counts[..k])| + StorageSize(Index(counts)[|Index(counts[..k])|]) == |Index(counts[..k + 1])|
    ensures k + 1 == |counts| ==> |Index(counts[..k + 1])| == |Index(counts)|
  {
    hide Index, Entry, CompwordToInt8, StorageSize;
    IndexSplit(counts, k);
    var before := Index(counts[..k]);
    var rest :| Index(counts) == before + Entry(counts[k]) + rest;
    EntryRoundTrip(counts[k], before, rest);
    IndexAppend(counts[..k], counts[k]);
    assert counts[..k] + [counts[k]] == counts[..k + 1];
    if k + 1 == |counts| {
      assert counts[..k + 1] == counts;
    }
  }

  /** Two indexes of equally many counts, one a prefix of the other, are of the same counts. */
  lemma {:induction false} PrefixFree(a: seq<int>, b: seq<int>, k: nat)
    requires Countable(a) && Countable(b) && k <= |a| == |b|
    requires Index(a) <= Index(b)
    ensures a[..k] == b[..k]
  {
    hide Index, Entry, CompwordToInt8, StorageSize;
    if 0 < k {
      PrefixFree(a, b, k - 1);
      WalkStep(a, k - 1);
      WalkStep(b, k - 1);
      var p := |Index(a[..k - 1])|;
      LongerBufferReadsTheSame(Index(a), Index(b), p);
      assert a[..k] == a[..k - 1] + [a[k - 1]] && b[..k] == b[..k - 1] + [b[k - 1]];
    }
  }

  lemma LongerBufferReadsTheSame(a: seq<SignedChar>, b: seq<SignedChar>, p: nat)
    requires a <= b && CompwordToInt8(a, p).Some?
    ensures CompwordToInt8(b, p) == CompwordToInt8(a, p)
  {
    assert a == b[..|a|];
    assert b[p] == a[p];
    var n := StorageSize(a[p]);
    assert a[p + 1..p + n] == b[p + 1..p + n];
  }
}
