/**
 Text in a multibyte encoding.  The backend's pg_mblen, given the bytes from some point
 on, says how many of them the next character takes; it is a parameter here, so that
 what follows holds for every encoding.
 */
module Texts {
  import opened Bytes

  type Character = seq<Byte>

  datatype Text = Text(bytes: seq<Byte>, mblen: seq<Byte> -> int) {
    ghost predicate Valid() {
      WellEncoded(bytes, mblen)
    }

    function Chars(): seq<Character>
      requires Valid()
    {
      Split(bytes, mblen)
    }

    /** The offset of character k; of the end of the text when k is the number of characters. */
    function Offset(k: nat): nat
      requires Valid() && k <= |Chars()|
    {
      OffsetIn(bytes, mblen, k)
    }

    lemma CharAt(k: nat)
      requires Valid() && k < |Chars()|
      ensures Offset(k) < Offset(k + 1) == Offset(k) + |Chars()[k]| <= |bytes|
      ensures bytes[Offset(k)..Offset(k + 1)] == Chars()[k]
      ensures mblen(bytes[Offset(k)..]) == |Chars()[k]|
    {
      CharIn(bytes, mblen, k);
    }

    /** The characters make up the text. */
    lemma CharsMakeUp()
      requires Valid()
      ensures Join(Chars()) == bytes && Offset(|Chars()|) == |bytes|
    {
      SplitJoins(bytes, mblen);
    }

    /** When there are as many characters as bytes, every character is a single byte. */
    lemma SingleBytes(k: nat)
      requires Valid() && |Chars()| == |bytes| && k < |bytes|
      ensures Chars()[k] == [bytes[k]] && Offset(k) == k
    {
      SingleBytesIn(bytes, mblen, k);
    }
  }

  ghost predicate WellEncoded(bytes: seq<Byte>, mblen: seq<Byte> -> int) {
    bytes == [] || (1 <= mblen(bytes) <= |bytes| && WellEncoded(bytes[mblen(bytes)..], mblen))
  }

  function Split(bytes: seq<Byte>, mblen: seq<Byte> -> int): seq<Character>
    requires WellEncoded(bytes, mblen)
  {
    if bytes == [] then [] else [bytes[..mblen(bytes)]] + Split(bytes[mblen(bytes)..], mblen)
  }

  function Join(cs: seq<Character>): seq<Byte> {
    if cs == [] then [] else cs[0] + Join(cs[1..])
  }

  function OffsetIn(bytes: seq<Byte>, mblen: seq<Byte> -> int, k: nat): nat
    requires WellEncoded(bytes, mblen) && k <= |Split(bytes, mblen)|
  {
    if k == 0 then 0 else mblen(bytes) + OffsetIn(bytes[mblen(bytes)..], mblen, k - 1)
  }

  lemma {:induction false} CharIn(bytes: seq<Byte>, mblen: seq<Byte> -> int, k: nat)
    requires WellEncoded(bytes, mblen) && k < |Split(bytes, mblen)|
    ensures OffsetIn(bytes, mblen, k) < OffsetIn(bytes, mblen, k + 1) <= |bytes|
    ensures OffsetIn(bytes, mblen, k + 1) == OffsetIn(bytes, mblen, k) + |Split(bytes, mblen)[k]|
    ensures bytes[OffsetIn(bytes, mblen, k)..OffsetIn(bytes, mblen, k + 1)] == Split(bytes, mblen)[k]
    ensures mblen(bytes[OffsetIn(bytes, mblen, k)..]) == |Split(bytes, mblen)[k]|
  {
    var l := mblen(bytes);
    var rest := bytes[l..];
    if k == 0 {
      assert OffsetIn(rest, mblen, 0) == 0;
      assert bytes[0..] == bytes;
    } else {
      CharIn(rest, mblen, k - 1);
      var o := OffsetIn(rest, mblen, k - 1);
      assert bytes[l + o..] == rest[o..];
      assert Split(bytes, mblen)[k] == Split(rest, mblen)[k - 1];
    }
  }

  lemma {:induction false} SplitJoins(bytes: seq<Byte>, mblen: seq<Byte> -> int)
    requires WellEncoded(bytes, mblen)
    ensures Join(Split(bytes, mblen)) == bytes && OffsetIn(bytes, mblen, |Split(bytes, mblen)|) == |bytes|
    decreases |bytes|
  {
    if bytes != [] {
      SplitJoins(bytes[mblen(bytes)..], mblen);
    }
  }

  /** There is no other way to cut a text up into pieces of the sizes that pg_mblen gives. */
  lemma {:induction false} OnlySplit(bytes: seq<Byte>, mblen: seq<Byte> -> int, cs: seq<Character>)
    requires WellEncoded(bytes, mblen) && Join(cs) == bytes
    requires forall k :: 0 <= k < |cs| ==> 1 <= |cs[k]| == mblen(Join(cs[k..]))
    ensures cs == Split(bytes, mblen)
    decreases |cs|
  {
    if cs != [] {
      assert cs[0..] == cs;
      assert bytes[..|cs[0]|] == cs[0] && bytes[|cs[0]|..] == Join(cs[1..]);
      forall k | 0 <= k < |cs[1..]| ensures 1 <= |cs[1..][k]| == mblen(Join(cs[1..][k..])) {
        assert cs[1..][k..] == cs[k + 1..];
      }
      OnlySplit(bytes[|cs[0]|..], mblen, cs[1..]);
    }
  }

  /** In one encoding, texts of the same characters are the same text. */
  lemma SameTexts(s: Text, t: Text)
    requires s.Valid() && t.Valid() && s.mblen == t.mblen
    ensures s.Chars() == t.Chars() <==> s.bytes == t.bytes
  {
    s.CharsMakeUp();
    t.CharsMakeUp();
  }

  lemma {:induction false} NoMoreCharsThanBytes(bytes: seq<Byte>, mblen: seq<Byte> -> int)
    requires WellEncoded(bytes, mblen)
    ensures |Split(bytes, mblen)| <= |bytes|
    decreases |bytes|
  {
    if bytes != [] {
      NoMoreCharsThanBytes(bytes[mblen(bytes)..], mblen);
    }
  }

  lemma {:induction false} SingleBytesIn(bytes: seq<Byte>, mblen: seq<Byte> -> int, k: nat)
    requires WellEncoded(bytes, mblen) && |Split(bytes, mblen)| == |bytes| && k < |bytes|
    ensures Split(bytes, mblen)[k] == [bytes[k]] && OffsetIn(bytes, mblen, k) == k
    decreases k
  {
    var rest := bytes[mblen(bytes)..];
    NoMoreCharsThanBytes(rest, mblen);
    assert |Split(bytes, mblen)| == 1 + |Split(rest, mblen)|;
    assert mblen(bytes) == 1;
    if 0 < k {
      SingleBytesIn(rest, mblen, k - 1);
    }
  }
}
