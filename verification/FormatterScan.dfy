/**
 What the outcomes of reading mean.  More data is asked for exactly when there is some that makes
 up a record, and a length is bad exactly when no data that may follow can make up for it.
 */
module FormatterScan {
  import opened Bytes
  import opened Formatter

  function Zeroes(n: nat): (bs: seq<Byte>)
    ensures |bs| == n
  {
    seq(n, _ => 0)
  }

  lemma LengthWithin(bs: seq<Byte>)
    requires 4 <= |bs| && bs[3] == 0
    ensures 0 <= Int32At(bs)
  {
  }

  lemma SameLength(bs: seq<Byte>, more: seq<Byte>)
    requires 4 <= |bs|
    ensures Int32At(bs + more) == Int32At(bs)
  {
  }

  lemma CompleteString(col: Column, b: seq<Byte>) returns (more: seq<Byte>)
    requires col.IsString() && 4 <= |b| && 0 <= Int32At(b) && |b| - 4 <= Int32At(b)
    ensures var r := ReadField(col, b + more); r.Value? && r.size == |b + more|
  {
    more := Zeroes(4 + Int32At(b) - |b|);
    SameLength(b, more);
  }

  lemma CompleteField(col: Column, b: seq<Byte>) returns (more: seq<Byte>)
    requires col.Supported() && ReadField(col, b).FieldShort?
    ensures var r := ReadField(col, b + more); r.Value? && r.size == |b + more|
  {
    if col.typ.FLOAT8? {
      more := Zeroes(8 - |b|);
    } else if 4 <= |b| {
      more := CompleteString(col, b);
    } else {
      var zeroes := Zeroes(4 - |b|);
      LengthWithin(b + zeroes);
      var rest := CompleteString(col, b + zeroes);
      more := zeroes + rest;
      assert b + more == b + zeroes + rest;
    }
  }

  lemma SomeRecord(cols: seq<Column>) returns (bytes: seq<Byte>)
    requires AllSupported(cols)
    ensures var r := ReadRecord(cols, bytes); r.Values? && r.size == |bytes|
  {
    hide ReadRecord, Record, Normalised;
    var nulls: Tuple := seq(|cols|, _ => None);
    var nan: Float8Image := Zeroes(8);
    bytes := Record(cols, nulls, nan);
    RecordRoundTrip(cols, nulls, nan, []);
    assert bytes + [] == bytes;
  }

  /** Where a record is short, some data completes it. */
  lemma {:induction false} CompleteRecord(cols: seq<Column>, b: seq<Byte>) returns (more: seq<Byte>)
    requires AllSupported(cols) && ReadRecord(cols, b).Short?
    ensures var r := ReadRecord(cols, b + more); r.Values? && r.size == |b + more|
  {
    hide ReadField;
    var f := ReadField(cols[0], b);
    if f.FieldShort? {
      var field := CompleteField(cols[0], b);
      var rest := SomeRecord(cols[1..]);
      more := field + rest;
      FieldExtends(cols[0], b + field, rest);
      assert b + more == b + field + rest && (b + more)[|b + field|..] == rest;
    } else {
      more := CompleteRecord(cols[1..], b[f.size..]);
      FieldExtends(cols[0], b, more);
      assert (b + more)[f.size..] == b[f.size..] + more;
    }
  }

  /** More data is asked for exactly when there is no record yet but some continuation has one. */
  lemma ShortExactly(cols: seq<Column>, b: seq<Byte>)
    requires AllSupported(cols)
    ensures ReadRecord(cols, b).Short?
       <==> !ReadRecord(cols, b).Values? && exists more :: ReadRecord(cols, b + more).Values?
  {
    hide ReadRecord;
    var r := ReadRecord(cols, b);
    if r.Short? {
      var more := CompleteRecord(cols, b);
    } else if r.Bad? {
      forall more ensures ReadRecord(cols, b + more).Bad? {
        RecordExtends(cols, b, more);
      }
    }
  }

  /** What is left over is the beginning of a record, unless a bad length was met. */
  lemma {:induction false} RestIsShort(cols: seq<Column>, bytes: seq<Byte>)
    requires cols != [] && !Drain(cols, bytes).bad
    ensures ReadRecord(cols, Drain(cols, bytes).rest).Short?
    decreases |bytes|
  {
    hide ReadRecord;
    var r := ReadRecord(cols, bytes);
    if r.Values? {
      RestIsShort(cols, bytes[r.size..]);
    }
  }

  lemma OneRecord(cols: seq<Column>, bytes: seq<Byte>)
    requires cols != [] && AllSupported(cols)
    requires var r := ReadRecord(cols, bytes); r.Values? && r.size == |bytes|
    ensures Drain(cols, bytes).rest == [] && !Drain(cols, bytes).bad
  {
    hide ReadRecord;
    DrainNothing(cols);
    assert bytes[|bytes|..] == [];
  }

  /** A scan meets a bad length exactly when no data that may follow makes the file a whole number of records. */
  lemma GoodExactly(cols: seq<Column>, bytes: seq<Byte>)
    requires cols != [] && AllSupported(cols)
    ensures !Drain(cols, bytes).bad
       <==> exists more :: !Drain(cols, bytes + more).bad && Drain(cols, bytes + more).rest == []
  {
    hide ReadRecord, Drain;
    var d := Drain(cols, bytes);
    if d.bad {
      forall more ensures Drain(cols, bytes + more).bad {
        DrainExtends(cols, bytes, more);
      }
    } else {
      RestIsShort(cols, bytes);
      var more := CompleteRecord(cols, d.rest);
      OneRecord(cols, d.rest + more);
      DrainExtends(cols, bytes, more);
    }
  }
}
