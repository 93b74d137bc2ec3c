/**
 The record format of gpformatter.c: fields one after the other, a float8 as its eight bytes
 and a string as a four-byte length and its bytes.  Exporting writes one record into a buffer
 of fixed size; importing reads records out of a buffer that the scan keeps refilling.
 */
module Formatter {
  import opened Bytes
  import opened Integers

  const MAX_FORMAT_STRING := 4096

  type Float8Image = b: seq<Byte> | |b| == 8 witness [0, 0, 0, 0, 0, 0, 0, 0]

  /** A text value; its size fits a 32-bit signed integer. */
  type TextImage = b: seq<Byte> | |b| <= INT32_MAX witness []

  datatype Datum = Float(image: Float8Image) | Text(bytes: TextImage)

  datatype ColumnType = FLOAT8 | TEXT | VARCHAR | BPCHAR | UNSUPPORTED

  /** For a string, the declared length in characters plus four; not positive if none was declared. */
  type TypMod = m: int | -INT32_MAX - 1 <= m <= INT32_MAX

  datatype Column = Column(typ: ColumnType, typmod: TypMod, isDropped: bool) {
    predicate IsString() {
      typ.TEXT? || typ.VARCHAR? || typ.BPCHAR?
    }

    /** A column both functions know how to format. */
    predicate Supported() {
      !isDropped && !typ.UNSUPPORTED?
    }

    /** A null, or a value of the column's type. */
    predicate Admits(v: Option<Datum>) {
      v.Some? ==> if typ.FLOAT8? then v.value.Float? else v.value.Text?
    }
  }

  predicate AllSupported(cols: seq<Column>) {
    forall i :: 0 <= i < |cols| ==> cols[i].Supported()
  }

  type Tuple = seq<Option<Datum>>

  predicate Admits(cols: seq<Column>, tuple: Tuple) {
    |cols| == |tuple| && forall i :: 0 <= i < |cols| ==> cols[i].Supported() && cols[i].Admits(tuple[i])
  }

  // ---------- The bytes of a record ----------

  /** A 32-bit integer in memory order. */
  function Int32(n: nat): (bs: seq<Byte>)
    requires n <= INT32_MAX
    ensures |bs| == 4
  {
    [n % 0x100, n / 0x100 % 0x100, n / 0x100 / 0x100 % 0x100, n / 0x100 / 0x100 / 0x100]
  }

  /** Its bytes are its digits to base 256, lowest first. */
  lemma Int32Digits(n: nat)
    requires n <= INT32_MAX
    ensures var bs := Int32(n);
            n == (bs[0] as int) + 0x100 * (bs[1] as int) + 0x1_0000 * (bs[2] as int) + 0x100_0000 * (bs[3] as int)
  {
  }

  function Int32At(bs: seq<Byte>): int
    requires 4 <= |bs|
  {
    var n := (bs[0] as int) + 0x100 * ((bs[1] as int) + 0x100 * ((bs[2] as int) + 0x100 * (bs[3] as int)));
    if n <= INT32_MAX then n else n - 0x1_0000_0000
  }

  /** The part of a string that is written: all of it, or what the format allows an undeclared length. */
  function Written(col: Column, s: TextImage): (w: TextImage)
    ensures w <= s && |w| == if col.typmod < 0 then Min(|s|, 4096) else |s|
  {
    if col.typmod < 0 && MAX_FORMAT_STRING < |s| then s[..MAX_FORMAT_STRING] else s
  }

  function Field(col: Column, v: Option<Datum>, nan: Float8Image): seq<Byte>
    requires col.Supported() && col.Admits(v)
  {
    if col.typ.FLOAT8? then if v.None? then nan else v.value.image
    else
      var s := if v.None? then [] else Written(col, v.value.bytes);
      Int32(|s|) + s
  }

  function Record(cols: seq<Column>, tuple: Tuple, nan: Float8Image): seq<Byte>
    requires Admits(cols, tuple)
  {
    if cols == [] then [] else Field(cols[0], tuple[0], nan) + Record(cols[1..], tuple[1..], nan)
  }

  /** What comes back: a null float as a NaN, an empty string as a null, a long undeclared string cut. */
  function Normal(col: Column, v: Option<Datum>, nan: Float8Image): Option<Datum>
    requires col.Supported() && col.Admits(v)
  {
    if col.typ.FLOAT8? then Some(Float(if v.None? then nan else v.value.image))
    else if v.None? || v.value.bytes == [] then None
    else Some(Text(Written(col, v.value.bytes)))
  }

  function Normalised(cols: seq<Column>, tuple: Tuple, nan: Float8Image): Tuple
    requires Admits(cols, tuple)
  {
    seq(|cols|, i requires 0 <= i < |cols| => Normal(cols[i], tuple[i], nan))
  }

  /** No null float, no empty string, and no undeclared string longer than the format allows. */
  ghost predicate Plain(cols: seq<Column>, tuple: Tuple)
    requires Admits(cols, tuple)
  {
    forall i :: 0 <= i < |cols| ==>
      if cols[i].typ.FLOAT8? then tuple[i].Some?
      else tuple[i].Some? ==>
        tuple[i].value.bytes != [] && (cols[i].typmod < 0 ==> |tuple[i].value.bytes| <= MAX_FORMAT_STRING)
  }

  /** A tuple comes back as it was exactly when it is plain. */
  lemma NormalisedExactly(cols: seq<Column>, tuple: Tuple, nan: Float8Image)
    requires Admits(cols, tuple)
    ensures Normalised(cols, tuple, nan) == tuple <==> Plain(cols, tuple)
  {
    var back := Normalised(cols, tuple, nan);
    if back == tuple {
      forall i | 0 <= i < |cols| ensures Normal(cols[i], tuple[i], nan) == tuple[i] {
        assert back[i] == tuple[i];
      }
    }
  }

  // ---------- Reading a record ----------

  datatype FieldResult = Value(v: Option<Datum>, size: nat) | FieldShort | FieldBad

  function ReadField(col: Column, bytes: seq<Byte>): (r: FieldResult)
    ensures r.Value? ==> 4 <= r.size <= |bytes|
  {
    if col.typ.FLOAT8? then
      if |bytes| < 8 then FieldShort else Value(Some(Float(bytes[..8])), 8)
    else if col.IsString() then
      if |bytes| < 4 then FieldShort
      else
        var len := Int32At(bytes);
        if len < 0 then FieldBad
        else if |bytes| - 4 < len then FieldShort
        else Value(if 0 < len then Some(Text(bytes[4..4 + len])) else None, 4 + len)
    else FieldBad
  }

  datatype RecordResult = Values(vs: Tuple, size: nat) | Short | Bad

  function ReadRecord(cols: seq<Column>, bytes: seq<Byte>): (r: RecordResult)
    ensures r.Values? ==> |r.vs| == |cols| && r.size <= |bytes| && (cols != [] ==> 0 < r.size)
  {
    if cols == [] then Values([], 0)
    else match ReadField(cols[0], bytes)
      case FieldShort => Short
      case FieldBad => Bad
      case Value(v, n) =>
        match ReadRecord(cols[1..], bytes[n..])
        case Values(vs, m) => Values([v] + vs, n + m)
        case Short => Short
        case Bad => Bad
  }

  lemma FieldRoundTrip(col: Column, v: Option<Datum>, nan: Float8Image, rest: seq<Byte>)
    requires col.Supported() && col.Admits(v)
    ensures ReadField(col, Field(col, v, nan) + rest) == Value(Normal(col, v, nan), |Field(col, v, nan)|)
  {
  }

  /** A record followed by anything reads back as the normalised tuple, and exactly the record is used up. */
  lemma {:induction false} RecordRoundTrip(cols: seq<Column>, tuple: Tuple, nan: Float8Image, rest: seq<Byte>)
    requires Admits(cols, tuple)
    ensures ReadRecord(cols, Record(cols, tuple, nan) + rest)
         == Values(Normalised(cols, tuple, nan), |Record(cols, tuple, nan)|)
  {
    hide Field, ReadField, Normal;
    if cols != [] {
      var f, tail := Field(cols[0], tuple[0], nan), Record(cols[1..], tuple[1..], nan);
      FieldRoundTrip(cols[0], tuple[0], nan, tail + rest);
      RecordRoundTrip(cols[1..], tuple[1..], nan, rest);
      var all := Record(cols, tuple, nan) + rest;
      assert all == f + (tail + rest);
      assert all[|f|..] == tail + rest;
      assert Normalised(cols, tuple, nan) == [Normal(cols[0], tuple[0], nan)] + Normalised(cols[1..], tuple[1..], nan);
    }
  }

  lemma FieldShortOnPrefix(col: Column, v: Option<Datum>, nan: Float8Image, p: seq<Byte>)
    requires col.Supported() && col.Admits(v) && p < Field(col, v, nan)
    ensures ReadField(col, p).FieldShort?
  {
  }

  /** A strict prefix of a record always asks for more. */
  lemma {:induction false} ShortOnPrefix(cols: seq<Column>, tuple: Tuple, nan: Float8Image, p: seq<Byte>)
    requires Admits(cols, tuple) && p < Record(cols, tuple, nan)
    ensures ReadRecord(cols, p).Short?
  {
    hide Field, ReadField, Normal;
    var f, tail := Field(cols[0], tuple[0], nan), Record(cols[1..], tuple[1..], nan);
    if |p| < |f| {
      assert p == f[..|p|];
      FieldShortOnPrefix(cols[0], tuple[0], nan, p);
    } else {
      var rest := p[|f|..];
      assert p == f + rest && rest == tail[..|rest|];
      FieldRoundTrip(cols[0], tuple[0], nan, rest);
      ShortOnPrefix(cols[1..], tuple[1..], nan, rest);
    }
  }

  // ---------- More data only ever helps ----------

  lemma FieldExtends(col: Column, b: seq<Byte>, more: seq<Byte>)
    requires !ReadField(col, b).FieldShort?
    ensures ReadField(col, b + more) == ReadField(col, b)
  {
    if 4 <= |b| {
      assert Int32At(b + more) == Int32At(b);
      var len := Int32At(b);
      if 0 <= len && 4 + len <= |b| {
        assert (b + more)[4..4 + len] == b[4..4 + len];
      }
    }
    if 8 <= |b| {
      assert (b + more)[..8] == b[..8];
    }
  }

  lemma {:induction false} RecordExtends(cols: seq<Column>, b: seq<Byte>, more: seq<Byte>)
    requires !ReadRecord(cols, b).Short?
    ensures ReadRecord(cols, b + more) == ReadRecord(cols, b)
  {
    hide ReadField;
    if cols != [] {
      FieldExtends(cols[0], b, more);
      var r := ReadField(cols[0], b);
      if r.Value? {
        RecordExtends(cols[1..], b[r.size..], more);
        assert (b + more)[r.size..] == b[r.size..] + more;
      }
    }
  }

  // ---------- Exporting ----------

  /** What a column adds to the size of the buffer. */
  function RoomFor(col: Column): nat {
    if col.typ.FLOAT8? then 8 else if 0 < col.typmod then col.typmod else MAX_FORMAT_STRING
  }

  function Room(cols: seq<Column>): nat {
    if cols == [] then 0 else Room(cols[..|cols| - 1]) + RoomFor(cols[|cols| - 1])
  }

  function BufferSize(cols: seq<Column>): (n: nat)
    ensures 128 <= n
  {
    if Room(cols) < 128 then 128 else Room(cols)
  }

  class Exporter {
    const columns: seq<Column>
    const nan: Float8Image
    const buflen: nat
    const buffer: array<Byte>

    ghost predicate Valid() {
      buflen == BufferSize(columns) == buffer.Length && AllSupported(columns)
    }

    constructor (cols: seq<Column>, n: Float8Image, size: nat)
      requires size == BufferSize(cols) && AllSupported(cols)
      ensures Valid() && columns == cols && nan == n && fresh(buffer)
    {
      columns, nan, buflen := cols, n, size;
      buffer := new Byte[size];
    }

    /** The main loop of formatter_export: succeeds exactly when the record is shorter than the buffer. */
    method Export(tuple: Tuple) returns (r: Result<nat>)
      requires Valid() && Admits(columns, tuple)
      modifies buffer
      ensures r.Success? <==> |Record(columns, tuple, nan)| < buflen
      ensures r.Success? ==> r.value < buflen && buffer[..r.value] == Record(columns, tuple, nan)
    {
      hide Field, BufferSize;
      var datlen: nat := 0;
      for i := 0 to |columns|
        invariant datlen < buflen
        invariant Admits(columns[..i], tuple[..i]) && buffer[..datlen] == Record(columns[..i], tuple[..i], nan)
      {
        RecordGrows(columns, tuple, nan, i);
        var bytes := Field(columns[i], tuple[i], nan);
        if datlen + |bytes| >= buflen {
          RecordWithin(columns, tuple, nan, i + 1);
          return Failure("buffer too small");
        }
        Copy(bytes, buffer, datlen);
        datlen := datlen + |bytes|;
      }
      assert columns[..|columns|] == columns && tuple[..|columns|] == tuple;
      r := Success(datlen);
    }
  }

  /** memcpy to an offset */
  method Copy(bytes: seq<Byte>, target: array<Byte>, at: nat)
    requires at + |bytes| <= target.Length
    modifies target
    ensures target[..at + |bytes|] == old(target[..at]) + bytes
  {
    for k := 0 to |bytes|
      invariant target[..at + k] == old(target[..at]) + bytes[..k]
    {
      target[at + k] := bytes[k];
    }
  }

  /** The first call of formatter_export: sizes the buffer, or fails on a column it cannot format. */
  method OpenExporter(cols: seq<Column>, nan: Float8Image) returns (r: Result<Exporter>)
    ensures r.Success? <==> AllSupported(cols)
    ensures r.Success? ==> fresh(r.value) && fresh(r.value.buffer) && r.value.Valid()
    ensures r.Success? ==> r.value.columns == cols && r.value.nan == nan
  {
    var buflen := 0;
    for i := 0 to |cols|
      invariant buflen == Room(cols[..i])
      invariant forall k :: 0 <= k < i ==> cols[k].Supported()
    {
      if cols[i].isDropped {
        return Failure("dropped columns");
      }
      assert cols[..i + 1][..i] == cols[..i];
      match cols[i].typ
      case FLOAT8 => buflen := buflen + 8;
      case VARCHAR | BPCHAR | TEXT =>
        buflen := buflen + if cols[i].typmod > 0 then cols[i].typmod else MAX_FORMAT_STRING;
      case UNSUPPORTED => return Failure("unsupported data type");
    }
    assert cols[..|cols|] == cols;
    var e := new Exporter(cols, nan, if buflen < 128 then 128 else buflen);
    r := Success(e);
  }

  lemma {:induction false} RecordConcat(cols: seq<Column>, tuple: Tuple, nan: Float8Image, i: nat)
    requires Admits(cols, tuple) && i <= |cols|
    ensures Admits(cols[..i], tuple[..i]) && Admits(cols[i..], tuple[i..])
    ensures Record(cols, tuple, nan) == Record(cols[..i], tuple[..i], nan) + Record(cols[i..], tuple[i..], nan)
  {
    hide Field;
    if i == 0 {
      assert cols[0..] == cols && tuple[0..] == tuple;
    } else {
      RecordConcat(cols[1..], tuple[1..], nan, i - 1);
      assert cols[1..][..i - 1] == cols[..i][1..] && tuple[1..][..i - 1] == tuple[..i][1..];
      assert cols[1..][i - 1..] == cols[i..] && tuple[1..][i - 1..] == tuple[i..];
    }
  }

  lemma RecordGrows(cols: seq<Column>, tuple: Tuple, nan: Float8Image, i: nat)
    requires Admits(cols, tuple) && i < |cols|
    ensures Admits(cols[..i], tuple[..i]) && Admits(cols[..i + 1], tuple[..i + 1])
    ensures Record(cols[..i + 1], tuple[..i + 1], nan)
         == Record(cols[..i], tuple[..i], nan) + Field(cols[i], tuple[i], nan)
  {
    hide Field;
    var cs, vs := cols[..i + 1], tuple[..i + 1];
    RecordConcat(cs, vs, nan, i);
    assert cs[..i] == cols[..i] && vs[..i] == tuple[..i];
    assert cs[i..] == [cols[i]] && vs[i..] == [tuple[i]];
    assert Record([cols[i]], [tuple[i]], nan)
        == Field(cols[i], tuple[i], nan) + Record([cols[i]][1..], [tuple[i]][1..], nan);
  }

  lemma RecordWithin(cols: seq<Column>, tuple: Tuple, nan: Float8Image, i: nat)
    requires Admits(cols, tuple) && i <= |cols|
    ensures Admits(cols[..i], tuple[..i]) && |Record(cols[..i], tuple[..i], nan)| <= |Record(cols, tuple, nan)|
  {
    RecordConcat(cols, tuple, nan, i);
  }

  /** A table of nothing but float8 columns can be exported exactly when it has fewer than sixteen of them. */
  lemma FloatTablesFit(cols: seq<Column>, tuple: Tuple, nan: Float8Image)
    requires Admits(cols, tuple) && forall i :: 0 <= i < |cols| ==> cols[i].typ.FLOAT8?
    ensures |Record(cols, tuple, nan)| < BufferSize(cols) <==> |cols| < 16
  {
    FloatRecord(cols, tuple, nan);
    FloatRoom(cols);
  }

  lemma {:induction false} FloatRecord(cols: seq<Column>, tuple: Tuple, nan: Float8Image)
    requires Admits(cols, tuple) && forall i :: 0 <= i < |cols| ==> cols[i].typ.FLOAT8?
    ensures |Record(cols, tuple, nan)| == 8 * |cols|
  {
    if cols != [] {
      FloatRecord(cols[1..], tuple[1..], nan);
    }
  }

  lemma {:induction false} FloatRoom(cols: seq<Column>)
    requires forall i :: 0 <= i < |cols| ==> cols[i].typ.FLOAT8?
    ensures Room(cols) == 8 * |cols|
  {
    if cols != [] {
      FloatRoom(cols[..|cols| - 1]);
    }
  }

  // ---------- Importing ----------

  datatype Notification = Imported(vs: Tuple) | NeedMoreData | Error(message: string)

  /** What has been read of a record, put before what is left to read. */
  function After(vs: Tuple, n: nat, r: RecordResult): RecordResult {
    match r
    case Values(ws, m) => Values(vs + ws, n + m)
    case Short => Short
    case Bad => Bad
  }

  lemma NextField(cols: seq<Column>, i: nat, bytes: seq<Byte>, vs: Tuple, n: nat)
    requires i < |cols|
    ensures var f, r := ReadField(cols[i], bytes), After(vs, n, ReadRecord(cols[i..], bytes));
            && (f.FieldShort? ==> r == Short)
            && (f.FieldBad? ==> r == Bad)
            && (f.Value? ==> r == After(vs + [f.v], n + f.size, ReadRecord(cols[i + 1..], bytes[f.size..])))
  {
  }

  lemma SliceOfSuffix<T>(s: seq<T>, at: nat, from: nat, to: nat)
    requires from <= to && at + to <= |s|
    ensures s[at..][from..to] == s[at + from..at + to]
    ensures from == 0 ==> s[at..][..to] == s[at..at + to]
  {
  }

  /** One turn of the loop of formatter_import: a field at the cursor, if it is all there. */
  method ImportField(col: Column, databuf: seq<Byte>, dataCur: nat) returns (f: FieldResult)
    requires dataCur <= |databuf|
    ensures f == ReadField(col, databuf[dataCur..])
  {
    var remaining := |databuf| - dataCur;
    match col.typ
    case FLOAT8 =>
      if remaining < 8 {
        return FieldShort;
      }
      SliceOfSuffix(databuf, dataCur, 0, 8);
      // The source compares the value with NaN for inequality, which holds of every value, NaN included.
      return Value(Some(Float(databuf[dataCur..dataCur + 8])), 8);
    case TEXT | VARCHAR | BPCHAR =>
      if remaining < 4 {
        return FieldShort;
      }
      var len := Int32At(databuf[dataCur..]);
      if len < 0 {
        return FieldBad;
      }
      if remaining - 4 < len {
        return FieldShort;
      }
      SliceOfSuffix(databuf, dataCur, 4, 4 + len);
      return Value(if len > 0 then Some(Text(databuf[dataCur + 4..dataCur + 4 + len])) else None, 4 + len);
    case UNSUPPORTED =>
      return FieldBad;
  }

  /** The buffer that the scan shares with formatter_import. */
  class Importer {
    const columns: seq<Column>
    var databuf: seq<Byte>
    var cursor: nat

    ghost predicate Valid()
      reads this
    {
      cursor <= |databuf| && AllSupported(columns)
    }

    constructor (cols: seq<Column>)
      requires AllSupported(cols)
      ensures Valid() && columns == cols && databuf == [] && cursor == 0
    {
      columns, databuf, cursor := cols, [], 0;
    }

    /** justifyDatabuf, then the next bytes read */
    method Refill(chunk: seq<Byte>)
      requires Valid()
      modifies this
      ensures Valid() && cursor == 0 && databuf == old(databuf[cursor..]) + chunk
    {
      databuf := databuf[cursor..] + chunk;
      cursor := 0;
    }

    /** The main loop of formatter_import: the cursor moves only past a whole record. */
    method Import() returns (n: Notification)
      requires Valid()
      modifies this`cursor
      ensures Valid()
      ensures var r := ReadRecord(columns, old(databuf[cursor..]));
              && (r.Values? ==> n == Imported(r.vs) && cursor == old(cursor) + r.size)
              && (r.Short? ==> n == NeedMoreData && cursor == old(cursor))
              && (r.Bad? ==> n.Error? && cursor == old(cursor))
    {
      hide ReadRecord, ReadField;
      var dataCur := cursor;
      var values: Tuple := [];
      ghost var r := ReadRecord(columns, databuf[cursor..]);
      NothingRead(columns, databuf[cursor..]);
      for i := 0 to |columns|
        invariant cursor == old(cursor) <= dataCur <= |databuf| && |values| == i
        invariant r == After(values, dataCur - cursor, ReadRecord(columns[i..], databuf[dataCur..]))
      {
        NextField(columns, i, databuf[dataCur..], values, dataCur - cursor);
        var f := ImportField(columns[i], databuf, dataCur);
        match f {
          case FieldShort => return NeedMoreData;
          case FieldBad => return Error("invalid length or unsupported datatype");
          case Value(v, attrLen) =>
            values := values + [v];
            assert databuf[dataCur..][attrLen..] == databuf[dataCur + attrLen..];
            dataCur := dataCur + attrLen;
        }
      }
      AllRead(columns, databuf[dataCur..], values, dataCur - cursor);
      cursor := dataCur;
      n := Imported(values);
    }
  }

  lemma NothingRead(cols: seq<Column>, bytes: seq<Byte>)
    ensures ReadRecord(cols, bytes) == After([], 0, ReadRecord(cols[0..], bytes))
  {
  }

  lemma AllRead(cols: seq<Column>, bytes: seq<Byte>, vs: Tuple, n: nat)
    ensures After(vs, n, ReadRecord(cols[|cols|..], bytes)) == Values(vs, n)
  {
  }

  // ---------- A whole scan ----------

  /** The tuples in a stretch of data, what is left after the last whole one, and whether a bad length was met. */
  datatype Drained = Drained(tuples: seq<Tuple>, rest: seq<Byte>, bad: bool) {
    function AfterTuples(ts: seq<Tuple>): Drained {
      Drained(ts + tuples, rest, bad)
    }
  }

  function Drain(cols: seq<Column>, bytes: seq<Byte>): Drained
    requires cols != []
    decreases |bytes|
  {
    match ReadRecord(cols, bytes)
    case Values(vs, n) => Drain(cols, bytes[n..]).AfterTuples([vs])
    case Short => Drained([], bytes, false)
    case Bad => Drained([], bytes, true)
  }

  /** Data that comes later is read as if it had been there from the start. */
  lemma {:induction false} DrainExtends(cols: seq<Column>, bytes: seq<Byte>, more: seq<Byte>)
    requires cols != []
    ensures var d := Drain(cols, bytes);
            && (!d.bad ==> Drain(cols, bytes + more) == Drain(cols, d.rest + more).AfterTuples(d.tuples))
            && (d.bad ==> Drain(cols, bytes + more).bad && Drain(cols, bytes + more).tuples == d.tuples)
    decreases |bytes|
  {
    hide ReadRecord;
    var r := ReadRecord(cols, bytes);
    if !r.Short? {
      RecordExtends(cols, bytes, more);
    }
    if r.Values? {
      DrainExtends(cols, bytes[r.size..], more);
      assert (bytes + more)[r.size..] == bytes[r.size..] + more;
    }
  }

  function Joined(chunks: seq<seq<Byte>>): seq<Byte> {
    if chunks == [] then [] else Joined(chunks[..|chunks| - 1]) + chunks[|chunks| - 1]
  }

  datatype Outcome = Complete | BadLength | UnexpectedEndOfFile | UnsupportedColumn

  /** One record at the front of the data, and what follows it. */
  lemma DrainStep(cols: seq<Column>, bytes: seq<Byte>, before: seq<Tuple>)
    requires cols != []
    ensures var r, d := ReadRecord(cols, bytes), Drain(cols, bytes).AfterTuples(before);
            && (r.Values? ==> r.size <= |bytes| && d == Drain(cols, bytes[r.size..]).AfterTuples(before + [r.vs]))
            && (r.Short? ==> d == Drained(before, bytes, false))
            && (r.Bad? ==> d == Drained(before, bytes, true))
  {
    hide ReadRecord;
    var r := ReadRecord(cols, bytes);
    if r.Values? {
      var rest := Drain(cols, bytes[r.size..]);
      assert before + ([r.vs] + rest.tuples) == before + [r.vs] + rest.tuples;
    } else {
      assert before + [] == before;
    }
  }

  /** Imports as long as there is a whole record in the buffer. */
  method ImportBuffered(imp: Importer) returns (tuples: seq<Tuple>, bad: bool)
    requires imp.Valid() && imp.columns != []
    modifies imp`cursor
    ensures imp.Valid()
    ensures var d := Drain(imp.columns, old(imp.databuf[imp.cursor..]));
            tuples == d.tuples && bad == d.bad && imp.databuf[imp.cursor..] == d.rest
  {
    hide ReadRecord, Drain;
    tuples := [];
    ghost var all := Drain(imp.columns, imp.databuf[imp.cursor..]);
    assert [] + all.tuples == all.tuples;
    while true
      invariant imp.Valid()
      invariant all == Drain(imp.columns, imp.databuf[imp.cursor..]).AfterTuples(tuples)
      decreases |imp.databuf| - imp.cursor
    {
      ghost var r, at, buf := ReadRecord(imp.columns, imp.databuf[imp.cursor..]), imp.cursor, imp.databuf;
      DrainStep(imp.columns, buf[at..], tuples);
      var n := imp.Import();
      match n {
        case Imported(vs) =>
          assert buf[at..][r.size..] == buf[at + r.size..];
          tuples := tuples + [vs];
        case NeedMoreData =>
          return tuples, false;
        case Error(_) =>
          return tuples, true;
      }
    }
  }

  /** The first call of formatter_import: fails on a column it cannot format. */
  method OpenImporter(cols: seq<Column>) returns (r: Result<Importer>)
    ensures r.Success? <==> AllSupported(cols)
    ensures r.Success? ==> fresh(r.value) && r.value.Valid() && r.value.columns == cols
    ensures r.Success? ==> r.value.databuf == [] && r.value.cursor == 0
  {
    for i := 0 to |cols|
      invariant forall k :: 0 <= k < i ==> cols[k].Supported()
    {
      if cols[i].isDropped {
        return Failure("dropped columns");
      }
      if cols[i].typ.UNSUPPORTED? {
        return Failure("unsupported data type");
      }
    }
    var imp := new Importer(cols);
    r := Success(imp);
  }

  /** The scan: refill, import what is there, and again until the chunks run out.  Without data nothing is called. */
  method ImportAll(cols: seq<Column>, chunks: seq<seq<Byte>>) returns (tuples: seq<Tuple>, outcome: Outcome)
    requires cols != []
    ensures outcome == UnsupportedColumn <==> chunks != [] && !AllSupported(cols)
    ensures chunks == [] ==> tuples == [] && outcome == Complete
    ensures !AllSupported(cols) ==> tuples == []
    ensures AllSupported(cols) ==>
              var d := Drain(cols, Joined(chunks));
              && tuples == d.tuples
              && outcome == if d.bad then BadLength else if d.rest != [] then UnexpectedEndOfFile else Complete
  {
    hide Drain, ReadRecord;
    if AllSupported(cols) {
      DrainNothing(cols);
    }
    if chunks == [] {
      return [], Complete;
    }
    var first := OpenImporter(cols);
    if first.Failure? {
      return [], UnsupportedColumn;
    }
    tuples, outcome := ImportChunks(first.value, chunks);
  }

  /** The chunks of a scan that has been opened. */
  method ImportChunks(imp: Importer, chunks: seq<seq<Byte>>) returns (tuples: seq<Tuple>, outcome: Outcome)
    requires imp.Valid() && imp.columns != [] && imp.databuf == [] && imp.cursor == 0
    modifies imp
    ensures var d := Drain(imp.columns, Joined(chunks));
            && tuples == d.tuples
            && outcome == if d.bad then BadLength else if d.rest != [] then UnexpectedEndOfFile else Complete
  {
    hide Drain, ReadRecord;
    var cols := imp.columns;
    tuples := [];
    DrainNothing(cols);
    for i := 0 to |chunks|
      invariant imp.Valid()
      invariant Drain(cols, Joined(chunks[..i])) == Drained(tuples, imp.databuf[imp.cursor..], false)
    {
      assert chunks[..i + 1][..i] == chunks[..i];
      DrainExtends(cols, Joined(chunks[..i]), chunks[i]);
      imp.Refill(chunks[i]);
      assert imp.databuf[0..] == imp.databuf;
      var more, bad := ImportBuffered(imp);
      tuples := tuples + more;
      if bad {
        JoinedSplit(chunks, i + 1);
        DrainExtends(cols, Joined(chunks[..i + 1]), Joined(chunks[i + 1..]));
        return tuples, BadLength;
      }
    }
    assert chunks[..|chunks|] == chunks;
    outcome := if imp.cursor < |imp.databuf| then UnexpectedEndOfFile else Complete;
  }

  lemma DrainNothing(cols: seq<Column>)
    requires cols != [] && AllSupported(cols)
    ensures Drain(cols, []) == Drained([], [], false)
  {
  }

  lemma {:induction false} JoinedSplit(chunks: seq<seq<Byte>>, i: nat)
    requires i <= |chunks|
    ensures Joined(chunks) == Joined(chunks[..i]) + Joined(chunks[i..])
    decreases |chunks|
  {
    if i == |chunks| {
      assert chunks[..i] == chunks;
    } else {
      var n := |chunks| - 1;
      JoinedSplit(chunks[..n], i);
      assert chunks[..n][..i] == chunks[..i] && chunks[..n][i..] == chunks[i..][..n - i];
    }
  }

  function Records(cols: seq<Column>, tuples: seq<Tuple>, nan: Float8Image): seq<Byte>
    requires forall k :: 0 <= k < |tuples| ==> Admits(cols, tuples[k])
  {
    if tuples == [] then [] else Record(cols, tuples[0], nan) + Records(cols, tuples[1..], nan)
  }

  /** The records of any tuples, one after the other, are read back as those tuples, normalised, and used up. */
  lemma {:induction false} RecordsRoundTrip(cols: seq<Column>, tuples: seq<Tuple>, nan: Float8Image)
    requires cols != [] && forall k :: 0 <= k < |tuples| ==> Admits(cols, tuples[k])
    requires AllSupported(cols)
    ensures var d := Drain(cols, Records(cols, tuples, nan));
            && !d.bad && d.rest == [] && |d.tuples| == |tuples|
            && forall k :: 0 <= k < |tuples| ==> d.tuples[k] == Normalised(cols, tuples[k], nan)
  {
    if tuples == [] {
      DrainNothing(cols);
    } else {
      hide ReadRecord, Record;
      var first, rest := Record(cols, tuples[0], nan), Records(cols, tuples[1..], nan);
      RecordRoundTrip(cols, tuples[0], nan, rest);
      assert (first + rest)[|first|..] == rest;
      RecordsRoundTrip(cols, tuples[1..], nan);
    }
  }
}
