/**
 Which tables formatter_export always has room for.  The buffer has RoomFor every column, and
 128 bytes at least; a record has to be strictly shorter.  A declared length counts characters,
 of up to `w` bytes in the encoding of the database, and a value is clipped to it.
 */
module FormatterRoom {
  import opened Bytes
  import opened Formatter
  import opened Integers

  const PREFIX := 4

  const MAX_CHAR_WIDTH := 4

  const MAX_ATTR_SIZE := 10 * 1024 * 1024

  /** Every string column was declared with a length. */
  ghost predicate AllDeclared(cols: seq<Column>) {
    forall i :: 0 <= i < |cols| ==> cols[i].typ.FLOAT8? || PREFIX <= cols[i].typmod
  }

  /** A declared length is neither negative nor more than a value may have; four is added to it. */
  predicate Proper(col: Column) {
    col.typ.FLOAT8? || col.typmod <= 0 || PREFIX <= col.typmod <= PREFIX + MAX_ATTR_SIZE
  }

  ghost predicate AllProper(cols: seq<Column>) {
    forall i :: 0 <= i < |cols| ==> Proper(cols[i])
  }

  /** No string has more characters, of w bytes each, than its column was declared to have. */
  predicate ValueWithin(col: Column, v: Option<Datum>, w: nat) {
    v.Some? && v.value.Text? && 0 < col.typmod ==> |v.value.bytes| <= w * (col.typmod - PREFIX)
  }

  ghost predicate Within(cols: seq<Column>, tuple: Tuple, w: nat)
    requires |cols| == |tuple|
  {
    forall i :: 0 <= i < |cols| ==> ValueWithin(cols[i], tuple[i], w)
  }

  /** The size of the widest field of a column. */
  function WidestField(col: Column, w: nat): nat
    requires Proper(col)
  {
    if col.typ.FLOAT8? then 8
    else if 0 < col.typmod then PREFIX + w * (col.typmod - PREFIX)
    else PREFIX + MAX_FORMAT_STRING
  }

  ghost function Widest(cols: seq<Column>, w: nat): nat
    requires AllProper(cols)
  {
    if cols == [] then 0 else WidestField(cols[0], w) + Widest(cols[1..], w)
  }

  lemma {:induction false} RoomFirst(cols: seq<Column>)
    requires cols != []
    ensures Room(cols) == RoomFor(cols[0]) + Room(cols[1..])
  {
    var n := |cols| - 1;
    if n == 0 {
      assert cols[1..] == [] && cols[..n] == [];
    } else {
      RoomFirst(cols[..n]);
      assert cols[..n][1..] == cols[1..][..n - 1];
    }
  }

  // ---------- The widest record ----------

  lemma FieldWithin(col: Column, v: Option<Datum>, nan: Float8Image, w: nat)
    requires col.Supported() && col.Admits(v) && Proper(col) && ValueWithin(col, v, w)
    requires col.typ.FLOAT8? || PREFIX <= col.typmod
    ensures |Field(col, v, nan)| <= WidestField(col, w)
  {
  }

  lemma {:induction false} RecordWithin(cols: seq<Column>, tuple: Tuple, nan: Float8Image, w: nat)
    requires Admits(cols, tuple) && AllProper(cols) && AllDeclared(cols) && Within(cols, tuple, w)
    ensures |Record(cols, tuple, nan)| <= Widest(cols, w)
  {
    if cols != [] {
      hide Field, WidestField, ValueWithin;
      RecordWithin(cols[1..], tuple[1..], nan, w);
      FieldWithin(cols[0], tuple[0], nan, w);
    }
  }

  function Blank(n: nat): (b: TextImage)
    requires n <= INT32_MAX
    ensures |b| == n
  {
    seq(n, _ => 0)
  }

  /** A null float, or a string as long as the column allows. */
  function Filling(col: Column, w: nat): Option<Datum>
    requires Proper(col) && w <= MAX_CHAR_WIDTH
  {
    if col.typ.FLOAT8? then None
    else if 0 < col.typmod then Some(Text(Blank(w * (col.typmod - PREFIX))))
    else Some(Text(Blank(MAX_FORMAT_STRING)))
  }

  ghost function Full(cols: seq<Column>, w: nat): (tuple: Tuple)
    requires AllProper(cols) && w <= MAX_CHAR_WIDTH
    ensures |tuple| == |cols|
  {
    seq(|cols|, i requires 0 <= i < |cols| => Filling(cols[i], w))
  }

  lemma FullAdmitted(cols: seq<Column>, w: nat)
    requires AllSupported(cols) && AllProper(cols) && w <= MAX_CHAR_WIDTH
    ensures Admits(cols, Full(cols, w)) && Within(cols, Full(cols, w), w)
  {
  }

  lemma FullField(col: Column, nan: Float8Image, w: nat)
    requires col.Supported() && Proper(col) && 1 <= w <= MAX_CHAR_WIDTH && col.Admits(Filling(col, w))
    ensures RoomFor(col) <= |Field(col, Filling(col, w), nan)| == WidestField(col, w)
  {
    if !col.typ.FLOAT8? && 0 < col.typmod {
      assert col.typmod - PREFIX <= w * (col.typmod - PREFIX);
    }
  }

  /** The full tuple has the widest record, and that is no less than the room there is. */
  lemma {:induction false} FullRecord(cols: seq<Column>, nan: Float8Image, w: nat)
    requires AllSupported(cols) && AllProper(cols) && 1 <= w <= MAX_CHAR_WIDTH && Admits(cols, Full(cols, w))
    ensures Room(cols) <= |Record(cols, Full(cols, w), nan)| == Widest(cols, w)
  {
    if cols != [] {
      RoomFirst(cols);
      FullAdmitted(cols[1..], w);
      hide Field, Filling, RoomFor, WidestField;
      assert Full(cols, w)[1..] == Full(cols[1..], w);
      FullRecord(cols[1..], nan, w);
      FullField(cols[0], nan, w);
    }
  }

  lemma {:induction false} RoomForEach(cols: seq<Column>, i: nat)
    requires i < |cols|
    ensures RoomFor(cols[i]) <= Room(cols)
  {
    RoomFirst(cols);
    if 0 < i {
      RoomForEach(cols[1..], i - 1);
    }
  }

  // ---------- Exactly which tables fit ----------

  /** Every tuple whose strings are within their declared lengths can be exported. */
  ghost predicate Fits(cols: seq<Column>, nan: Float8Image, w: nat) {
    forall tuple :: Admits(cols, tuple) && Within(cols, tuple, w) ==> |Record(cols, tuple, nan)| < BufferSize(cols)
  }

  /**
   In an encoding of characters of up to w bytes, every tuple of a table can be exported exactly
   when every string column was declared with a length and the widest record is shorter than the
   128 bytes that there always are.
   */
  lemma TablesFit(cols: seq<Column>, nan: Float8Image, w: nat)
    requires AllSupported(cols) && AllProper(cols) && 1 <= w <= MAX_CHAR_WIDTH
    ensures Fits(cols, nan, w) <==> AllDeclared(cols) && Widest(cols, w) < 128
  {
    hide Record, Room, Widest, Within;
    if AllDeclared(cols) && Widest(cols, w) < 128 {
      forall tuple | Admits(cols, tuple) && Within(cols, tuple, w)
        ensures |Record(cols, tuple, nan)| < BufferSize(cols)
      {
        RecordWithin(cols, tuple, nan, w);
      }
    }
    if Fits(cols, nan, w) {
      FullAdmitted(cols, w);
      FullRecord(cols, nan, w);
      forall i | 0 <= i < |cols| ensures cols[i].typ.FLOAT8? || PREFIX <= cols[i].typmod {
        RoomForEach(cols, i);
      }
    }
  }

  lemma {:induction false} WidestOfSingleBytes(cols: seq<Column>)
    requires AllProper(cols) && AllDeclared(cols)
    ensures Widest(cols, 1) == Room(cols)
  {
    if cols != [] {
      RoomFirst(cols);
      WidestOfSingleBytes(cols[1..]);
    }
  }

  /** With single-byte characters the widest record is just the room reckoned for the columns. */
  lemma DeclaredTablesFit(cols: seq<Column>, nan: Float8Image)
    requires AllSupported(cols) && AllProper(cols)
    ensures Fits(cols, nan, 1) <==> AllDeclared(cols) && Room(cols) < 128
  {
    hide Fits, Room, Widest;
    TablesFit(cols, nan, 1);
    if AllDeclared(cols) {
      WidestOfSingleBytes(cols);
    }
  }

  // ---------- Exactly which tuples fit ----------

  /** How many columns there are of a kind. */
  ghost function Count(cols: seq<Column>, kind: Column -> bool): nat {
    if cols == [] then 0 else (if kind(cols[0]) then 1 else 0) + Count(cols[1..], kind)
  }

  ghost function IsFloat(): Column -> bool {
    (col: Column) => col.typ.FLOAT8?
  }

  ghost function IsUndeclared(): Column -> bool {
    (col: Column) => !col.typ.FLOAT8? && col.typmod <= 0
  }

  /** The sum of the type modifiers of the declared strings: their lengths, and four for each. */
  ghost function DeclaredLengths(cols: seq<Column>): nat {
    if cols == [] then 0
    else (if !cols[0].typ.FLOAT8? && 0 < cols[0].typmod then cols[0].typmod else 0) + DeclaredLengths(cols[1..])
  }

  /** The bytes of the strings that are written; of a string without any type modifier 4096 at most. */
  ghost function StringBytes(cols: seq<Column>, tuple: Tuple): nat
    requires |cols| == |tuple|
  {
    if cols == [] then 0
    else
      (if tuple[0].None? || tuple[0].value.Float? then 0
       else if cols[0].typmod < 0 then Min(|tuple[0].value.bytes|, 4096)
       else |tuple[0].value.bytes|)
      + StringBytes(cols[1..], tuple[1..])
  }

  lemma {:induction false} RecordSize(cols: seq<Column>, tuple: Tuple, nan: Float8Image)
    requires Admits(cols, tuple)
    ensures |Record(cols, tuple, nan)|
         == 4 * |cols| + 4 * Count(cols, IsFloat()) + StringBytes(cols, tuple)
  {
    if cols != [] {
      RecordSize(cols[1..], tuple[1..], nan);
    }
  }

  lemma {:induction false} RoomSize(cols: seq<Column>)
    ensures Room(cols) == 8 * Count(cols, IsFloat()) + DeclaredLengths(cols) + 4096 * Count(cols, IsUndeclared())
  {
    if cols != [] {
      RoomFirst(cols);
      RoomSize(cols[1..]);
    }
  }

  /** Eight bytes for a float8; four for the length of a string, and its bytes. */
  ghost function Taken(cols: seq<Column>, tuple: Tuple): int
    requires |cols| == |tuple|
  {
    var floats := Count(cols, IsFloat());
    8 * floats + 4 * (|cols| - floats) + StringBytes(cols, tuple)
  }

  /** Eight bytes for a float8, its declared length and four for a declared string, 4096 for any other. */
  ghost function Reserved(cols: seq<Column>): nat {
    8 * Count(cols, IsFloat()) + DeclaredLengths(cols) + 4096 * Count(cols, IsUndeclared())
  }

  /** A tuple can be exported exactly when it takes less than is reserved, or than the 128 bytes there always are. */
  lemma TupleFits(cols: seq<Column>, tuple: Tuple, nan: Float8Image)
    requires Admits(cols, tuple)
    ensures |Record(cols, tuple, nan)| < BufferSize(cols)
       <==> Taken(cols, tuple) < 128 || Taken(cols, tuple) < Reserved(cols)
  {
    RecordSize(cols, tuple, nan);
    RoomSize(cols);
  }

  lemma {:induction false} OnlyUndeclared(cols: seq<Column>)
    requires forall i :: 0 <= i < |cols| ==> IsUndeclared()(cols[i])
    ensures Count(cols, IsFloat()) == 0 && Count(cols, IsUndeclared()) == |cols| && DeclaredLengths(cols) == 0
  {
    if cols != [] {
      OnlyUndeclared(cols[1..]);
    }
  }

  /** Where no string was declared with a length, they can be exported exactly when they average under 4092 bytes. */
  lemma UndeclaredFit(cols: seq<Column>, tuple: Tuple, nan: Float8Image)
    requires cols != [] && Admits(cols, tuple) && forall i :: 0 <= i < |cols| ==> IsUndeclared()(cols[i])
    ensures |Record(cols, tuple, nan)| < BufferSize(cols) <==> StringBytes(cols, tuple) < 4092 * |cols|
  {
    OnlyUndeclared(cols);
    TupleFits(cols, tuple, nan);
  }

  /** A single such string can be, exactly when it is shorter than 4092 bytes. */
  lemma OneUndeclaredFits(col: Column, s: TextImage, nan: Float8Image)
    requires col.Supported() && IsUndeclared()(col)
    ensures |Record([col], [Some(Text(s))], nan)| < BufferSize([col]) <==> |s| < 4092
  {
    hide Record, BufferSize;
    var tuple: Tuple := [Some(Text(s))];
    UndeclaredFit([col], tuple, nan);
    assert [col][1..] == [] && tuple[1..] == [];
    assert StringBytes([col], tuple) == if col.typmod < 0 then Min(|s|, 4096) else |s|;
  }
}
