/** The binary row format: layouts (crates/binary/src/schema_layout.rs), the encoder
  (crates/binary/src/encoder.rs) and the TypeScript decoder (example/src/binary-decoder.ts).

  A document is a 16-byte header, one fixed-size record per row and the bytes of the
  variable-length values. Text and floats are turned into bytes by a codec. */
module BinaryFormat {
  import opened Encodings
  import opened Options
  import opened Values

  type Bytestring = seq<byte>

  type Row = seq<Value>

  const HEADER_SIZE: nat := 16
  const HAS_NULLS: nat := 1
  const U32: nat := 0x1_0000_0000

  datatype DataType = TBoolean | TInt32 | TInt64 | TFloat64 | TString | TDateTime | TBytes | TJsonb {
    function FixedSize(): nat {
      match this
      case TBoolean => 1
      case TInt32 => 4
      case _ => 8
    }

    predicate IsVariableLength() { TString? || TBytes? || TJsonb? }
  }

  /** How floats and texts become bytes. */
  datatype Codec = Codec(
    float: Float -> Bytestring,
    unfloat: Bytestring -> Float,
    text: string -> Bytestring,
    untext: Bytestring -> string)

  /** Floats take eight bytes; doubles and texts can be read back. */
  ghost predicate Faithful(codec: Codec) {
    && (forall f :: |codec.float(f)| == 8)
    && (forall f :: IsDouble(f) ==> codec.unfloat(codec.float(f)) == f)
    && (forall s :: codec.untext(codec.text(s)) == s)
    && (forall s :: codec.text(s) == [] ==> s == "")
  }

  /** The codec of the source is faithful: floats as the eight bytes of their IEEE 754 pattern, the lowest
      first, and texts in UTF-8. */
  lemma SourceCodec() returns (codec: Codec)
    ensures Faithful(codec)
    ensures codec.text == Utf8 && codec.untext == FromUtf8 && codec.unfloat == DoubleOf
    ensures forall f :: codec.float(f) == DoubleBytes(f)
  {
    codec := Codec((f: Float) => DoubleBytes(f), DoubleOf, Utf8, FromUtf8);
    forall s ensures codec.untext(codec.text(s)) == s {
      FromUtf8Utf8(s);
    }
  }

  // ----- Layouts -------------------------------------------------------------------------------

  datatype ColumnDef = ColumnDef(name: string, dataType: DataType, nullable: bool)

  datatype ColumnLayout = ColumnLayout(name: string, dataType: DataType, fixedSize: nat, isNullable: bool, offset: nat)

  datatype SchemaLayout = SchemaLayout(columns: seq<ColumnLayout>, rowStride: nat, nullMaskSize: nat)

  function ScanColumns(columns: seq<ColumnDef>, offset: nat): (r: seq<ColumnLayout>)
    ensures |r| == |columns|
  {
    if columns == [] then []
    else
      var c := columns[0];
      [ColumnLayout(c.name, c.dataType, c.dataType.FixedSize(), c.nullable, offset)]
        + ScanColumns(columns[1..], offset + c.dataType.FixedSize())
  }

  function SizeOf(columns: seq<ColumnLayout>): nat {
    if columns == [] then 0 else columns[0].fixedSize + SizeOf(columns[1..])
  }

  function FromColumns(columns: seq<ColumnDef>): SchemaLayout {
    var layout := ScanColumns(columns, 0);
    var mask := (|layout| + 7) / 8;
    SchemaLayout(layout, mask + SizeOf(layout), mask)
  }

  function FromSchema(table: seq<ColumnDef>): SchemaLayout { FromColumns(table) }

  /** Columns of all tables but the first may be NULL. */
  function JoinedColumns(tables: seq<seq<ColumnDef>>, first: bool): seq<ColumnDef> {
    if tables == [] then []
    else
      seq(|tables[0]|, i requires 0 <= i < |tables[0]| => tables[0][i].(nullable := !first || tables[0][i].nullable))
        + JoinedColumns(tables[1..], false)
  }

  function FromSchemas(tables: seq<seq<ColumnDef>>): SchemaLayout { FromColumns(JoinedColumns(tables, true)) }

  function GetColumn(table: seq<ColumnDef>, name: string): Option<ColumnDef> {
    if table == [] then None else if table[0].name == name then Some(table[0]) else GetColumn(table[1..], name)
  }

  /** The layout ends before the first unknown name. */
  function ProjectedColumns(table: seq<ColumnDef>, names: seq<string>): seq<ColumnDef> {
    if names == [] then []
    else
      match GetColumn(table, names[0])
      case None => []
      case Some(c) => [c] + ProjectedColumns(table, names[1..])
  }

  function FromProjection(table: seq<ColumnDef>, names: seq<string>): SchemaLayout {
    FromColumns(ProjectedColumns(table, names))
  }

  /** Columns lie one behind the other and fill the record behind the null mask. */
  predicate Packed(layout: SchemaLayout) {
    && layout.nullMaskSize == (|layout.columns| + 7) / 8
    && layout.rowStride == layout.nullMaskSize + SizeOf(layout.columns)
    && (forall k {:trigger layout.columns[k].fixedSize} :: 0 <= k < |layout.columns| ==>
          layout.columns[k].fixedSize == layout.columns[k].dataType.FixedSize())
    && (forall k {:trigger layout.columns[k].offset} :: 0 <= k < |layout.columns| ==>
          layout.columns[k].offset == SizeOf(layout.columns[..k]))
  }

  type Layout = layout: SchemaLayout | Packed(layout) witness SchemaLayout([], 0, 0)

  lemma {:induction false} SizeConcat(a: seq<ColumnLayout>, b: seq<ColumnLayout>)
    ensures SizeOf(a + b) == SizeOf(a) + SizeOf(b)
  {
    if a == [] {
      assert a + b == b;
    } else {
      assert (a + b)[1..] == a[1..] + b;
      SizeConcat(a[1..], b);
    }
  }

  lemma {:induction false} ScanPacks(columns: seq<ColumnDef>, offset: nat, k: nat)
    requires k < |columns|
    ensures var layout := ScanColumns(columns, offset);
      && layout[k].name == columns[k].name
      && layout[k].dataType == columns[k].dataType
      && layout[k].isNullable == columns[k].nullable
      && layout[k].fixedSize == columns[k].dataType.FixedSize()
      && layout[k].offset == offset + SizeOf(layout[..k])
  {
    var layout := ScanColumns(columns, offset);
    if k > 0 {
      var tail := ScanColumns(columns[1..], offset + columns[0].dataType.FixedSize());
      ScanPacks(columns[1..], offset + columns[0].dataType.FixedSize(), k - 1);
      assert layout[..k][1..] == tail[..k - 1];
    }
  }

  /** Every layout the three constructors build is packed. */
  lemma LayoutsArePacked(columns: seq<ColumnDef>)
    ensures Packed(FromColumns(columns))
  {
    forall k | 0 <= k < |columns|
      ensures FromColumns(columns).columns[k].fixedSize == FromColumns(columns).columns[k].dataType.FixedSize()
      ensures FromColumns(columns).columns[k].offset == SizeOf(FromColumns(columns).columns[..k])
    {
      ScanPacks(columns, 0, k);
    }
  }

  /** The layout column describes the column. */
  predicate Describes(layout: ColumnLayout, name: string, dataType: DataType, nullable: bool) {
    layout.name == name && layout.dataType == dataType && layout.isNullable == nullable
  }

  /** The layout of a table has its columns in order. */
  lemma SchemaColumns(table: seq<ColumnDef>, k: nat)
    requires k < |table|
    ensures |FromSchema(table).columns| == |table|
    ensures Describes(FromSchema(table).columns[k], table[k].name, table[k].dataType, table[k].nullable)
  {
    ScanPacks(table, 0, k);
  }

  /** The first column of the name. */
  predicate IsColumn(table: seq<ColumnDef>, name: string, i: nat) {
    i < |table| && table[i].name == name && forall k :: 0 <= k < i ==> table[k].name != name
  }

  predicate HasColumn(table: seq<ColumnDef>, name: string) { exists i :: 0 <= i < |table| && table[i].name == name }

  lemma {:induction false} GetsColumn(table: seq<ColumnDef>, name: string)
    ensures match GetColumn(table, name)
      case None => !HasColumn(table, name)
      case Some(c) => HasColumn(table, name) && exists i: nat :: IsColumn(table, name, i) && table[i] == c
  {
    if table != [] {
      if table[0].name == name {
        assert IsColumn(table, name, 0);
      } else {
        GetsColumn(table[1..], name);
        if GetColumn(table, name).Some? {
          var i: nat :| IsColumn(table[1..], name, i) && table[1..][i] == GetColumn(table, name).value;
          forall k | 0 <= k < i + 1 ensures table[k].name != name {
            assert k > 0 ==> table[k] == table[1..][k - 1];
          }
          assert IsColumn(table, name, i + 1);
        } else {
          assert forall i :: 0 < i < |table| ==> table[i] == table[1..][i - 1];
        }
      }
    }
  }

  lemma {:induction false} ProjectsInOrder(table: seq<ColumnDef>, names: seq<string>)
    ensures var columns := ProjectedColumns(table, names);
      && |columns| <= |names| && (|columns| < |names| ==> !HasColumn(table, names[|columns|]))
      && forall k :: 0 <= k < |columns| ==> exists i: nat :: IsColumn(table, names[k], i) && columns[k] == table[i]
  {
    if names != [] {
      GetsColumn(table, names[0]);
      ProjectsInOrder(table, names[1..]);
      hide GetColumn, HasColumn, IsColumn;
      var columns := ProjectedColumns(table, names);
      forall k | 0 <= k < |columns| ensures exists i: nat :: IsColumn(table, names[k], i) && columns[k] == table[i] {
        if k > 0 {
          assert columns[k] == ProjectedColumns(table, names[1..])[k - 1] && names[k] == names[1..][k - 1];
        }
      }
    }
  }

  /** Column k of the layout of a projection is the column named by the k-th name; the layout ends before the
      first name the table has no column of. */
  lemma ProjectionColumns(table: seq<ColumnDef>, names: seq<string>)
    ensures var columns := FromProjection(table, names).columns;
      && |columns| <= |names| && (|columns| < |names| ==> !HasColumn(table, names[|columns|]))
      && forall k :: 0 <= k < |columns| ==>
           exists i: nat :: IsColumn(table, names[k], i) && Describes(columns[k], names[k], table[i].dataType, table[i].nullable)
  {
    ProjectsInOrder(table, names);
    var projected := ProjectedColumns(table, names);
    hide ProjectedColumns, HasColumn;
    forall k | 0 <= k < |projected|
      ensures exists i: nat :: IsColumn(table, names[k], i)
                && Describes(FromProjection(table, names).columns[k], names[k], table[i].dataType, table[i].nullable)
    {
      ScanPacks(projected, 0, k);
    }
  }

  /** How many columns stand before a table of a join. */
  function ColumnsBefore(tables: seq<seq<ColumnDef>>, t: nat): nat
    requires t <= |tables|
  {
    if t == 0 then 0 else ColumnsBefore(tables, t - 1) + |tables[t - 1]|
  }

  lemma {:induction false} BeforeFirst(tables: seq<seq<ColumnDef>>, t: nat)
    requires 0 < t <= |tables|
    ensures ColumnsBefore(tables, t) == |tables[0]| + ColumnsBefore(tables[1..], t - 1)
  {
    if t > 1 {
      BeforeFirst(tables, t - 1);
    }
  }

  lemma {:induction false} JoinedInOrder(tables: seq<seq<ColumnDef>>, first: bool, t: nat, i: nat)
    requires t < |tables| && i < |tables[t]|
    ensures ColumnsBefore(tables, t) + i < |JoinedColumns(tables, first)|
    ensures JoinedColumns(tables, first)[ColumnsBefore(tables, t) + i]
         == tables[t][i].(nullable := t > 0 || !first || tables[t][i].nullable)
  {
    if t > 0 {
      JoinedInOrder(tables[1..], false, t - 1, i);
      BeforeFirst(tables, t);
    }
  }

  lemma {:induction false} JoinedCount(tables: seq<seq<ColumnDef>>, first: bool)
    ensures |JoinedColumns(tables, first)| == ColumnsBefore(tables, |tables|)
  {
    if tables != [] {
      JoinedCount(tables[1..], false);
      BeforeFirst(tables, |tables|);
    }
  }

  /** The layout of a join has the columns of its tables one table behind the other, and all but those of the
      first may be NULL. */
  lemma SchemasColumns(tables: seq<seq<ColumnDef>>, t: nat, i: nat)
    requires t < |tables| && i < |tables[t]|
    ensures |FromSchemas(tables).columns| == ColumnsBefore(tables, |tables|)
    ensures var at := ColumnsBefore(tables, t) + i;
      && at < |FromSchemas(tables).columns|
      && Describes(FromSchemas(tables).columns[at], tables[t][i].name, tables[t][i].dataType, t > 0 || tables[t][i].nullable)
  {
    JoinedInOrder(tables, true, t, i);
    JoinedCount(tables, true);
    ScanPacks(JoinedColumns(tables, true), 0, ColumnsBefore(tables, t) + i);
  }

  // ----- Bytes ---------------------------------------------------------------------------------

  function Le32(n: nat): Bytestring { LittleEndian(n, 4) }

  function U32At(doc: Bytestring, at: nat): nat
    requires at + 4 <= |doc|
  {
    var (a, b, c, d) := (doc[at] as int, doc[at + 1] as int, doc[at + 2] as int, doc[at + 3] as int);
    a + 0x100 * b + 0x1_0000 * c + 0x100_0000 * d
  }

  function I32At(doc: Bytestring, at: nat): int32
    requires at + 4 <= |doc|
  {
    var u := U32At(doc, at);
    if u < 0x8000_0000 then u else u - U32
  }

  function Unsigned(i: int32): nat { if i < 0 then i + U32 else i }

  lemma Le32Value(n: nat)
    ensures U32At(Le32(n), 0) == n % U32
  {
    var a, b, c := n / 0x100, n / 0x1_0000, n / 0x100_0000;
    assert b == a / 0x100 && c == b / 0x100;
    assert Le32(n) == [n % 0x100, a % 0x100, b % 0x100, c % 0x100] by {
      assert LittleEndian(c, 1) == [c % 0x100] && LittleEndian(b, 2) == [b % 0x100, c % 0x100];
      assert LittleEndian(a, 3) == [a % 0x100, b % 0x100, c % 0x100];
    }
    assert n % U32 == n - U32 * (n / U32) && n / U32 == c / 0x100;
  }

  function Zeros(n: nat): (bytes: Bytestring)
    ensures |bytes| == n
  {
    seq(n, i => 0)
  }

  /** Binary digit `b` of a byte, counted from the least. */
  predicate HasBit(x: nat, b: nat) {
    if b == 0 then x % 2 == 1 else HasBit(x / 2, b - 1)
  }

  /** Bitwise or with `1 << b`, digit by digit. */
  function SetBit(x: nat, b: nat): nat {
    if b == 0 then x + 1 - x % 2 else 2 * SetBit(x / 2, b - 1) + x % 2
  }

  lemma {:induction false} SetBitSets(x: nat, b: nat, k: nat)
    ensures HasBit(SetBit(x, b), k) <==> k == b || HasBit(x, k)
  {
    if b > 0 && k > 0 {
      SetBitSets(x / 2, b - 1, k - 1);
      assert SetBit(x, b) / 2 == SetBit(x / 2, b - 1);
    } else if b == 0 && k > 0 {
      assert SetBit(x, 0) / 2 == x / 2;
    }
  }

  function Exp2(n: nat): nat { if n == 0 then 1 else 2 * Exp2(n - 1) }

  lemma {:induction false} SetBitFits(x: nat, b: nat, n: nat)
    requires b < n && x < Exp2(n)
    ensures SetBit(x, b) < Exp2(n)
  {
    if b > 0 {
      SetBitFits(x / 2, b - 1, n - 1);
      assert SetBit(x, b) == 2 * SetBit(x / 2, b - 1) + x % 2;
    } else {
      OddFits(x, Exp2(n - 1));
    }
  }

  lemma OddFits(x: nat, half: nat)
    requires x < 2 * half
    ensures x + 1 - x % 2 < 2 * half
  {}

  function SetByteBit(x: byte, b: nat): byte
    requires b < 8
  {
    assert Exp2(8) == 256 by {
      assert Exp2(4) == 16;
    }
    SetBitFits(x, b, 8);
    SetBit(x, b)
  }

  // ----- What the encoder writes ---------------------------------------------------------------

  function CellOf(row: Row, k: nat): Value { if k < |row| then row[k] else Null }

  /** The bytes a value adds to the variable section. */
  function VarBytes(codec: Codec, v: Value, t: DataType): Bytestring {
    match (v, t)
    case (String(s), TString) => codec.text(s)
    case (Bytes(b), TBytes) => b
    case (Jsonb(j), TJsonb) => j
    case (_, _) => []
  }

  /** The bytes of a value in its record; `start` is the length of the variable section so far. A value
      of another type is written as zeros. */
  function FixedBytes(codec: Codec, v: Value, t: DataType, start: nat): Bytestring {
    match (v, t)
    case (Boolean(b), TBoolean) => [if b then 1 else 0]
    case (Int32(i), TInt32) => Le32(Unsigned(i))
    case (Int64(l), TInt64) => codec.float(AsDouble(l))
    case (Float64(f), TFloat64) => codec.float(f)
    case (DateTime(ts), TDateTime) => codec.float(AsDouble(ts))
    case (String(_), TString) => Le32(start) + Le32(|VarBytes(codec, v, t)|)
    case (Bytes(_), TBytes) => Le32(start) + Le32(|VarBytes(codec, v, t)|)
    case (Jsonb(_), TJsonb) => Le32(start) + Le32(|VarBytes(codec, v, t)|)
    case (_, _) => Zeros(t.FixedSize())
  }

  lemma FixedBytesSize(codec: Codec, v: Value, t: DataType, start: nat)
    requires Faithful(codec)
    ensures |FixedBytes(codec, v, t, start)| == t.FixedSize()
  {}

  /** How one value is written: its bytes in the record, given the length of the variable section, and
      its bytes in the variable section. */
  datatype Writer = Writer(fixed: (Value, DataType, nat) -> Bytestring, vars: (Value, DataType) -> Bytestring)

  function WriterOf(codec: Codec): Writer {
    Writer((v: Value, t: DataType, start: nat) => FixedBytes(codec, v, t, start),
           (v: Value, t: DataType) => VarBytes(codec, v, t))
  }

  function CellFixed(w: Writer, row: Row, k: nat, c: ColumnLayout, start: nat): Bytestring {
    if CellOf(row, k).Null? then Zeros(c.fixedSize) else w.fixed(CellOf(row, k), c.dataType, start)
  }

  function CellVar(w: Writer, row: Row, k: nat, c: ColumnLayout): Bytestring { w.vars(CellOf(row, k), c.dataType) }

  /** The records of the first `n` cells and the bytes they add to the variable section. */
  function CellsVar(w: Writer, columns: seq<ColumnLayout>, row: Row, n: nat): Bytestring
    requires n <= |columns|
  {
    if n == 0 then [] else CellsVar(w, columns, row, n - 1) + CellVar(w, row, n - 1, columns[n - 1])
  }

  function CellsFixed(w: Writer, columns: seq<ColumnLayout>, row: Row, n: nat, start: nat): Bytestring
    requires n <= |columns|
  {
    if n == 0 then []
    else
      CellsFixed(w, columns, row, n - 1, start)
        + CellFixed(w, row, n - 1, columns[n - 1], start + |CellsVar(w, columns, row, n - 1)|)
  }

  /** The null mask once the first `n` cells are written. */
  function NullMask(row: Row, size: nat, n: nat): (mask: Bytestring)
    requires n <= 8 * size
    ensures |mask| == size
  {
    if n == 0 then Zeros(size)
    else
      var mask := NullMask(row, size, n - 1);
      if CellOf(row, n - 1).Null? then mask[(n - 1) / 8 := SetByteBit(mask[(n - 1) / 8], (n - 1) % 8)] else mask
  }

  function RowFixed(w: Writer, layout: Layout, row: Row, start: nat): Bytestring {
    NullMask(row, layout.nullMaskSize, |layout.columns|) + CellsFixed(w, layout.columns, row, |layout.columns|, start)
  }

  function RowVar(w: Writer, layout: SchemaLayout, row: Row): Bytestring {
    CellsVar(w, layout.columns, row, |layout.columns|)
  }

  function RowsVar(w: Writer, layout: SchemaLayout, rows: seq<Row>): Bytestring {
    if rows == [] then [] else RowsVar(w, layout, rows[..|rows| - 1]) + RowVar(w, layout, rows[|rows| - 1])
  }

  function RowsFixed(w: Writer, layout: Layout, rows: seq<Row>): Bytestring {
    if rows == [] then []
    else
      RowsFixed(w, layout, rows[..|rows| - 1])
        + RowFixed(w, layout, rows[|rows| - 1], |RowsVar(w, layout, rows[..|rows| - 1])|)
  }

  predicate NullWithin(row: Row, n: nat) { n > 0 && (CellOf(row, n - 1).Null? || NullWithin(row, n - 1)) }

  lemma {:induction false} NullWithinExists(row: Row, n: nat)
    ensures NullWithin(row, n) <==> exists k :: 0 <= k < n && CellOf(row, k).Null?
  {
    if n > 0 {
      NullWithinExists(row, n - 1);
    }
  }

  predicate RowHasNull(layout: SchemaLayout, row: Row) {
    exists k :: 0 <= k < |layout.columns| && CellOf(row, k).Null?
  }

  predicate AnyNull(layout: SchemaLayout, rows: seq<Row>) { exists r :: 0 <= r < |rows| && RowHasNull(layout, rows[r]) }

  function Header(rowCount: nat, rowStride: nat, varOffset: nat, hasNulls: bool): (header: Bytestring)
    ensures |header| == HEADER_SIZE
  {
    Le32(rowCount) + Le32(rowStride) + Le32(varOffset) + Le32(if hasNulls then HAS_NULLS else 0)
  }

  function Assembled(w: Writer, layout: Layout, rows: seq<Row>): Bytestring {
    Header(|rows|, layout.rowStride, HEADER_SIZE + |RowsFixed(w, layout, rows)|, AnyNull(layout, rows))
      + RowsFixed(w, layout, rows) + RowsVar(w, layout, rows)
  }

  /** The whole document. */
  function Document(codec: Codec, layout: Layout, rows: seq<Row>): Bytestring {
    Assembled(WriterOf(codec), layout, rows)
  }

  // ----- The encoder ---------------------------------------------------------------------------

  class BinaryEncoder {
    const codec: Codec
    const layout: Layout
    var buffer: Bytestring
    var varBuffer: Bytestring
    var rowCount: nat
    var hasNulls: bool

    constructor (codec: Codec, layout: Layout)
      ensures this.codec == codec && this.layout == layout && Holds([]) && buffer == []
    {
      this.codec, this.layout := codec, layout;
      buffer, varBuffer, rowCount, hasNulls := [], [], 0, false;
    }

    /** The encoder holds the records and variable bytes of `rows`; the header is still blank. */
    ghost predicate Holds(rows: seq<Row>)
      reads this
    {
      && (buffer == [] ==> rows == [])
      && (buffer != [] ==> buffer == Zeros(HEADER_SIZE) + RowsFixed(WriterOf(codec), layout, rows))
      && varBuffer == RowsVar(WriterOf(codec), layout, rows)
      && rowCount == |rows|
      && hasNulls == AnyNull(layout, rows)
    }

    /** Encodes a batch behind what is already there. */
    method EncodeRows(rows: seq<Row>, ghost before: seq<Row>)
      requires Holds(before)
      modifies this
      ensures buffer != [] && Holds(before + rows)
    {
      ReserveHeader(before);
      ghost var done := before;
      for i := 0 to |rows|
        invariant done == before + rows[..i]
        invariant buffer != [] && Holds(done)
      {
        EncodeNext(rows[i], done);
        done := done + [rows[i]];
      }
      assert done == before + rows;
    }

    /** The blank header, written once. */
    method ReserveHeader(ghost rows: seq<Row>)
      requires Holds(rows)
      modifies this`buffer
      ensures buffer != [] && Holds(rows)
    {
      if buffer == [] {
        buffer := Zeros(HEADER_SIZE);
        assert Zeros(HEADER_SIZE) + [] == Zeros(HEADER_SIZE);
      }
    }

    /** One step of the loop over a batch. */
    method EncodeNext(row: Row, ghost before: seq<Row>)
      requires buffer != [] && Holds(before)
      modifies this
      ensures buffer != [] && Holds(before + [row])
    {
      Grown(WriterOf(codec), layout, before, row);
      EncodeRow(row);
      rowCount := rowCount + 1;
      AppendBytes(Zeros(HEADER_SIZE), RowsFixed(WriterOf(codec), layout, before),
                  RowFixed(WriterOf(codec), layout, row, |RowsVar(WriterOf(codec), layout, before)|));
    }

    method EncodeRow(row: Row)
      modifies this`buffer, this`varBuffer, this`hasNulls
      ensures buffer == old(buffer) + RowFixed(WriterOf(codec), layout, row, |old(varBuffer)|)
      ensures varBuffer == old(varBuffer) + RowVar(WriterOf(codec), layout, row)
      ensures hasNulls == (old(hasNulls) || RowHasNull(layout, row))
    {
      var maskStart := |buffer|;
      ghost var head, before := buffer, varBuffer;
      buffer := buffer + Zeros(layout.nullMaskSize);
      for k := 0 to |layout.columns|
        invariant WroteCells(head, before, row, k)
        invariant hasNulls == (old(hasNulls) || NullWithin(row, k))
      {
        EncodeCell(row, k, maskStart, head, before);
      }
      AppendBytes(head, NullMask(row, layout.nullMaskSize, |layout.columns|),
                  CellsFixed(WriterOf(codec), layout.columns, row, |layout.columns|, |before|));
      NullWithinExists(row, |layout.columns|);
    }

    /** The first `k` cells of a row are behind `head` and their variable bytes behind `before`. */
    ghost predicate WroteCells(head: Bytestring, before: Bytestring, row: Row, k: nat)
      requires k <= |layout.columns|
      reads this`buffer, this`varBuffer
    {
      && buffer == head + NullMask(row, layout.nullMaskSize, k) + CellsFixed(WriterOf(codec), layout.columns, row, k, |before|)
      && varBuffer == before + CellsVar(WriterOf(codec), layout.columns, row, k)
    }

    method EncodeCell(row: Row, k: nat, maskStart: nat, ghost head: Bytestring, ghost before: Bytestring)
      requires k < |layout.columns| && maskStart == |head| && WroteCells(head, before, row, k)
      modifies this`buffer, this`varBuffer, this`hasNulls
      ensures WroteCells(head, before, row, k + 1)
      ensures hasNulls == (old(hasNulls) || CellOf(row, k).Null?)
    {
      AppendBytes(before, CellsVar(WriterOf(codec), layout.columns, row, k), CellVar(WriterOf(codec), row, k, layout.columns[k]));
      WriteCell(row, k, maskStart, head, NullMask(row, layout.nullMaskSize, k),
                CellsFixed(WriterOf(codec), layout.columns, row, k, |before|));
    }

    /** A NULL sets its bit and leaves zeros. */
    method WriteCell(row: Row, k: nat, maskStart: nat, ghost head: Bytestring, ghost mask: Bytestring, ghost cells: Bytestring)
      requires k < |layout.columns| && k / 8 < |mask| && maskStart == |head| && buffer == head + mask + cells
      modifies this`buffer, this`varBuffer, this`hasNulls
      ensures var c, v := layout.columns[k], CellOf(row, k);
        && buffer == head + (if v.Null? then mask[k / 8 := SetByteBit(mask[k / 8], k % 8)] else mask)
                          + (cells + CellFixed(WriterOf(codec), row, k, c, |old(varBuffer)|))
        && varBuffer == old(varBuffer) + CellVar(WriterOf(codec), row, k, c)
        && hasNulls == (old(hasNulls) || v.Null?)
    {
      var column := layout.columns[k];
      if k >= |row| || row[k] == Null {
        var at := maskStart + k / 8;
        UpdateMiddle(head, mask, cells, k / 8, SetByteBit(mask[k / 8], k % 8));
        buffer := buffer[at := SetByteBit(buffer[at], k % 8)];
        hasNulls := true;
        ghost var marked := mask[k / 8 := SetByteBit(mask[k / 8], k % 8)];
        AppendBytes(head + marked, cells, Zeros(column.fixedSize));
        buffer := buffer + Zeros(column.fixedSize);
      } else {
        AppendBytes(head + mask, cells, FixedBytes(codec, row[k], column.dataType, |varBuffer|));
        EncodeValue(row[k], column.dataType);
      }
    }

    method EncodeValue(v: Value, t: DataType)
      modifies this`buffer, this`varBuffer
      ensures buffer == old(buffer) + FixedBytes(codec, v, t, |old(varBuffer)|)
      ensures varBuffer == old(varBuffer) + VarBytes(codec, v, t)
    {
      match (v, t)
      case (Boolean(b), TBoolean) => buffer := buffer + [if b then 1 else 0];
      case (Int32(i), TInt32) => buffer := buffer + Le32(Unsigned(i));
      case (Int64(l), TInt64) => buffer := buffer + codec.float(AsDouble(l));
      case (Float64(f), TFloat64) => buffer := buffer + codec.float(f);
      case (DateTime(ts), TDateTime) => buffer := buffer + codec.float(AsDouble(ts));
      case (String(s), TString) => WriteVarlen(codec.text(s));
      case (Bytes(b), TBytes) => WriteVarlen(b);
      case (Jsonb(j), TJsonb) => WriteVarlen(j);
      case (_, _) => buffer := buffer + Zeros(t.FixedSize());
    }

    method WriteVarlen(data: Bytestring)
      modifies this`buffer, this`varBuffer
      ensures buffer == old(buffer) + (Le32(|old(varBuffer)|) + Le32(|data|))
      ensures varBuffer == old(varBuffer) + data
    {
      var offset := |varBuffer|;
      buffer := buffer + Le32(offset);
      buffer := buffer + Le32(|data|);
      varBuffer := varBuffer + data;
    }

    /** Patches the header over the blank bytes and appends the variable section. */
    method Finish(ghost rows: seq<Row>) returns (doc: Bytestring)
      requires Holds(rows) && buffer != []
      ensures doc == Document(codec, layout, rows)
    {
      var varOffset := |buffer|;
      var header := Header(rowCount, layout.rowStride, varOffset, hasNulls);
      assert buffer[HEADER_SIZE..] == RowsFixed(WriterOf(codec), layout, rows);
      doc := header + buffer[HEADER_SIZE..] + varBuffer;
    }
  }

  lemma AppendBytes(a: Bytestring, b: Bytestring, c: Bytestring)
    ensures (a + b) + c == a + (b + c)
  {}

  lemma UpdateMiddle(head: Bytestring, middle: Bytestring, tail: Bytestring, i: nat, x: byte)
    requires i < |middle|
    ensures (head + middle + tail)[|head| + i := x] == head + middle[i := x] + tail
    ensures (head + middle + tail)[|head| + i] == middle[i]
  {}

  lemma Grown(w: Writer, layout: Layout, rows: seq<Row>, row: Row)
    ensures RowsFixed(w, layout, rows + [row])
         == RowsFixed(w, layout, rows) + RowFixed(w, layout, row, |RowsVar(w, layout, rows)|)
    ensures RowsVar(w, layout, rows + [row]) == RowsVar(w, layout, rows) + RowVar(w, layout, row)
    ensures AnyNull(layout, rows + [row]) <==> AnyNull(layout, rows) || RowHasNull(layout, row)
  {
    var all := rows + [row];
    assert all[..|all| - 1] == rows && all[|all| - 1] == row;
    if RowHasNull(layout, row) {
      assert RowHasNull(layout, all[|rows|]);
    }
    if AnyNull(layout, rows) {
      var r :| 0 <= r < |rows| && RowHasNull(layout, rows[r]);
      assert RowHasNull(layout, all[r]);
    }
  }
}
