/** The readers of the binary row format: the null-aware result set (js/packages/core/src/result-set.ts)
  and the decoder of the example (example/src/binary-decoder.ts), which ignores the null mask. */
module BinaryReader {
  import opened Encodings
  import opened Values
  import opened BinaryFormat

  /** JavaScript values; JSON text stands for its parse. */
  datatype JsValue =
    | JsNull
    | JsBool(b: bool)
    | JsNumber(number: Float)
    | JsDate(time: Float)
    | JsString(s: string)
    | JsBytes(bytes: Bytestring)
    | JsJson(text: string)

  /** The JavaScript form of a database value: 64-bit integers and dates become floats. */
  function AsJs(codec: Codec, v: Value): JsValue {
    match v
    case Null => JsNull
    case Boolean(b) => JsBool(b)
    case Int32(i) => JsNumber(Finite(i as real))
    case Int64(l) => JsNumber(AsDouble(l))
    case Float64(f) => JsNumber(f)
    case String(s) => JsString(s)
    case DateTime(t) => JsDate(AsDouble(t))
    case Bytes(b) => JsBytes(b)
    case Jsonb(j) => if j == [] then JsNull else JsJson(codec.untext(j))
  }

  /** A value of a column's type; the floats of the source are doubles. */
  ghost predicate HasType(v: Value, t: DataType) {
    match v
    case Null => true
    case Boolean(_) => t == TBoolean
    case Int32(_) => t == TInt32
    case Int64(_) => t == TInt64
    case Float64(f) => t == TFloat64 && IsDouble(f)
    case String(_) => t == TString
    case DateTime(_) => t == TDateTime
    case Bytes(_) => t == TBytes
    case Jsonb(_) => t == TJsonb
  }

  // ----- Reading a document --------------------------------------------------------------------

  /** The bytes between two positions, cut off at the end of the document. */
  function Subarray(doc: Bytestring, from: nat, to: nat): Bytestring {
    var hi := if to < |doc| then to else |doc|;
    if from < hi then doc[from..hi] else []
  }

  /** What the readers need of a document to stay within it. */
  predicate Readable(doc: Bytestring, layout: Layout) {
    && |doc| >= HEADER_SIZE
    && U32At(doc, 4) == layout.rowStride
    && HEADER_SIZE + U32At(doc, 0) * layout.rowStride <= |doc|
  }

  function RowStart(layout: Layout, r: nat): nat { HEADER_SIZE + r * layout.rowStride }

  lemma {:induction false} PrefixFits(columns: seq<ColumnLayout>, c: nat)
    requires c < |columns|
    ensures SizeOf(columns[..c]) + columns[c].fixedSize <= SizeOf(columns)
  {
    assert columns == columns[..c] + ([columns[c]] + columns[c + 1..]);
    SizeConcat(columns[..c], [columns[c]] + columns[c + 1..]);
    assert ([columns[c]] + columns[c + 1..])[1..] == columns[c + 1..];
  }

  lemma RowInside(doc: Bytestring, layout: Layout, r: nat)
    requires Readable(doc, layout) && r < U32At(doc, 0)
    ensures RowStart(layout, r) + layout.rowStride <= |doc|
  {
    WholeRows(r, U32At(doc, 0), layout.rowStride);
  }

  lemma WholeRows(r: nat, n: nat, stride: nat)
    requires r < n
    ensures r * stride + stride <= n * stride
  {
    var more := n - r - 1;
    assert n * stride == r * stride + stride + more * stride;
  }

  lemma CellInside(doc: Bytestring, layout: Layout, r: nat, c: nat)
    requires Readable(doc, layout) && r < U32At(doc, 0) && c < |layout.columns|
    ensures RowStart(layout, r) + c / 8 < |doc|
    ensures CellStart(layout, r, c) + layout.columns[c].dataType.FixedSize() <= |doc|
  {
    RowInside(doc, layout, r);
    PrefixFits(layout.columns, c);
    assert layout.columns[c].offset == SizeOf(layout.columns[..c]);
    assert layout.columns[c].fixedSize == layout.columns[c].dataType.FixedSize();
  }

  function CellStart(layout: Layout, r: nat, c: nat): nat
    requires c < |layout.columns|
  {
    RowStart(layout, r) + layout.nullMaskSize + layout.columns[c].offset
  }

  /** The value stored at a position, by the type of its column. */
  function ValueAt(codec: Codec, doc: Bytestring, t: DataType, at: nat): JsValue
    requires at + t.FixedSize() <= |doc| && |doc| >= HEADER_SIZE
  {
    match t
    case TBoolean => JsBool(doc[at] != 0)
    case TInt32 => JsNumber(Finite(I32At(doc, at) as real))
    case TInt64 => JsNumber(codec.unfloat(doc[at..at + 8]))
    case TFloat64 => JsNumber(codec.unfloat(doc[at..at + 8]))
    case TDateTime => JsDate(codec.unfloat(doc[at..at + 8]))
    case TString => var bytes := VarAt(doc, at); if bytes == [] then JsString("") else JsString(codec.untext(bytes))
    case TBytes => JsBytes(VarAt(doc, at))
    case TJsonb => var bytes := VarAt(doc, at); if bytes == [] then JsNull else JsJson(codec.untext(bytes))
  }

  /** The variable bytes an (offset, length) pair points to. */
  function VarAt(doc: Bytestring, at: nat): Bytestring
    requires at + 8 <= |doc| && |doc| >= HEADER_SIZE
  {
    var start := U32At(doc, 8) + U32At(doc, at);
    Subarray(doc, start, start + U32At(doc, at + 4))
  }

  // ----- Where the encoder put a cell ----------------------------------------------------------

  /** Values take the bytes their types reserve. */
  ghost predicate Fits(w: Writer) {
    forall v, t, start: nat :: |w.fixed(v, t, start)| == t.FixedSize()
  }

  lemma WriterFits(codec: Codec)
    requires Faithful(codec)
    ensures Fits(WriterOf(codec))
  {
    forall v, t, start: nat ensures |WriterOf(codec).fixed(v, t, start)| == t.FixedSize() {
      FixedBytesSize(codec, v, t, start);
    }
  }

  ghost predicate Sized(columns: seq<ColumnLayout>) {
    forall k {:trigger columns[k].fixedSize} :: 0 <= k < |columns| ==> columns[k].fixedSize == columns[k].dataType.FixedSize()
  }

  lemma CellSize(w: Writer, row: Row, k: nat, c: ColumnLayout, start: nat)
    requires Fits(w) && c.fixedSize == c.dataType.FixedSize()
    ensures |CellFixed(w, row, k, c, start)| == c.fixedSize
  {
    assert |w.fixed(CellOf(row, k), c.dataType, start)| == c.dataType.FixedSize();
  }

  lemma SizeNext(columns: seq<ColumnLayout>, c: nat)
    requires c < |columns|
    ensures SizeOf(columns[..c + 1]) == SizeOf(columns[..c]) + columns[c].fixedSize
  {
    assert columns[..c + 1] == columns[..c] + [columns[c]] && [columns[c]][1..] == [];
    SizeConcat(columns[..c], [columns[c]]);
  }

  lemma OneMoreCell(w: Writer, columns: seq<ColumnLayout>, row: Row, n: nat, start: nat)
    requires n < |columns|
    ensures CellsFixed(w, columns, row, n + 1, start)
         == CellsFixed(w, columns, row, n, start)
              + CellFixed(w, row, n, columns[n], start + |CellsVar(w, columns, row, n)|)
  {}

  lemma OneMoreSize(w: Writer, columns: seq<ColumnLayout>, row: Row, n: nat, start: nat)
    requires Fits(w) && Sized(columns) && n < |columns|
    ensures |CellsFixed(w, columns, row, n + 1, start)|
         == |CellsFixed(w, columns, row, n, start)| + columns[n].fixedSize
  {
    OneMoreCell(w, columns, row, n, start);
    CellSize(w, row, n, columns[n], start + |CellsVar(w, columns, row, n)|);
  }

  lemma {:induction false} CellsSize(w: Writer, columns: seq<ColumnLayout>, row: Row, n: nat, start: nat)
    requires Fits(w) && n <= |columns| && Sized(columns)
    ensures |CellsFixed(w, columns, row, n, start)| == SizeOf(columns[..n])
    decreases n
  {
    if n > 0 {
      CellsSize(w, columns, row, n - 1, start);
      OneMoreSize(w, columns, row, n - 1, start);
      SizeNext(columns, n - 1);
    }
  }

  /** The first cells are written first. */
  lemma {:induction false} CellsPrefix(w: Writer, columns: seq<ColumnLayout>, row: Row, m: nat, n: nat, start: nat)
    requires m <= n <= |columns|
    ensures CellsFixed(w, columns, row, m, start) <= CellsFixed(w, columns, row, n, start)
    decreases n
  {
    if m < n {
      CellsPrefix(w, columns, row, m, n - 1, start);
      PrefixOfMore(CellsFixed(w, columns, row, m, start), CellsFixed(w, columns, row, n - 1, start),
                   CellFixed(w, row, n - 1, columns[n - 1], start + |CellsVar(w, columns, row, n - 1)|));
    }
  }

  lemma PrefixOfMore(a: Bytestring, b: Bytestring, c: Bytestring)
    requires a <= b
    ensures a <= b + c
  {}

  lemma CellInCells(w: Writer, columns: seq<ColumnLayout>, row: Row, n: nat, c: nat, start: nat) returns (after: Bytestring)
    requires c < n <= |columns|
    ensures CellsFixed(w, columns, row, n, start)
         == CellsFixed(w, columns, row, c, start)
              + CellFixed(w, row, c, columns[c], start + |CellsVar(w, columns, row, c)|) + after
  {
    CellsPrefix(w, columns, row, c + 1, n, start);
    OneMoreCell(w, columns, row, c, start);
    after := CellsFixed(w, columns, row, n, start)[|CellsFixed(w, columns, row, c + 1, start)|..];
  }

  lemma RowSize(w: Writer, layout: Layout, row: Row, start: nat)
    requires Fits(w)
    ensures |RowFixed(w, layout, row, start)| == layout.rowStride
  {
    CellsSize(w, layout.columns, row, |layout.columns|, start);
    assert layout.columns[..|layout.columns|] == layout.columns;
  }

  lemma {:induction false} RowsSize(w: Writer, layout: Layout, rows: seq<Row>)
    requires Fits(w)
    ensures |RowsFixed(w, layout, rows)| == |rows| * layout.rowStride
  {
    if rows != [] {
      var n := |rows| - 1;
      RowsSize(w, layout, rows[..n]);
      RowSize(w, layout, rows[n], |RowsVar(w, layout, rows[..n])|);
      OneMoreRow(n, layout.rowStride);
    }
  }

  lemma OneMoreRow(n: nat, stride: nat)
    ensures (n + 1) * stride == n * stride + stride
  {}

  lemma Five(a: Bytestring, b: Bytestring, c: Bytestring, d: Bytestring, e: Bytestring)
    ensures a + (b + c + d) + e == (a + b) + c + (d + e)
  {}

  lemma Extend(a: Bytestring, b: Bytestring, c: Bytestring, d: Bytestring)
    ensures (a + b + c) + d == a + b + (c + d)
  {}

  lemma {:induction false} CellVarSplit(w: Writer, columns: seq<ColumnLayout>, row: Row, n: nat, c: nat)
    returns (after: Bytestring)
    requires c < n <= |columns|
    ensures CellsVar(w, columns, row, n) == CellsVar(w, columns, row, c) + CellVar(w, row, c, columns[c]) + after
  {
    if c == n - 1 {
      after := [];
    } else {
      after := CellVarSplit(w, columns, row, n - 1, c);
      Extend(CellsVar(w, columns, row, c), CellVar(w, row, c, columns[c]), after, CellVar(w, row, n - 1, columns[n - 1]));
      after := after + CellVar(w, row, n - 1, columns[n - 1]);
    }
  }

  /** A record lies at a multiple of the stride. */
  lemma LastRowFixed(w: Writer, layout: Layout, rows: seq<Row>)
    requires rows != []
    ensures var n := |rows| - 1;
      RowsFixed(w, layout, rows)
      == RowsFixed(w, layout, rows[..n]) + RowFixed(w, layout, rows[n], |RowsVar(w, layout, rows[..n])|)
  {}

  lemma NothingAfter(bytes: Bytestring)
    ensures bytes + [] == bytes
  {}

  lemma {:induction false} RowSplit(w: Writer, layout: Layout, rows: seq<Row>, r: nat)
    returns (before: Bytestring, after: Bytestring)
    requires Fits(w) && r < |rows|
    ensures RowsFixed(w, layout, rows)
         == before + RowFixed(w, layout, rows[r], |RowsVar(w, layout, rows[..r])|) + after
    ensures |before| == r * layout.rowStride
  {
    hide *;
    var n := |rows| - 1;
    LastRowFixed(w, layout, rows);
    if r == n {
      before, after := RowsFixed(w, layout, rows[..n]), [];
      RowsSize(w, layout, rows[..n]);
      NothingAfter(RowsFixed(w, layout, rows));
    } else {
      before, after := RowSplit(w, layout, rows[..n], r);
      assert rows[..n][..r] == rows[..r] && rows[..n][r] == rows[r];
      var last := RowFixed(w, layout, rows[n], |RowsVar(w, layout, rows[..n])|);
      Extend(before, RowFixed(w, layout, rows[r], |RowsVar(w, layout, rows[..r])|), after, last);
      after := after + last;
    }
  }

  lemma {:induction false} RowVarSplit(w: Writer, layout: Layout, rows: seq<Row>, r: nat) returns (after: Bytestring)
    requires r < |rows|
    ensures RowsVar(w, layout, rows) == RowsVar(w, layout, rows[..r]) + RowVar(w, layout, rows[r]) + after
  {
    var n := |rows| - 1;
    if r == n {
      after := [];
    } else {
      after := RowVarSplit(w, layout, rows[..n], r);
      assert rows[..n][..r] == rows[..r] && rows[..n][r] == rows[r];
      Extend(RowsVar(w, layout, rows[..r]), RowVar(w, layout, rows[r]), after, RowVar(w, layout, rows[n]));
      after := after + RowVar(w, layout, rows[n]);
    }
  }

  /** Where the variable bytes of a cell start in the variable section. */
  function VarStart(w: Writer, layout: Layout, rows: seq<Row>, r: nat, c: nat): nat
    requires r < |rows| && c < |layout.columns|
  {
    |RowsVar(w, layout, rows[..r])| + |CellsVar(w, layout.columns, rows[r], c)|
  }

  lemma VarSplit(w: Writer, layout: Layout, rows: seq<Row>, r: nat, c: nat) returns (before: Bytestring, after: Bytestring)
    requires r < |rows| && c < |layout.columns|
    ensures RowsVar(w, layout, rows) == before + CellVar(w, rows[r], c, layout.columns[c]) + after
    ensures |before| == VarStart(w, layout, rows, r, c)
  {
    var a, b := RowsVar(w, layout, rows[..r]), CellsVar(w, layout.columns, rows[r], c);
    var rowsAfter := RowVarSplit(w, layout, rows, r);
    var cellAfter := CellVarSplit(w, layout.columns, rows[r], |layout.columns|, c);
    Five(a, b, CellVar(w, rows[r], c, layout.columns[c]), cellAfter, rowsAfter);
    before, after := a + b, cellAfter + rowsAfter;
  }

  function HeaderOf(w: Writer, layout: Layout, rows: seq<Row>): (header: Bytestring)
    ensures |header| == HEADER_SIZE
  {
    Header(|rows|, layout.rowStride, HEADER_SIZE + |RowsFixed(w, layout, rows)|, AnyNull(layout, rows))
  }

  /** The bytes of a document around one record. */
  lemma RecordSplit(w: Writer, layout: Layout, rows: seq<Row>, r: nat) returns (before: Bytestring, after: Bytestring)
    requires Fits(w) && r < |rows|
    ensures Assembled(w, layout, rows)
         == before + RowFixed(w, layout, rows[r], |RowsVar(w, layout, rows[..r])|) + after
    ensures |before| == RowStart(layout, r)
  {
    var rowBefore, rowAfter := RowSplit(w, layout, rows, r);
    Five(HeaderOf(w, layout, rows), rowBefore, RowFixed(w, layout, rows[r], |RowsVar(w, layout, rows[..r])|), rowAfter,
         RowsVar(w, layout, rows));
    before, after := HeaderOf(w, layout, rows) + rowBefore, rowAfter + RowsVar(w, layout, rows);
  }

  /** The bytes of a record around one cell. */
  lemma CellInRecord(w: Writer, layout: Layout, row: Row, c: nat, start: nat) returns (before: Bytestring, after: Bytestring)
    requires Fits(w) && c < |layout.columns|
    ensures RowFixed(w, layout, row, start)
         == before + CellFixed(w, row, c, layout.columns[c], start + |CellsVar(w, layout.columns, row, c)|) + after
    ensures |before| == layout.nullMaskSize + layout.columns[c].offset
  {
    var n := |layout.columns|;
    after := CellInCells(w, layout.columns, row, n, c, start);
    OffsetIsSize(w, layout, row, c, start);
    before := NullMask(row, layout.nullMaskSize, n) + CellsFixed(w, layout.columns, row, c, start);
    InFront(NullMask(row, layout.nullMaskSize, n), CellsFixed(w, layout.columns, row, c, start),
            CellFixed(w, row, c, layout.columns[c], start + |CellsVar(w, layout.columns, row, c)|), after);
  }

  lemma InFront(a: Bytestring, b: Bytestring, c: Bytestring, d: Bytestring)
    ensures a + (b + c + d) == (a + b) + c + d
  {}

  /** The bytes of a document around one cell. */
  lemma DocumentSplit(w: Writer, layout: Layout, rows: seq<Row>, r: nat, c: nat)
    returns (before: Bytestring, after: Bytestring)
    requires Fits(w) && r < |rows| && c < |layout.columns|
    ensures Assembled(w, layout, rows) == before + CellBytes(w, layout, rows, r, c) + after
    ensures |before| == CellStart(layout, r, c)
  {
    var rowBefore, rowAfter := RecordSplit(w, layout, rows, r);
    var cellBefore, cellAfter := CellInRecord(w, layout, rows[r], c, |RowsVar(w, layout, rows[..r])|);
    Five(rowBefore, cellBefore, CellBytes(w, layout, rows, r, c), cellAfter, rowAfter);
    before, after := rowBefore + cellBefore, cellAfter + rowAfter;
  }

  lemma OffsetIsSize(w: Writer, layout: Layout, row: Row, c: nat, start: nat)
    requires Fits(w) && c < |layout.columns|
    ensures |CellsFixed(w, layout.columns, row, c, start)| == layout.columns[c].offset
  {
    CellsSize(w, layout.columns, row, c, start);
    assert layout.columns[c].offset == SizeOf(layout.columns[..c]);
  }

  function CellBytes(w: Writer, layout: Layout, rows: seq<Row>, r: nat, c: nat): Bytestring
    requires r < |rows| && c < |layout.columns|
  {
    CellFixed(w, rows[r], c, layout.columns[c], VarStart(w, layout, rows, r, c))
  }

  // ----- Reading back --------------------------------------------------------------------------

  lemma U32Reads(before: Bytestring, n: nat, after: Bytestring)
    ensures U32At(before + Le32(n) + after, |before|) == n % U32
  {
    Le32Value(n);
    var doc := before + Le32(n) + after;
    assert doc[|before|] == Le32(n)[0] && doc[|before| + 1] == Le32(n)[1];
    assert doc[|before| + 2] == Le32(n)[2] && doc[|before| + 3] == Le32(n)[3];
  }

  /** The counts the format stores in 32 bits fit. */
  ghost predicate FitsU32(w: Writer, layout: Layout, rows: seq<Row>) {
    && |rows| < U32
    && layout.rowStride < U32
    && HEADER_SIZE + |RowsFixed(w, layout, rows)| < U32
    && |RowsVar(w, layout, rows)| < U32
  }

  lemma HeaderReads(w: Writer, layout: Layout, rows: seq<Row>)
    requires FitsU32(w, layout, rows)
    ensures var doc := Assembled(w, layout, rows);
      && |doc| >= HEADER_SIZE
      && U32At(doc, 0) == |rows|
      && U32At(doc, 4) == layout.rowStride
      && U32At(doc, 8) == HEADER_SIZE + |RowsFixed(w, layout, rows)|
      && U32At(doc, 12) == (if AnyNull(layout, rows) then HAS_NULLS else 0)
  {
    var offset, flags := HEADER_SIZE + |RowsFixed(w, layout, rows)|, if AnyNull(layout, rows) then HAS_NULLS else 0;
    HeaderFields(|rows|, layout.rowStride, offset, flags, RowsFixed(w, layout, rows) + RowsVar(w, layout, rows));
    AppendBytes(Header(|rows|, layout.rowStride, offset, AnyNull(layout, rows)), RowsFixed(w, layout, rows), RowsVar(w, layout, rows));
  }

  lemma HeaderFields(a: nat, b: nat, c: nat, d: nat, rest: Bytestring)
    requires a < U32 && b < U32 && c < U32 && d < U32
    ensures var doc := (Le32(a) + Le32(b) + Le32(c) + Le32(d)) + rest;
      U32At(doc, 0) == a && U32At(doc, 4) == b && U32At(doc, 8) == c && U32At(doc, 12) == d
  {
    hide *;
    var p, q, s, t := Le32(a), Le32(b), Le32(c), Le32(d);
    Le32Size(a);
    Le32Size(b);
    Le32Size(c);
    Le32Size(d);
    Regrouped(p, q, s, t, rest);
    U32Reads([], a, q + s + t + rest);
    U32Reads(p, b, s + t + rest);
    U32Reads(p + q, c, t + rest);
    U32Reads(p + q + s, d, rest);
    U32Small(a);
    U32Small(b);
    U32Small(c);
    U32Small(d);
  }

  lemma Le32Size(n: nat)
    ensures |Le32(n)| == 4
  {}

  lemma U32Small(n: nat)
    ensures n < U32 ==> n % U32 == n
  {}

  lemma Regrouped(p: Bytestring, q: Bytestring, s: Bytestring, t: Bytestring, rest: Bytestring)
    ensures (p + q + s + t) + rest == [] + p + (q + s + t + rest) == p + q + (s + t + rest)
    ensures (p + q + s + t) + rest == (p + q) + s + (t + rest) == (p + q + s) + t + rest
  {}

  lemma DocumentIsReadable(w: Writer, layout: Layout, rows: seq<Row>)
    requires Fits(w) && FitsU32(w, layout, rows)
    ensures Readable(Assembled(w, layout, rows), layout) && U32At(Assembled(w, layout, rows), 0) == |rows|
  {
    HeaderReads(w, layout, rows);
    RowsSize(w, layout, rows);
  }

  /** The variable bytes of a cell lie where its (offset, length) pair says. */
  lemma VarBytesFound(w: Writer, layout: Layout, rows: seq<Row>, r: nat, c: nat, at: nat)
    requires FitsU32(w, layout, rows) && r < |rows| && c < |layout.columns|
    requires at + 8 <= |Assembled(w, layout, rows)|
    requires U32At(Assembled(w, layout, rows), at) == VarStart(w, layout, rows, r, c)
    requires U32At(Assembled(w, layout, rows), at + 4) == |CellVar(w, rows[r], c, layout.columns[c])|
    ensures |Assembled(w, layout, rows)| >= HEADER_SIZE
    ensures VarAt(Assembled(w, layout, rows), at) == CellVar(w, rows[r], c, layout.columns[c])
  {
    HeaderReads(w, layout, rows);
    var before, after := VarSplit(w, layout, rows, r, c);
    var front := HeaderOf(w, layout, rows) + RowsFixed(w, layout, rows);
    InMiddle(front, before, CellVar(w, rows[r], c, layout.columns[c]), after);
  }

  lemma InMiddle(front: Bytestring, a: Bytestring, b: Bytestring, c: Bytestring)
    ensures Subarray(front + (a + b + c), |front| + |a|, |front| + |a| + |b|) == b
  {
    var doc := front + (a + b + c);
    if b != [] {
      assert doc[|front| + |a|..|front| + |a| + |b|] == b;
    }
  }

  lemma Slice8(before: Bytestring, bytes: Bytestring, after: Bytestring)
    requires |bytes| == 8
    ensures (before + bytes + after)[|before|..|before| + 8] == bytes
  {}

  /** An (offset, length) pair is read back. */
  lemma PairReads(before: Bytestring, start: nat, length: nat, after: Bytestring)
    requires start < U32 && length < U32
    ensures var doc := before + (Le32(start) + Le32(length)) + after;
      U32At(doc, |before|) == start && U32At(doc, |before| + 4) == length
  {
    var doc := before + (Le32(start) + Le32(length)) + after;
    U32Reads(before, start, Le32(length) + after);
    U32Reads(before + Le32(start), length, after);
    assert doc == before + Le32(start) + (Le32(length) + after);
    assert doc == (before + Le32(start)) + Le32(length) + after;
  }

  lemma VarFits(w: Writer, layout: Layout, rows: seq<Row>, r: nat, c: nat)
    requires FitsU32(w, layout, rows) && r < |rows| && c < |layout.columns|
    ensures VarStart(w, layout, rows, r, c) < U32 && |CellVar(w, rows[r], c, layout.columns[c])| < U32
  {
    var before, after := VarSplit(w, layout, rows, r, c);
  }

  /** Values of a fixed size. */
  lemma FixedReads(codec: Codec, doc: Bytestring, before: Bytestring, v: Value, t: DataType, start: nat, after: Bytestring)
    requires Faithful(codec) && HasType(v, t) && !v.Null? && !t.IsVariableLength()
    requires doc == before + FixedBytes(codec, v, t, start) + after && |doc| >= HEADER_SIZE
    ensures |before| + t.FixedSize() <= |doc| && ValueAt(codec, doc, t, |before|) == AsJs(codec, v)
  {
    FixedBytesSize(codec, v, t, start);
    match v
    case Boolean(b) => assert doc[|before|] == FixedBytes(codec, v, t, start)[0];
    case Int32(i) => U32Reads(before, Unsigned(i), after);
    case Int64(l) =>
      CastIsDouble(l);
      Slice8(before, codec.float(AsDouble(l)), after);
    case Float64(f) => Slice8(before, codec.float(f), after);
    case DateTime(d) =>
      CastIsDouble(d);
      Slice8(before, codec.float(AsDouble(d)), after);
  }

  /** Variable-length values. */
  lemma VarReads(codec: Codec, layout: Layout, rows: seq<Row>, r: nat, c: nat, before: Bytestring, after: Bytestring)
    requires Faithful(codec) && FitsU32(WriterOf(codec), layout, rows) && r < |rows| && c < |layout.columns|
    requires var v, t := CellOf(rows[r], c), layout.columns[c].dataType; HasType(v, t) && !v.Null? && t.IsVariableLength()
    requires Document(codec, layout, rows)
          == before + FixedBytes(codec, CellOf(rows[r], c), layout.columns[c].dataType,
                                 VarStart(WriterOf(codec), layout, rows, r, c)) + after
    ensures |before| + 8 <= |Document(codec, layout, rows)| && |Document(codec, layout, rows)| >= HEADER_SIZE
    ensures ValueAt(codec, Document(codec, layout, rows), layout.columns[c].dataType, |before|) == AsJs(codec, CellOf(rows[r], c))
  {
    var w, v, t := WriterOf(codec), CellOf(rows[r], c), layout.columns[c].dataType;
    var start, bytes := VarStart(w, layout, rows, r, c), VarBytes(codec, v, t);
    assert CellVar(w, rows[r], c, layout.columns[c]) == bytes;
    VarFits(w, layout, rows, r, c);
    PairReads(before, start, |bytes|, after);
    VarBytesFound(w, layout, rows, r, c, |before|);
  }

  /** Every stored value is found at its row, column and offset. */
  lemma CellReads(codec: Codec, layout: Layout, rows: seq<Row>, r: nat, c: nat)
    requires Faithful(codec) && FitsU32(WriterOf(codec), layout, rows) && r < |rows| && c < |layout.columns|
    requires !CellOf(rows[r], c).Null? && HasType(CellOf(rows[r], c), layout.columns[c].dataType)
    ensures var doc, t := Document(codec, layout, rows), layout.columns[c].dataType;
      && CellStart(layout, r, c) + t.FixedSize() <= |doc| && |doc| >= HEADER_SIZE
      && ValueAt(codec, doc, t, CellStart(layout, r, c)) == AsJs(codec, CellOf(rows[r], c))
  {
    var w := WriterOf(codec);
    WriterFits(codec);
    HeaderReads(w, layout, rows);
    var before, after := DocumentSplit(w, layout, rows, r, c);
    var v, t, start := CellOf(rows[r], c), layout.columns[c].dataType, VarStart(w, layout, rows, r, c);
    assert CellBytes(w, layout, rows, r, c) == FixedBytes(codec, v, t, start);
    if t.IsVariableLength() {
      VarReads(codec, layout, rows, r, c, before, after);
    } else {
      FixedReads(codec, Document(codec, layout, rows), before, v, t, start, after);
    }
  }

  // ----- The null mask -------------------------------------------------------------------------

  lemma {:induction false} NoBits(b: nat)
    ensures !HasBit(0, b)
  {
    if b > 0 {
      NoBits(b - 1);
    }
  }

  /** Bit `k` of the mask says whether cell `k` is NULL. */
  lemma {:induction false} MaskBits(row: Row, size: nat, n: nat, k: nat)
    requires n <= 8 * size && k < 8 * size
    ensures HasBit(NullMask(row, size, n)[k / 8], k % 8) <==> k < n && CellOf(row, k).Null?
  {
    if n == 0 {
      NoBits(k % 8);
    } else {
      MaskBits(row, size, n - 1, k);
      SetBitSets(NullMask(row, size, n - 1)[(n - 1) / 8], (n - 1) % 8, k % 8);
    }
  }

  predicate IsNull(doc: Bytestring, layout: Layout, r: nat, c: nat)
    requires |doc| >= HEADER_SIZE && RowStart(layout, r) + c / 8 < |doc|
  {
    U32At(doc, 12) != 0 && HasBit(doc[RowStart(layout, r) + c / 8], c % 8)
  }

  lemma NullReads(w: Writer, layout: Layout, rows: seq<Row>, r: nat, c: nat)
    requires Fits(w) && FitsU32(w, layout, rows) && r < |rows| && c < |layout.columns|
    ensures |Assembled(w, layout, rows)| >= HEADER_SIZE && RowStart(layout, r) + c / 8 < |Assembled(w, layout, rows)|
    ensures IsNull(Assembled(w, layout, rows), layout, r, c) <==> CellOf(rows[r], c).Null?
  {
    HeaderReads(w, layout, rows);
    var before, after := RecordSplit(w, layout, rows, r);
    var n, mask := |layout.columns|, NullMask(rows[r], layout.nullMaskSize, |layout.columns|);
    MaskBits(rows[r], layout.nullMaskSize, n, c);
    MaskByte(before, mask, CellsFixed(w, layout.columns, rows[r], n, |RowsVar(w, layout, rows[..r])|), after, c / 8);
    if CellOf(rows[r], c).Null? {
      assert RowHasNull(layout, rows[r]) && AnyNull(layout, rows);
    }
  }

  lemma MaskByte(a: Bytestring, mask: Bytestring, cells: Bytestring, e: Bytestring, i: nat)
    requires i < |mask|
    ensures (a + (mask + cells) + e)[|a| + i] == mask[i]
  {}

  // ----- The two readers -----------------------------------------------------------------------

  /** What the null-aware reader returns for a cell. */
  function ReadValue(codec: Codec, doc: Bytestring, layout: Layout, r: nat, c: nat): JsValue
    requires Readable(doc, layout) && r < U32At(doc, 0) && c < |layout.columns|
  {
    CellInside(doc, layout, r, c);
    if IsNull(doc, layout, r, c) then JsNull
    else ValueAt(codec, doc, layout.columns[c].dataType, CellStart(layout, r, c))
  }

  /** What the decoder of the example returns for a cell. */
  function DecodeValue(codec: Codec, doc: Bytestring, layout: Layout, r: nat, c: nat): JsValue
    requires Readable(doc, layout) && r < U32At(doc, 0) && c < |layout.columns|
  {
    CellInside(doc, layout, r, c);
    ValueAt(codec, doc, layout.columns[c].dataType, CellStart(layout, r, c))
  }

  ghost predicate WellTyped(layout: Layout, row: Row) {
    forall c :: 0 <= c < |layout.columns| ==> HasType(CellOf(row, c), layout.columns[c].dataType)
  }

  /** The null-aware reader returns every encoded value. */
  lemma ReadsBack(codec: Codec, layout: Layout, rows: seq<Row>, r: nat, c: nat)
    requires Faithful(codec) && FitsU32(WriterOf(codec), layout, rows)
    requires r < |rows| && WellTyped(layout, rows[r]) && c < |layout.columns|
    ensures Readable(Document(codec, layout, rows), layout) && U32At(Document(codec, layout, rows), 0) == |rows|
    ensures ReadValue(codec, Document(codec, layout, rows), layout, r, c) == AsJs(codec, CellOf(rows[r], c))
  {
    WriterFits(codec);
    DocumentIsReadable(WriterOf(codec), layout, rows);
    NullReads(WriterOf(codec), layout, rows, r, c);
    if !CellOf(rows[r], c).Null? {
      CellReads(codec, layout, rows, r, c);
    }
  }

  lemma ZeroReads(codec: Codec, doc: Bytestring, before: Bytestring, t: DataType, after: Bytestring)
    requires doc == before + Zeros(t.FixedSize()) + after && |doc| >= HEADER_SIZE
    ensures ValueAt(codec, doc, t, |before|) == JsNull <==> t == TJsonb
  {
    if t.IsVariableLength() {
      assert doc[|before| + 4] == 0 && doc[|before| + 5] == 0 && doc[|before| + 6] == 0 && doc[|before| + 7] == 0;
      assert VarAt(doc, |before|) == [];
    }
  }

  /** The decoder of the example, which ignores the null mask, returns the encoded value exactly when
      it is not NULL or its column is JSON. */
  lemma DecodesExactly(codec: Codec, layout: Layout, rows: seq<Row>, r: nat, c: nat)
    requires Faithful(codec) && FitsU32(WriterOf(codec), layout, rows)
    requires r < |rows| && WellTyped(layout, rows[r]) && c < |layout.columns|
    ensures Readable(Document(codec, layout, rows), layout) && U32At(Document(codec, layout, rows), 0) == |rows|
    ensures DecodeValue(codec, Document(codec, layout, rows), layout, r, c) == AsJs(codec, CellOf(rows[r], c)) <==>
              !CellOf(rows[r], c).Null? || layout.columns[c].dataType == TJsonb
  {
    WriterFits(codec);
    DocumentIsReadable(WriterOf(codec), layout, rows);
    if CellOf(rows[r], c).Null? {
      var before, after := DocumentSplit(WriterOf(codec), layout, rows, r, c);
      assert layout.columns[c].fixedSize == layout.columns[c].dataType.FixedSize();
      ZeroReads(codec, Document(codec, layout, rows), before, layout.columns[c].dataType, after);
    } else {
      CellReads(codec, layout, rows, r, c);
    }
  }

  /** The failing input: one row with a NULL in an integer column is decoded as zero. */
  lemma DecoderReadsNullAsZero() returns (codec: Codec, layout: Layout, rows: seq<Row>)
    ensures Faithful(codec) && layout == FromColumns([ColumnDef("price", TInt32, true)]) && rows == [[Null]]
    ensures FitsU32(WriterOf(codec), layout, rows) && WellTyped(layout, rows[0]) && |layout.columns| == 1
    ensures Readable(Document(codec, layout, rows), layout) && U32At(Document(codec, layout, rows), 0) == 1
    ensures ReadValue(codec, Document(codec, layout, rows), layout, 0, 0) == JsNull
    ensures DecodeValue(codec, Document(codec, layout, rows), layout, 0, 0) == JsNumber(Finite(0.0))
  {
    codec := SourceCodec();
    var columns := [ColumnDef("price", TInt32, true)];
    LayoutsArePacked(columns);
    layout, rows := FromColumns(columns), [[Null]];
    OneNullFits(codec, layout);
    ReadsBack(codec, layout, rows, 0, 0);
    var before, after := DocumentSplit(WriterOf(codec), layout, rows, 0, 0);
    ZeroIsZero(before, after);
  }

  lemma OneNullFits(codec: Codec, layout: Layout)
    requires Faithful(codec) && layout == FromColumns([ColumnDef("price", TInt32, true)])
    ensures |layout.columns| == 1 && layout.columns[0].dataType == TInt32 && layout.columns[0].fixedSize == 4
    ensures Fits(WriterOf(codec)) && FitsU32(WriterOf(codec), layout, [[Null]])
  {
    var w := WriterOf(codec);
    WriterFits(codec);
    RowsSize(w, layout, [[Null]]);
    assert layout.columns[1..] == [];
    assert layout.rowStride == 5;
    assert RowsVar(w, layout, [[Null]]) == [];
  }

  lemma ZeroIsZero(before: Bytestring, after: Bytestring)
    ensures I32At(before + Zeros(4) + after, |before|) == 0
  {}

  /** A 64-bit integer or date survives exactly when it is a float; all up to 53 bits are. */
  lemma IntegersSurviveExactly(codec: Codec, l: int64)
    ensures AsJs(codec, Int64(l)) == JsNumber(Finite(l as real)) <==> ToDouble(l) == l
    ensures AsJs(codec, DateTime(l)) == JsDate(Finite(l as real)) <==> ToDouble(l) == l
    ensures -EXACT <= l <= EXACT ==> ToDouble(l) == l
  {
    if -EXACT <= l <= EXACT {
      ToDoubleExact(l);
    }
  }

  // ----- Whole results -------------------------------------------------------------------------

  type Record = map<string, JsValue>

  /** The properties set column by column; a later column of the same name wins. */
  function RecordOf(names: seq<string>, values: seq<JsValue>, n: nat): Record
    requires n <= |names| == |values|
  {
    if n == 0 then map[] else RecordOf(names, values, n - 1)[names[n - 1] := values[n - 1]]
  }

  /** With different names every property holds its column's value, and there are no others. */
  lemma {:induction false} RecordHolds(names: seq<string>, values: seq<JsValue>, n: nat)
    requires n <= |names| == |values| && forall i, j :: 0 <= i < j < |names| ==> names[i] != names[j]
    ensures forall c :: 0 <= c < n ==> names[c] in RecordOf(names, values, n) && RecordOf(names, values, n)[names[c]] == values[c]
    ensures RecordOf(names, values, n).Keys == set c | 0 <= c < n :: names[c]
  {
    if n > 0 {
      RecordHolds(names, values, n - 1);
    }
  }

  function NamesOf(layout: Layout): (names: seq<string>)
    ensures |names| == |layout.columns|
  {
    seq(|layout.columns|, c requires 0 <= c < |layout.columns| => layout.columns[c].name)
  }

  function JsRow(codec: Codec, layout: Layout, row: Row): (values: seq<JsValue>)
    ensures |values| == |layout.columns|
  {
    seq(|layout.columns|, c requires 0 <= c < |layout.columns| => AsJs(codec, CellOf(row, c)))
  }

  function DecodedRow(codec: Codec, doc: Bytestring, layout: Layout, r: nat): (values: seq<JsValue>)
    requires Readable(doc, layout) && r < U32At(doc, 0)
    ensures |values| == |layout.columns|
  {
    seq(|layout.columns|, c requires 0 <= c < |layout.columns| => DecodeValue(codec, doc, layout, r, c))
  }

  /** The decoder of the example. */
  method Decode(codec: Codec, layout: Layout, doc: Bytestring) returns (stocks: array<Record>)
    requires Readable(doc, layout)
    ensures fresh(stocks) && stocks.Length == U32At(doc, 0)
    ensures forall r :: 0 <= r < stocks.Length ==> stocks[r] == RecordOf(NamesOf(layout), DecodedRow(codec, doc, layout, r), |layout.columns|)
  {
    var rowCount := U32At(doc, 0);
    stocks := new Record[rowCount](_ => map[]);
    for rowIdx := 0 to rowCount
      invariant forall r :: 0 <= r < rowIdx ==> stocks[r] == RecordOf(NamesOf(layout), DecodedRow(codec, doc, layout, r), |layout.columns|)
    {
      var row := DecodeRow(codec, layout, doc, rowIdx);
      stocks[rowIdx] := row;
    }
  }

  /** The inner loop of the decoder. */
  method DecodeRow(codec: Codec, layout: Layout, doc: Bytestring, rowIdx: nat) returns (row: Record)
    requires Readable(doc, layout) && rowIdx < U32At(doc, 0)
    ensures row == RecordOf(NamesOf(layout), DecodedRow(codec, doc, layout, rowIdx), |layout.columns|)
  {
    row := map[];
    ghost var names, values := NamesOf(layout), DecodedRow(codec, doc, layout, rowIdx);
    for colIdx := 0 to |layout.columns|
      invariant row == RecordOf(names, values, colIdx)
    {
      var offset := HEADER_SIZE + rowIdx * layout.rowStride + layout.nullMaskSize + layout.columns[colIdx].offset;
      CellInside(doc, layout, rowIdx, colIdx);
      row := row[layout.columns[colIdx].name := ValueAt(codec, doc, layout.columns[colIdx].dataType, offset)];
    }
  }

  /** Decoding a document without NULL gives the encoded rows. */
  lemma DecodedRowsAreTheRows(codec: Codec, layout: Layout, rows: seq<Row>, r: nat)
    requires Faithful(codec) && FitsU32(WriterOf(codec), layout, rows)
    requires r < |rows| && WellTyped(layout, rows[r]) && !RowHasNull(layout, rows[r])
    ensures Readable(Document(codec, layout, rows), layout) && U32At(Document(codec, layout, rows), 0) == |rows|
    ensures DecodedRow(codec, Document(codec, layout, rows), layout, r) == JsRow(codec, layout, rows[r])
  {
    WriterFits(codec);
    DocumentIsReadable(WriterOf(codec), layout, rows);
    forall c | 0 <= c < |layout.columns|
      ensures DecodeValue(codec, Document(codec, layout, rows), layout, r, c) == AsJs(codec, CellOf(rows[r], c))
    {
      DecodesExactly(codec, layout, rows, r, c);
    }
  }
}
