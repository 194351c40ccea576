/** Column layouts of compiled plans (CompileLayout in crates/database/src/dataflow_compiler.rs) and
  what they mean: a flat row holds one stretch per table, in layout order. */
module Layouts {
  import opened Options
  import opened Values
  import opened Expressions

  type Row = seq<Value>

  function First(counts: seq<nat>): nat { if counts == [] then 0 else counts[0] }

  function Rest(counts: seq<nat>): seq<nat> { if counts == [] then [] else counts[1..] }

  /** Where the stretch of the first table called `table` starts. */
  function OffsetOf(tables: seq<string>, counts: seq<nat>, table: string): Option<nat> {
    if tables == [] then None
    else if tables[0] == table then Some(0)
    else
      match OffsetOf(tables[1..], Rest(counts), table)
      case None => None
      case Some(offset) => Some(First(counts) + offset)
  }

  function WidthOf(tables: seq<string>, counts: seq<nat>, table: string): Option<nat> {
    if tables == [] then None
    else if tables[0] == table then if counts == [] then None else Some(counts[0])
    else WidthOf(tables[1..], Rest(counts), table)
  }

  function Total(counts: seq<nat>): nat { if counts == [] then 0 else counts[0] + Total(counts[1..]) }

  function Range(start: nat, width: nat): (indices: seq<nat>)
    ensures |indices| == width && forall i :: 0 <= i < width ==> indices[i] == start + i
  {
    seq(width, i requires 0 <= i < width => start + i)
  }

  datatype Layout = Layout(tables: seq<string>, counts: seq<nat>) {
    predicate ContainsTable(table: string) { table in tables }

    function ResolveColumnIndex(table: string, index: nat): nat {
      if table == "" then index
      else
        match OffsetOf(tables, counts, table)
        case Some(offset) => offset + index
        case None => index
    }

    function TableWidth(table: string): Option<nat> { WidthOf(tables, counts, table) }

    function Projected(columns: nat): Layout { Layout(tables, [columns]) }

    function TotalWidth(): nat { Total(counts) }

    function ProjectionIndicesFor(output: seq<string>): seq<nat> {
      if output == [] then []
      else
        var width := match TableWidth(output[0]) case Some(w) => w case None => 0;
        Range(ResolveColumnIndex(output[0], 0), width) + ProjectionIndicesFor(output[1..])
    }

    function Bind(): ColumnRef -> ColumnRef {
      (c: ColumnRef) => c.(index := ResolveColumnIndex(c.table, c.index))
    }
  }

  function TableLayout(table: string, count: nat): Layout { Layout([table], [count]) }

  function JoinedCounts(left: Layout, right: Layout, output: seq<string>): seq<nat> {
    if output == [] then []
    else
      var rest := JoinedCounts(left, right, output[1..]);
      match left.TableWidth(output[0])
      case Some(w) => [w] + rest
      case None =>
        match right.TableWidth(output[0])
        case Some(w) => [w] + rest
        case None => rest
  }

  function JoinLayout(left: Layout, right: Layout, output: seq<string>): Layout {
    Layout(output, JoinedCounts(left, right, output))
  }

  function Combined(left: Layout, right: Layout): Layout { JoinLayout(left, right, left.tables + right.tables) }

  // ----- Layouts of whole tables ---------------------------------------------------------------

  type Widths = string -> nat

  function LayoutFor(tables: seq<string>, width: Widths): Layout {
    Layout(tables, seq(|tables|, i requires 0 <= i < |tables| => width(tables[i])))
  }

  lemma LayoutTail(tables: seq<string>, width: Widths)
    requires tables != []
    ensures First(LayoutFor(tables, width).counts) == width(tables[0])
    ensures Rest(LayoutFor(tables, width).counts) == LayoutFor(tables[1..], width).counts
  {}

  lemma {:induction false} WidthFor(tables: seq<string>, width: Widths, table: string)
    ensures LayoutFor(tables, width).TableWidth(table) == if table in tables then Some(width(table)) else None
  {
    if tables != [] {
      LayoutTail(tables, width);
      WidthFor(tables[1..], width, table);
    }
  }

  /** The layout of a join of whole-table layouts is the whole-table layout of its output. */
  lemma {:induction false} JoinLayoutFor(lt: seq<string>, rt: seq<string>, output: seq<string>, width: Widths)
    requires forall t :: t in output ==> t in lt || t in rt
    ensures JoinLayout(LayoutFor(lt, width), LayoutFor(rt, width), output) == LayoutFor(output, width)
  {
    if output != [] {
      LayoutTail(output, width);
      WidthFor(lt, width, output[0]);
      WidthFor(rt, width, output[0]);
      assert output[0] in lt || output[0] in rt;
      JoinLayoutFor(lt, rt, output[1..], width);
      assert LayoutFor(output, width).counts == [width(output[0])] + LayoutFor(output[1..], width).counts;
    }
  }

  // ----- Environments --------------------------------------------------------------------------

  /** One tuple per table; None is the missing side of an outer join. */
  type Env = map<string, Option<Row>>

  ghost predicate Typed(env: Env, tables: seq<string>, width: Widths) {
    && (forall t :: t in env <==> t in tables)
    && (forall t :: t in env && env[t].Some? ==> |env[t].value| == width(t))
  }

  function Nulls(n: nat): (row: Row)
    ensures |row| == n
  {
    seq(n, i => Null)
  }

  function Part(env: Env, table: string, width: Widths): Row {
    if table in env && env[table].Some? then env[table].value else Nulls(width(table))
  }

  /** The flat row of an environment. */
  function Flatten(tables: seq<string>, width: Widths, env: Env): Row {
    if tables == [] then [] else Part(env, tables[0], width) + Flatten(tables[1..], width, env)
  }

  ghost predicate PartsFit(tables: seq<string>, width: Widths, env: Env) {
    forall t :: t in tables ==> |Part(env, t, width)| == width(t)
  }

  lemma {:induction false} FlattenWidth(tables: seq<string>, width: Widths, env: Env)
    requires PartsFit(tables, width, env)
    ensures |Flatten(tables, width, env)| == LayoutFor(tables, width).TotalWidth()
  {
    if tables != [] {
      LayoutTail(tables, width);
      FlattenWidth(tables[1..], width, env);
    }
  }

  lemma {:induction false} FlattenConcat(a: seq<string>, b: seq<string>, width: Widths, env: Env)
    ensures Flatten(a + b, width, env) == Flatten(a, width, env) + Flatten(b, width, env)
  {
    if a == [] {
      assert a + b == b;
    } else {
      assert (a + b)[1..] == a[1..] + b;
      FlattenConcat(a[1..], b, width, env);
    }
  }

  lemma {:induction false} FlattenSame(tables: seq<string>, width: Widths, env: Env, other: Env)
    requires forall t :: t in tables ==> Part(env, t, width) == Part(other, t, width)
    ensures Flatten(tables, width, env) == Flatten(tables, width, other)
  {
    if tables != [] {
      FlattenSame(tables[1..], width, env, other);
    }
  }

  /** A table's stretch starts at its offset. */
  lemma {:induction false} StretchAt(tables: seq<string>, width: Widths, env: Env, table: string)
    returns (before: Row, after: Row)
    requires table in tables && PartsFit(tables, width, env)
    ensures Flatten(tables, width, env) == before + Part(env, table, width) + after
    ensures StartOf(tables, width, table) == Some(|before|)
  {
    hide *;
    OffsetStep(tables, width, table);
    FlattenStep(tables, width, env);
    var head := Part(env, tables[0], width);
    if tables[0] == table {
      before, after := [], Flatten(tables[1..], width, env);
      assert [] + head == head;
    } else {
      assert table in tables[1..];
      before, after := StretchAt(tables[1..], width, env, table);
      Regroup(head, before, Part(env, table, width), after);
      before := head + before;
    }
  }

  lemma FlattenStep(tables: seq<string>, width: Widths, env: Env)
    requires tables != [] && PartsFit(tables, width, env)
    ensures PartsFit(tables[1..], width, env) && |Part(env, tables[0], width)| == width(tables[0])
    ensures Flatten(tables, width, env) == Part(env, tables[0], width) + Flatten(tables[1..], width, env)
  {
    hide Part;
    assert tables[0] in tables && forall t :: t in tables[1..] ==> t in tables;
  }

  function StartOf(tables: seq<string>, width: Widths, table: string): Option<nat> {
    OffsetOf(tables, LayoutFor(tables, width).counts, table)
  }

  lemma OffsetStep(tables: seq<string>, width: Widths, table: string)
    requires tables != []
    ensures tables[0] == table ==> StartOf(tables, width, table) == Some(0)
    ensures tables[0] != table && StartOf(tables[1..], width, table).Some? ==>
              StartOf(tables, width, table) == Some(width(tables[0]) + StartOf(tables[1..], width, table).value)
  {
    LayoutTail(tables, width);
  }

  lemma Regroup(a: Row, b: Row, c: Row, d: Row)
    ensures a + (b + c + d) == (a + b) + c + d
  {}

  /** The value of a column in an environment; the missing side of an outer join reads as NULL. */
  function ColumnIn(env: Env): ColumnRef -> Value {
    (c: ColumnRef) =>
      if c.table in env && env[c.table].Some? && c.index < |env[c.table].value| then env[c.table].value[c.index] else Null
  }

  predicate Names(tables: seq<string>, width: Widths, c: ColumnRef) {
    c.table != "" && c.table in tables && c.index < width(c.table)
  }

  lemma BoundColumn(tables: seq<string>, width: Widths, env: Env, c: ColumnRef)
    requires Typed(env, tables, width) && Names(tables, width, c)
    ensures var row := Flatten(tables, width, env);
      var at := LayoutFor(tables, width).ResolveColumnIndex(c.table, c.index);
      at < |row| && row[at] == ColumnIn(env)(c)
  {
    TypedFits(tables, width, env);
    var before, after := StretchAt(tables, width, env, c.table);
    ReadsMiddle(before, Part(env, c.table, width), after, c.index);
  }

  lemma ReadsMiddle(before: Row, part: Row, after: Row, i: nat)
    requires i < |part|
    ensures (before + part + after)[|before| + i] == part[i]
  {}

  lemma TypedFits(tables: seq<string>, width: Widths, env: Env)
    requires Typed(env, tables, width)
    ensures PartsFit(tables, width, env)
  {}

  ghost predicate NamesAll(tables: seq<string>, width: Widths, e: Expr) {
    forall c :: c in Columns(e) ==> Names(tables, width, c)
  }

  /** The layout of whole tables, or, behind a projection, one that gives all columns to its first
      table. The other tables of such a layout have no columns left. */
  predicate Covers(layout: Layout, tables: seq<string>, width: Widths) {
    || layout == LayoutFor(tables, width)
    || (|tables| == 1 && layout.tables != [] && layout.tables[0] == tables[0] && layout.counts == [width(tables[0])])
  }

  lemma CoversColumn(layout: Layout, tables: seq<string>, width: Widths, c: ColumnRef)
    requires Covers(layout, tables, width) && Names(tables, width, c)
    ensures layout.ResolveColumnIndex(c.table, c.index) == LayoutFor(tables, width).ResolveColumnIndex(c.table, c.index)
  {
    if layout != LayoutFor(tables, width) {
      assert c.table == tables[0];
    }
  }

  lemma ReadsBound(layout: Layout, tables: seq<string>, width: Widths, env: Env, c: ColumnRef)
    requires Covers(layout, tables, width) && Typed(env, tables, width) && Names(tables, width, c)
    ensures ByIndex(RowLookup(Flatten(tables, width, env)))(layout.Bind()(c)) == ColumnIn(env)(c)
  {
    CoversColumn(layout, tables, width, c);
    BoundColumn(tables, width, env, c);
    var row, at := Flatten(tables, width, env), layout.ResolveColumnIndex(c.table, c.index);
    assert layout.Bind()(c).index == at && RowLookup(row)(at) == Some(row[at]);
  }

  /** An expression bound to the layout means on the flat row what it meant on the environment. */
  lemma BoundMeaning(host: Host, layout: Layout, tables: seq<string>, width: Widths, env: Env, e: Expr)
    requires Covers(layout, tables, width) && Typed(env, tables, width) && NamesAll(tables, width, e)
    ensures EvalRow(host, Rebind(e, layout.Bind()), Flatten(tables, width, env)) == EvalWith(host, e, ColumnIn(env))
  {
    var bind, row := layout.Bind(), Flatten(tables, width, env);
    forall c | c in Columns(e) ensures ByIndex(RowLookup(row))(bind(c)) == ColumnIn(env)(c) {
      ReadsBound(layout, tables, width, env, c);
    }
    RebindMeaning(host, e, bind, ByIndex(RowLookup(row)), ColumnIn(env));
  }

  // ----- Reordering ----------------------------------------------------------------------------

  /** The materialised form of a projected tuple; positions beyond the row leave nothing. */
  function ProjectRow(row: Row, columns: seq<nat>): Row {
    if columns == [] then []
    else (if columns[0] < |row| then [row[columns[0]]] else []) + ProjectRow(row, columns[1..])
  }

  lemma {:induction false} ProjectConcat(row: Row, a: seq<nat>, b: seq<nat>)
    ensures ProjectRow(row, a + b) == ProjectRow(row, a) + ProjectRow(row, b)
  {
    if a == [] {
      assert a + b == b;
    } else {
      assert (a + b)[1..] == a[1..] + b;
      ProjectConcat(row, a[1..], b);
      assert (a + b)[0] == a[0];
      Associate(if a[0] < |row| then [row[a[0]]] else [], ProjectRow(row, a[1..]), ProjectRow(row, b));
    }
  }

  lemma Associate(a: Row, b: Row, c: Row)
    ensures (a + b) + c == a + (b + c)
  {}

  lemma {:induction false} ProjectRange(row: Row, start: nat, width: nat)
    requires start + width <= |row|
    ensures ProjectRow(row, Range(start, width)) == row[start..start + width]
    decreases width
  {
    if width > 0 {
      assert Range(start, width)[1..] == Range(start + 1, width - 1);
      ProjectRange(row, start + 1, width - 1);
    }
  }

  /** Projecting onto the output tables turns the raw flat row into the one of the output order. */
  lemma {:induction false} Reordered(raw: seq<string>, output: seq<string>, width: Widths, env: Env)
    requires PartsFit(raw, width, env) && "" !in output
    requires forall t :: t in output ==> t in raw
    ensures ProjectRow(Flatten(raw, width, env), LayoutFor(raw, width).ProjectionIndicesFor(output))
         == Flatten(output, width, env)
  {
    if output != [] {
      var layout, row := LayoutFor(raw, width), Flatten(raw, width, env);
      assert output[0] in output;
      TableStretch(raw, width, env, output[0]);
      var range := Range(layout.ResolveColumnIndex(output[0], 0), width(output[0]));
      ProjectConcat(row, range, layout.ProjectionIndicesFor(output[1..]));
      Reordered(raw, output[1..], width, env);
    }
  }

  /** Projecting onto the positions of one table gives its tuple. */
  lemma TableStretch(raw: seq<string>, width: Widths, env: Env, table: string)
    requires PartsFit(raw, width, env) && table in raw && table != ""
    ensures LayoutFor(raw, width).TableWidth(table) == Some(width(table))
    ensures ProjectRow(Flatten(raw, width, env), Range(LayoutFor(raw, width).ResolveColumnIndex(table, 0), width(table)))
         == Part(env, table, width)
  {
    WidthFor(raw, width, table);
    var before, after := StretchAt(raw, width, env, table);
    var part := Part(env, table, width);
    ProjectRange(before + part + after, |before|, |part|);
    assert (before + part + after)[|before|..|before| + |part|] == part;
  }
}
