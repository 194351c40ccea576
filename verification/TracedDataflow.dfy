/** Dataflows run on late-materialized tuples (crates/incremental/src/materialize.rs).

  The runtime does not copy rows through joins, filters and projections; it passes tuples on and
  materializes them at the end. What comes out are the rows of the dataflow. */
module TracedDataflow {
  import opened Options
  import opened Values
  import opened Expressions
  import opened Layouts
  import opened Joins
  import opened Plans
  import opened PlanCompiler
  import opened TraceTuples

  function KeyOfTuple(spec: KeySpec, cells: Cells): seq<Value> {
    match spec
    case OnColumns(indices) => seq(|indices|, i requires 0 <= i < |indices| => OrNull(LookupIn(cells)(indices[i])))
    case OnConstant(values) => values
    case OnWholeRow => Present(cells)
  }

  function JoinTuples(leftKey: KeySpec, rightKey: KeySpec, keepLeft: bool, keepRight: bool,
                      leftWidth: nat, rightWidth: nat): Joiner<Cells, Cells, Cells> {
    Joiner((l: Cells, r: Cells) => KeyOfTuple(leftKey, l) == KeyOfTuple(rightKey, r),
           (l: Cells, r: Cells) => ConcatCells(l, r, leftWidth),
           (l: Cells) => l + NullCells(rightWidth),
           (r: Cells) => NullCells(leftWidth) + r,
           keepLeft,
           keepRight)
  }

  function AcceptsTuple(host: Host, test: Predicate): Cells -> bool {
    (cells: Cells) => EvalPredicateTrace(host, test, LookupIn(cells))
  }

  function ProjectsTuple(columns: seq<nat>): Cells -> Cells { (cells: Cells) => ProjectCells(cells, columns) }

  /** A mapped tuple is a new row. */
  function MapsTuple(host: Host, exprs: seq<Expr>): Cells -> Cells {
    (cells: Cells) => AllPresent(seq(|exprs|, i requires 0 <= i < |exprs| => EvalAt(host, exprs[i], LookupIn(cells))))
  }

  function AsTuple(): Row -> Cells { (row: Row) => AllPresent(row) }

  function Materialized(): Cells -> Row { (cells: Cells) => Present(cells) }

  /** The tuples of a dataflow. */
  function Tuples(rt: Runtime, d: Dataflow): seq<Cells> {
    match d
    case Source(id) => MapSeq(rt.sources(id), AsTuple())
    case Filtering(input, test) => FilterSeq(Tuples(rt, input), AcceptsTuple(rt.host, test))
    case Projecting(input, columns) => MapSeq(Tuples(rt, input), ProjectsTuple(columns))
    case Mapping(input, exprs) => MapSeq(Tuples(rt, input), MapsTuple(rt.host, exprs))
    case Joining(left, right, lk, rk, kl, kr, lw, rw) =>
      JoinSeq(JoinTuples(lk, rk, kl, kr, lw, rw), Tuples(rt, left), Tuples(rt, right))
    case Aggregating(input, groupBy, functions) =>
      MapSeq(rt.aggregate(MapSeq(Tuples(rt, input), Materialized()), groupBy, functions), AsTuple())
  }

  ghost predicate HasWidth(row: Row, width: nat) { |row| == width }

  ghost predicate HasColumns(row: Row, columns: seq<nat>) { forall i :: 0 <= i < |columns| ==> columns[i] < |row| }

  /** Projections name columns their input has, and the left side of a join has the width the join was
      built for. */
  ghost predicate Fitting(rt: Runtime, d: Dataflow) {
    match d
    case Source(_) => true
    case Filtering(input, _) => Fitting(rt, input)
    case Projecting(input, columns) => Fitting(rt, input) && forall row :: row in Rows(rt, input) ==> HasColumns(row, columns)
    case Mapping(input, _) => Fitting(rt, input)
    case Joining(left, right, _, _, _, _, lw, _) =>
      Fitting(rt, left) && Fitting(rt, right) && forall row :: row in Rows(rt, left) ==> HasWidth(row, lw)
    case Aggregating(input, _, _) => Fitting(rt, input)
  }

  // ----- One operation -------------------------------------------------------------------------

  lemma LookupOfRow(row: Row)
    ensures forall i: nat :: LookupIn(AllPresent(row))(i) == RowLookup(row)(i)
    ensures Present(AllPresent(row)) == row
  {
    PresentOfRow(row);
  }

  lemma KeyOfRow(spec: KeySpec, row: Row)
    ensures KeyOfTuple(spec, AllPresent(row)) == KeyOf(spec, row)
  {
    LookupOfRow(row);
  }

  lemma AcceptsLikeRow(host: Host, test: Predicate, row: Row)
    ensures AcceptsTuple(host, test)(AllPresent(row)) == AcceptsRow(host, test)(row)
  {
    LookupOfRow(row);
    TraceAgrees(host, test, row, LookupIn(AllPresent(row)));
  }

  lemma ProjectsLikeRow(columns: seq<nat>, row: Row)
    requires HasColumns(row, columns)
    ensures ProjectsTuple(columns)(AllPresent(row)) == AllPresent(ProjectsTo(columns)(row))
  {
    ProjectInRange(row, columns);
  }

  lemma MapsLikeRow(host: Host, exprs: seq<Expr>, row: Row)
    ensures MapsTuple(host, exprs)(AllPresent(row)) == AllPresent(MapsTo(host, exprs)(row))
  {
    forall i | 0 <= i < |exprs|
      ensures EvalAt(host, exprs[i], LookupIn(AllPresent(row))) == EvalRow(host, exprs[i], row)
    {
      EvalsLikeRow(host, exprs[i], row);
    }
  }

  lemma EvalsLikeRow(host: Host, e: Expr, row: Row)
    ensures EvalAt(host, e, LookupIn(AllPresent(row))) == EvalRow(host, e, row)
  {
    LookupOfRow(row);
    var cells, bind := AllPresent(row), Same();
    forall c | c in Columns(e) ensures ByIndex(LookupIn(cells))(bind(c)) == ByIndex(RowLookup(row))(c) {
      assert LookupIn(cells)(c.index) == RowLookup(row)(c.index);
    }
    RebindMeaning(host, e, bind, ByIndex(LookupIn(cells)), ByIndex(RowLookup(row)));
    RebindSame(e);
  }

  lemma JoinsLikeRows(lk: KeySpec, rk: KeySpec, kl: bool, kr: bool, lw: nat, rw: nat, ls: seq<Row>, rs: seq<Row>)
    requires forall row :: row in ls ==> HasWidth(row, lw)
    ensures Simulates(JoinRows(lk, rk, kl, kr, lw, rw), JoinTuples(lk, rk, kl, kr, lw, rw), ls, rs,
                      AsTuple(), AsTuple(), AsTuple())
  {
    var j, j2 := JoinRows(lk, rk, kl, kr, lw, rw), JoinTuples(lk, rk, kl, kr, lw, rw);
    forall l, k | l in ls && 0 <= k < |rs| ensures Related(j, j2, l, rs[k], AsTuple(), AsTuple(), AsTuple()) {
      KeyOfRow(lk, l);
      KeyOfRow(rk, rs[k]);
      ConcatOfRows(l, rs[k], lw);
    }
    forall l | l in ls ensures AsTuple()(j.padRight(l)) == j2.padRight(AsTuple()(l)) {
      assert AllPresent(l + Nulls(rw)) == AllPresent(l) + NullCells(rw);
    }
    forall k | 0 <= k < |rs| ensures AsTuple()(j.padLeft(rs[k])) == j2.padLeft(AsTuple()(rs[k])) {
      assert AllPresent(Nulls(lw) + rs[k]) == NullCells(lw) + AllPresent(rs[k]);
    }
  }

  lemma ConcatOfRows(l: Row, r: Row, leftWidth: nat)
    requires HasWidth(l, leftWidth)
    ensures AllPresent(l + r) == ConcatCells(AllPresent(l), AllPresent(r), leftWidth)
  {}

  // ----- A whole dataflow ----------------------------------------------------------------------

  /** The tuples of a fitting dataflow are its rows, with no value missing. */
  lemma {:induction false} TuplesAreRows(rt: Runtime, d: Dataflow)
    requires Fitting(rt, d)
    ensures Tuples(rt, d) == MapSeq(Rows(rt, d), AsTuple())
  {
    match d
    case Source(_) =>
    case Filtering(input, test) =>
      TuplesAreRows(rt, input);
      FiltersLikeRows(rt.host, test, Rows(rt, input));
    case Projecting(input, columns) =>
      TuplesAreRows(rt, input);
      forall k | 0 <= k < |Rows(rt, input)| ensures Tuples(rt, d)[k] == AllPresent(Rows(rt, d)[k]) {
        assert Rows(rt, input)[k] in Rows(rt, input);
        ProjectsLikeRow(columns, Rows(rt, input)[k]);
      }
    case Mapping(input, exprs) =>
      TuplesAreRows(rt, input);
      forall k | 0 <= k < |Rows(rt, input)| ensures Tuples(rt, d)[k] == AllPresent(Rows(rt, d)[k]) {
        MapsLikeRow(rt.host, exprs, Rows(rt, input)[k]);
      }
    case Joining(left, right, lk, rk, kl, kr, lw, rw) =>
      TuplesAreRows(rt, left);
      TuplesAreRows(rt, right);
      JoinsLikeRows(lk, rk, kl, kr, lw, rw, Rows(rt, left), Rows(rt, right));
      JoinSimulates(JoinRows(lk, rk, kl, kr, lw, rw), JoinTuples(lk, rk, kl, kr, lw, rw),
                    Rows(rt, left), Rows(rt, right), AsTuple(), AsTuple(), AsTuple());
    case Aggregating(input, _, _) =>
      TuplesAreRows(rt, input);
      MaterializedRows(Rows(rt, input));
  }

  lemma FiltersLikeRows(host: Host, test: Predicate, rows: seq<Row>)
    ensures FilterSeq(MapSeq(rows, AsTuple()), AcceptsTuple(host, test))
         == MapSeq(FilterSeq(rows, AcceptsRow(host, test)), AsTuple())
  {
    forall k | 0 <= k < |rows| ensures AcceptsTuple(host, test)(AsTuple()(rows[k])) == AcceptsRow(host, test)(rows[k]) {
      AcceptsLikeRow(host, test, rows[k]);
    }
    FilterMap(rows, AsTuple(), AcceptsRow(host, test), AcceptsTuple(host, test));
  }

  lemma MaterializedRows(rows: seq<Row>)
    ensures MapSeq(MapSeq(rows, AsTuple()), Materialized()) == rows
  {
    forall k | 0 <= k < |rows| ensures Present(AllPresent(rows[k])) == rows[k] {
      PresentOfRow(rows[k]);
    }
  }

  // ----- Compiled plans ------------------------------------------------------------------------

  lemma PreservedWidth(rt: Runtime, width: Widths, tables: seq<string>, envs: seq<Env>, c: Compiled)
    requires Preserved(rt, width, tables, envs, c)
    ensures forall row :: row in Rows(rt, c.dataflow) ==> HasWidth(row, c.layout.TotalWidth())
  {
    forall row | row in Rows(rt, c.dataflow) ensures HasWidth(row, c.layout.TotalWidth()) {
      var k :| 0 <= k < |envs| && row == Flatten(tables, width, envs[k]);
      assert envs[k] in envs;
      TypedFits(tables, width, envs[k]);
      FlattenWidth(tables, width, envs[k]);
    }
  }

  /** The positions a reordered join is projected on lie within its rows. */
  lemma {:induction false} ProjectionFits(raw: seq<string>, output: seq<string>, width: Widths)
    requires "" !in output && forall t :: t in output ==> t in raw
    ensures forall i :: i in LayoutFor(raw, width).ProjectionIndicesFor(output) ==> i < LayoutFor(raw, width).TotalWidth()
  {
    if output != [] {
      ProjectionFits(raw, output[1..], width);
      StretchFits(raw, width, output[0]);
      WidthFor(raw, width, output[0]);
    }
  }

  lemma StretchFits(raw: seq<string>, width: Widths, table: string)
    requires table in raw && table != ""
    ensures LayoutFor(raw, width).ResolveColumnIndex(table, 0) + width(table) <= LayoutFor(raw, width).TotalWidth()
  {
    var env: Env := map t | t in raw :: Some(Nulls(width(t)));
    var before, after := StretchAt(raw, width, env, table);
    FlattenWidth(raw, width, env);
  }

  lemma {:induction false} TotalConcat(a: seq<string>, b: seq<string>, width: Widths)
    ensures LayoutFor(a + b, width).TotalWidth() == LayoutFor(a, width).TotalWidth() + LayoutFor(b, width).TotalWidth()
  {
    if a == [] {
      assert a + b == b;
    } else {
      LayoutTail(a, width);
      LayoutTail(a + b, width);
      assert (a + b)[1..] == a[1..] + b;
      TotalConcat(a[1..], b, width);
    }
  }

  lemma JoinedWidth(lk: KeySpec, rk: KeySpec, kl: bool, kr: bool, lw: nat, rw: nat, ls: seq<Row>, rs: seq<Row>)
    requires forall row :: row in ls ==> HasWidth(row, lw)
    requires forall row :: row in rs ==> HasWidth(row, rw)
    ensures forall row :: row in JoinSeq(JoinRows(lk, rk, kl, kr, lw, rw), ls, rs) ==> HasWidth(row, lw + rw)
  {
    JoinElements(JoinRows(lk, rk, kl, kr, lw, rw), ls, rs, (row: Row) => |row| == lw + rw);
  }

  lemma JoinFits(rt: Runtime, width: Widths, tl: seq<string>, tr: seq<string>, ls: seq<Env>, rs: seq<Env>,
                 left: Compiled, right: Compiled, condition: Expr, joinType: JoinType, output: seq<string>)
    requires Preserved(rt, width, tl, ls, left) && Preserved(rt, width, tr, rs, right)
    requires Fitting(rt, left.dataflow) && Fitting(rt, right.dataflow) && GoodJoin(tl, tr, output)
    ensures Fitting(rt, CompileJoin(left, right, condition, joinType, output).dataflow)
  {
    var (lk, rk) := ExtractJoinKeys(condition, left.layout, right.layout);
    var lw, rw := left.layout.TotalWidth(), right.layout.TotalWidth();
    var join := Joining(left.dataflow, right.dataflow, lk, rk, joinType.KeepsLeft(), joinType.KeepsRight(), lw, rw);
    PreservedWidth(rt, width, tl, ls, left);
    PreservedWidth(rt, width, tr, rs, right);
    assert Fitting(rt, join);
    JoinedWidth(lk, rk, joinType.KeepsLeft(), joinType.KeepsRight(), lw, rw, Rows(rt, left.dataflow), Rows(rt, right.dataflow));
    JoinLayoutFor(tl, tr, tl + tr, width);
    TotalConcat(tl, tr, width);
    ReorderFits(rt, tl + tr, output, width, join);
  }

  lemma ReorderFits(rt: Runtime, raw: seq<string>, output: seq<string>, width: Widths, join: Dataflow)
    requires Fitting(rt, join) && "" !in output && forall t :: t in output ==> t in raw
    requires forall row :: row in Rows(rt, join) ==> HasWidth(row, LayoutFor(raw, width).TotalWidth())
    ensures Fitting(rt, ReorderJoinOutput(join, LayoutFor(raw, width), output).dataflow)
  {
    var layout := LayoutFor(raw, width);
    ProjectionFits(raw, output, width);
    forall row | row in Rows(rt, join) ensures HasColumns(row, layout.ProjectionIndicesFor(output)) {
      assert HasWidth(row, layout.TotalWidth());
      var indices := layout.ProjectionIndicesFor(output);
      assert forall i :: 0 <= i < |indices| ==> indices[i] in indices;
    }
  }

  /** The positions a projection is compiled to lie within the rows of its input. */
  lemma ProjectionIsFitting(rt: Runtime, width: Widths, tables: seq<string>, envs: seq<Env>, c: Compiled, columns: seq<Expr>)
    requires Yields(rt, width, tables, envs, c) && Fitting(rt, c.dataflow)
    requires forall i :: 0 <= i < |columns| ==> NamesAll(tables, width, columns[i])
    ensures Fitting(rt, CompileProjection(c, columns).dataflow)
  {
    var indices := ColumnIndices(RebindAll(columns, c.layout));
    if |indices| == |columns| {
      forall row | row in Rows(rt, c.dataflow) ensures HasColumns(row, indices) {
        var k :| 0 <= k < |envs| && row == Flatten(tables, width, envs[k]);
        assert envs[k] in envs;
        ProjectedTuple(rt.host, c.layout, width, tables, columns, envs[k]);
      }
    }
  }

  lemma {:induction false} CompiledFits(rt: Runtime, schemas: Schemas, db: Database, plan: Plan, r: Resolver)
    requires RowsFit(schemas, db) && Relational(schemas, db, plan)
    requires CompileNode(rt.host, schemas, plan, r).0.Some? && Feeds(rt, CompileNode(rt.host, schemas, plan, r).1, db)
    ensures Fitting(rt, CompileNode(rt.host, schemas, plan, r).0.value.dataflow)
    decreases plan, 1
  {
    match plan
    case Filter(input, _) => CompiledFits(rt, schemas, db, input, r);
    case NoOp(input) => CompiledFits(rt, schemas, db, input, r);
    case Project(input, columns) =>
      CompiledFits(rt, schemas, db, input, r);
      CompilePreserves(rt, schemas, db, input, r);
      ProjectionIsFitting(rt, WidthsOf(schemas, input), TablesOf(input), Meaning(rt.host, schemas, db, input),
                          CompileNode(rt.host, schemas, input, r).0.value, columns);
    case Join(_, _, _, _, _) => JoinPlanFits(rt, schemas, db, plan, r);
    case CrossProduct(_, _) => JoinPlanFits(rt, schemas, db, plan, r);
    case IndexNestedLoopJoin(_, _, _, _, _, _) => IndexJoinFits(rt, schemas, db, plan, r);
    case _ => LeafFits(rt, schemas, plan, r);
  }

  lemma LeafFits(rt: Runtime, schemas: Schemas, plan: Plan, r: Resolver)
    requires CompileLeaf(rt.host, schemas, plan, r).0.Some?
    ensures Fitting(rt, CompileLeaf(rt.host, schemas, plan, r).0.value.dataflow)
  {}

  lemma {:induction false} JoinPlanFits(rt: Runtime, schemas: Schemas, db: Database, plan: Plan, r: Resolver)
    requires RowsFit(schemas, db) && Relational(schemas, db, plan) && (plan.Join? || plan.CrossProduct?)
    requires CompileNode(rt.host, schemas, plan, r).0.Some? && Feeds(rt, CompileNode(rt.host, schemas, plan, r).1, db)
    ensures Fitting(rt, CompileNode(rt.host, schemas, plan, r).0.value.dataflow)
    decreases plan, 0
  {
    var (left, right, width) := (plan.left, plan.right, WidthsOf(schemas, plan));
    var l := CompileNode(rt.host, schemas, left, r);
    var c := CompileNode(rt.host, schemas, right, l.1);
    CompileExtends(rt.host, schemas, right, l.1);
    FeedsEarlier(rt, l.1, c.1, db);
    CompiledFits(rt, schemas, db, left, r);
    CompiledFits(rt, schemas, db, right, l.1);
    CompilePreserves(rt, schemas, db, left, r);
    CompilePreserves(rt, schemas, db, right, l.1);
    var ls, rs := Meaning(rt.host, schemas, db, left), Meaning(rt.host, schemas, db, right);
    SidesPreserved(rt, WidthsOf(schemas, left), WidthsOf(schemas, right), TablesOf(left), TablesOf(right), ls, rs,
                   l.0.value, c.0.value);
    if plan.Join? {
      JoinFits(rt, width, TablesOf(left), TablesOf(right), ls, rs, l.0.value, c.0.value,
               plan.condition, plan.joinType, plan.outputTables);
    } else {
      PreservedWidth(rt, width, TablesOf(left), ls, l.0.value);
    }
  }

  lemma {:induction false} IndexJoinFits(rt: Runtime, schemas: Schemas, db: Database, plan: Plan, r: Resolver)
    requires RowsFit(schemas, db) && Relational(schemas, db, plan) && plan.IndexNestedLoopJoin?
    requires CompileNode(rt.host, schemas, plan, r).0.Some? && Feeds(rt, CompileNode(rt.host, schemas, plan, r).1, db)
    ensures Fitting(rt, CompileNode(rt.host, schemas, plan, r).0.value.dataflow)
    decreases plan, 0
  {
    var (outer, inner, width) := (plan.outer, plan.innerTable, WidthsOf(schemas, plan));
    var o := CompileNode(rt.host, schemas, outer, r);
    var i := CompileSource(schemas, inner, o.1);
    FeedsEarlier(rt, o.1, i.1, db);
    CompiledFits(rt, schemas, db, outer, r);
    CompilePreserves(rt, schemas, db, outer, r);
    SourcePreserved(rt, schemas, db, inner, o.1);
    var outers, inners := Meaning(rt.host, schemas, db, outer), Scan(db, inner);
    SidesPreserved(rt, WidthsOf(schemas, outer), WidthIn(schemas), TablesOf(outer), [inner], outers, inners,
                   o.0.value, i.0.value);
    if plan.outerIsLeft {
      JoinFits(rt, width, TablesOf(outer), [inner], outers, inners, o.0.value, i.0.value,
               plan.condition, plan.joinType, plan.outputTables);
    } else {
      JoinFits(rt, width, [inner], TablesOf(outer), inners, outers, i.0.value, o.0.value,
               plan.condition, plan.joinType, plan.outputTables);
    }
  }

  function FlatTuple(tables: seq<string>, width: Widths): Env -> Cells {
    (env: Env) => AllPresent(Flatten(tables, width, env))
  }

  /** Run on late-materialized tuples, a compiled plan yields the plan's environments laid out flat. */
  lemma TracedPlanPreserved(rt: Runtime, schemas: Schemas, db: Database, plan: Plan, r: Resolver)
    requires RowsFit(schemas, db) && Relational(schemas, db, plan)
    requires CompileNode(rt.host, schemas, plan, r).0.Some? && Feeds(rt, CompileNode(rt.host, schemas, plan, r).1, db)
    ensures Tuples(rt, CompileNode(rt.host, schemas, plan, r).0.value.dataflow)
         == MapSeq(Meaning(rt.host, schemas, db, plan), FlatTuple(TablesOf(plan), WidthsOf(schemas, plan)))
  {
    var d := CompileNode(rt.host, schemas, plan, r).0.value.dataflow;
    CompilePreserves(rt, schemas, db, plan, r);
    CompiledFits(rt, schemas, db, plan, r);
    TuplesAreRows(rt, d);
  }
}
