/** The compiler from physical plans to dataflows (crates/database/src/dataflow_compiler.rs) and the
  proof that it preserves meaning: the rows of the dataflow are the environments of the plan, laid
  out flat. */
module PlanCompiler {
  import opened Options
  import opened Values
  import opened Expressions
  import opened Layouts
  import opened Joins
  import opened Plans

  type TableId = id: nat | id < 0x1_0000_0000

  const LAST_ID: TableId := 0xFFFF_FFFF

  // ----- Dataflows -----------------------------------------------------------------------------

  datatype KeySpec = OnColumns(indices: seq<nat>) | OnConstant(values: seq<Value>) | OnWholeRow

  datatype Dataflow =
    | Source(id: TableId)
    | Filtering(input: Dataflow, test: Predicate)
    | Projecting(input: Dataflow, columns: seq<nat>)
    | Mapping(input: Dataflow, exprs: seq<Expr>)
    | Joining(left: Dataflow, right: Dataflow, leftKey: KeySpec, rightKey: KeySpec,
              keepLeft: bool, keepRight: bool, leftWidth: nat, rightWidth: nat)
    | Aggregating(input: Dataflow, groupBy: seq<nat>, functions: seq<(nat, AggregateFunc)>)

  /** What a dataflow runs on; aggregation is left to the runtime. */
  datatype Runtime = Runtime(
    host: Host,
    sources: TableId -> seq<Row>,
    aggregate: (seq<Row>, seq<nat>, seq<(nat, AggregateFunc)>) -> seq<Row>)

  function KeyOf(spec: KeySpec, row: Row): seq<Value> {
    match spec
    case OnColumns(indices) => seq(|indices|, i requires 0 <= i < |indices| => OrNull(RowLookup(row)(indices[i])))
    case OnConstant(values) => values
    case OnWholeRow => row
  }

  function JoinRows(leftKey: KeySpec, rightKey: KeySpec, keepLeft: bool, keepRight: bool,
                    leftWidth: nat, rightWidth: nat): Joiner<Row, Row, Row> {
    Joiner((l: Row, r: Row) => KeyOf(leftKey, l) == KeyOf(rightKey, r),
           (l: Row, r: Row) => l + r,
           (l: Row) => l + Nulls(rightWidth),
           (r: Row) => Nulls(leftWidth) + r,
           keepLeft,
           keepRight)
  }

  function AcceptsRow(host: Host, test: Predicate): Row -> bool { (row: Row) => EvalPredicateRow(host, test, row) }

  function ProjectsTo(columns: seq<nat>): Row -> Row { (row: Row) => ProjectRow(row, columns) }

  function MapsTo(host: Host, exprs: seq<Expr>): Row -> Row {
    (row: Row) => seq(|exprs|, i requires 0 <= i < |exprs| => EvalRow(host, exprs[i], row))
  }

  /** The rows of a dataflow. */
  function Rows(rt: Runtime, d: Dataflow): seq<Row> {
    match d
    case Source(id) => rt.sources(id)
    case Filtering(input, test) => FilterSeq(Rows(rt, input), AcceptsRow(rt.host, test))
    case Projecting(input, columns) => MapSeq(Rows(rt, input), ProjectsTo(columns))
    case Mapping(input, exprs) => MapSeq(Rows(rt, input), MapsTo(rt.host, exprs))
    case Joining(left, right, lk, rk, kl, kr, lw, rw) => JoinSeq(JoinRows(lk, rk, kl, kr, lw, rw), Rows(rt, left), Rows(rt, right))
    case Aggregating(input, groupBy, functions) => rt.aggregate(Rows(rt, input), groupBy, functions)
  }

  // ----- Table ids -----------------------------------------------------------------------------

  datatype Resolver = Resolver(existing: map<string, TableId>, used: map<string, TableId>, nextId: TableId) {
    /** The id of a table: the one in use, the known one, or the next free one. */
    function Resolve(table: string): (TableId, Resolver) {
      if table in used then (used[table], this)
      else if table in existing then (existing[table], this.(used := used[table := existing[table]]))
      else (nextId, this.(used := used[table := nextId], nextId := if nextId == LAST_ID then LAST_ID else nextId + 1))
    }
  }

  ghost predicate Extends(before: Resolver, after: Resolver) {
    && after.existing == before.existing
    && forall t :: t in before.used ==> t in after.used && after.used[t] == before.used[t]
  }

  // ----- Index predicates ----------------------------------------------------------------------

  function EqualTo(c: ColumnRef, v: Value): Expr { Binary(Column(c), Eq, Literal(v)) }

  function AndAll(combined: Expr, predicates: seq<Expr>): Expr
    decreases |predicates|
  {
    if predicates == [] then combined else AndAll(Binary(combined, And, predicates[0]), predicates[1..])
  }

  /** The last predicate is taken first. */
  function CombineWithAnd(predicates: seq<Expr>): Option<Expr> {
    if predicates == [] then None
    else Some(AndAll(predicates[|predicates| - 1], predicates[..|predicates| - 1]))
  }

  function LowerTest(c: ColumnRef, v: Value, exclusive: bool): Expr {
    Binary(Column(c), if exclusive then Gt else Ge, Literal(v))
  }

  function UpperTest(c: ColumnRef, v: Value, exclusive: bool): Expr {
    Binary(Column(c), if exclusive then Lt else Le, Literal(v))
  }

  function ScalarRangePredicate(c: ColumnRef, range: KeyRange<Value>): Option<Expr> {
    match range
    case All => None
    case Only(v) => Some(EqualTo(c, v))
    case LowerBound(v, exclusive) => Some(LowerTest(c, v, exclusive))
    case UpperBound(v, exclusive) => Some(UpperTest(c, v, exclusive))
    case Bound(lower, upper, lowerExclusive, upperExclusive) =>
      CombineWithAnd([LowerTest(c, lower, lowerExclusive), UpperTest(c, upper, upperExclusive)])
  }

  function EqualTos(columns: seq<ColumnRef>, values: seq<Value>): seq<Expr>
    requires |columns| == |values|
  {
    seq(|columns|, i requires 0 <= i < |columns| => EqualTo(columns[i], values[i]))
  }

  function CompositeOnlyPredicate(columns: seq<ColumnRef>, values: seq<Value>): Option<Expr> {
    if |columns| != |values| || columns == [] then None else CombineWithAnd(EqualTos(columns, values))
  }

  /** None if the bounds cannot be turned into a predicate; Some(None) if they need none. */
  function IndexScanPredicate(columns: seq<ColumnRef>, bounds: IndexBounds): Option<Option<Expr>> {
    match bounds
    case Unbounded => Some(None)
    case Scalar(range) => if |columns| != 1 then None else Some(ScalarRangePredicate(columns[0], range))
    case Composite(range) =>
      match range
      case All => Some(None)
      case Only(values) =>
        var p := CompositeOnlyPredicate(columns, values);
        if p.Some? then Some(p) else None
      case Bound(lower, upper, lowerExclusive, upperExclusive) =>
        if lower == upper && !lowerExclusive && !upperExclusive then
          var p := CompositeOnlyPredicate(columns, lower);
          if p.Some? then Some(p) else None
        else None
      case _ => None
  }

  // ----- Join keys -----------------------------------------------------------------------------

  /** The key positions of both sides, equality by equality; other conjuncts leave nothing. */
  function EquiKeys(e: Expr, left: Layout, right: Layout): (keys: (seq<nat>, seq<nat>))
    ensures |keys.0| == |keys.1|
  {
    match e
    case Binary(a, op, b) =>
      if op == And then
        var (l0, r0) := EquiKeys(a, left, right);
        var (l1, r1) := EquiKeys(b, left, right);
        (l0 + l1, r0 + r1)
      else if op == Eq && a.Column? && b.Column? then
        var (c, d) := (a.column, b.column);
        if left.ContainsTable(c.table) && right.ContainsTable(d.table) then
          ([left.ResolveColumnIndex(c.table, c.index)], [right.ResolveColumnIndex(d.table, d.index)])
        else if left.ContainsTable(d.table) && right.ContainsTable(c.table) then
          ([left.ResolveColumnIndex(d.table, d.index)], [right.ResolveColumnIndex(c.table, c.index)])
        else ([], [])
      else ([], [])
    case _ => ([], [])
  }

  /** The walk that pushes the key positions onto two growing lists. */
  method CollectEquiJoinKeys(e: Expr, left: Layout, right: Layout, leftIndices: seq<nat>, rightIndices: seq<nat>)
    returns (leftKeys: seq<nat>, rightKeys: seq<nat>)
    ensures leftKeys == leftIndices + EquiKeys(e, left, right).0
    ensures rightKeys == rightIndices + EquiKeys(e, left, right).1
    decreases e
  {
    leftKeys, rightKeys := leftIndices, rightIndices;
    match e
    case Binary(a, op, b) =>
      if op == Eq && a.Column? && b.Column? {
        var c, d := a.column, b.column;
        if left.ContainsTable(c.table) && right.ContainsTable(d.table) {
          leftKeys := leftKeys + [left.ResolveColumnIndex(c.table, c.index)];
          rightKeys := rightKeys + [right.ResolveColumnIndex(d.table, d.index)];
        } else if left.ContainsTable(d.table) && right.ContainsTable(c.table) {
          leftKeys := leftKeys + [left.ResolveColumnIndex(d.table, d.index)];
          rightKeys := rightKeys + [right.ResolveColumnIndex(c.table, c.index)];
        }
      } else if op == And {
        leftKeys, rightKeys := CollectEquiJoinKeys(a, left, right, leftKeys, rightKeys);
        leftKeys, rightKeys := CollectEquiJoinKeys(b, left, right, leftKeys, rightKeys);
      }
    case _ =>
  }

  function ExtractJoinKeys(condition: Expr, left: Layout, right: Layout): (KeySpec, KeySpec) {
    var (l, r) := EquiKeys(condition, left, right);
    if l == [] || r == [] then (OnWholeRow, OnWholeRow) else (OnColumns(l), OnColumns(r))
  }

  // ----- Compilation ---------------------------------------------------------------------------

  datatype Compiled = Compiled(dataflow: Dataflow, layout: Layout)

  type Result = (Option<Compiled>, Resolver)

  function CompileSource(schemas: Schemas, table: string, r: Resolver): Result {
    var (id, r1) := r.Resolve(table);
    (if table in schemas then Some(Compiled(Source(id), TableLayout(table, |schemas[table].columns|))) else None, r1)
  }

  function Filtered(host: Host, c: Compiled, test: Expr): Compiled {
    Compiled(Filtering(c.dataflow, CompilePredicate(host, Rebind(test, c.layout.Bind()))), c.layout)
  }

  function CompileFilteredSource(host: Host, schemas: Schemas, table: string, test: Option<Expr>, r: Resolver): Result {
    match CompileSource(schemas, table, r)
    case (None, r1) => (None, r1)
    case (Some(c), r1) => (Some(if test.Some? then Filtered(host, c, test.value) else c), r1)
  }

  function ReorderJoinOutput(join: Dataflow, raw: Layout, output: seq<string>): Compiled {
    var desired := JoinLayout(raw, Layout([], []), output);
    if raw == desired then Compiled(join, raw)
    else Compiled(Projecting(join, raw.ProjectionIndicesFor(output)), desired)
  }

  function CompileJoin(left: Compiled, right: Compiled, condition: Expr, joinType: JoinType, output: seq<string>): Compiled {
    var (leftKey, rightKey) := ExtractJoinKeys(condition, left.layout, right.layout);
    ReorderJoinOutput(
      Joining(left.dataflow, right.dataflow, leftKey, rightKey, joinType.KeepsLeft(), joinType.KeepsRight(),
              left.layout.TotalWidth(), right.layout.TotalWidth()),
      Combined(left.layout, right.layout), output)
  }

  function ColumnIndices(exprs: seq<Expr>): seq<nat> {
    if exprs == [] then []
    else (if exprs[0].Column? then [exprs[0].column.index] else []) + ColumnIndices(exprs[1..])
  }

  function RebindAll(exprs: seq<Expr>, layout: Layout): seq<Expr> {
    seq(|exprs|, i requires 0 <= i < |exprs| => Rebind(exprs[i], layout.Bind()))
  }

  function CompileProjection(c: Compiled, columns: seq<Expr>): Compiled {
    var bound := RebindAll(columns, c.layout);
    var indices := ColumnIndices(bound);
    Compiled(if |indices| == |columns| then Projecting(c.dataflow, indices) else Mapping(c.dataflow, bound),
             c.layout.Projected(|columns|))
  }

  /** Aggregates the runtime does not know are counted. */
  function KnownAggregate(func: AggregateFunc): AggregateFunc {
    if func == Sum || func == Avg || func == Min || func == Max then func else Count
  }

  function AggregateInputs(aggregates: seq<(AggregateFunc, Expr)>, layout: Layout): seq<(nat, AggregateFunc)> {
    if aggregates == [] then []
    else
      var (func, e) := aggregates[0];
      var bound := Rebind(e, layout.Bind());
      var index := match bound
        case Aggregate(_, inner, _) =>
          if inner.None? then Some(0) else if inner.value.Column? then Some(inner.value.column.index) else None
        case Column(c) => Some(c.index)
        case _ => Some(0);
      (if index.Some? then [(index.value, KnownAggregate(func))] else []) + AggregateInputs(aggregates[1..], layout)
  }

  /** Continues with a compiled input, or fails with it. */
  function OnInput(input: Result, build: Compiled -> Compiled): Result {
    (if input.0.Some? then Some(build(input.0.value)) else None, input.1)
  }

  function CompileAggregate(c: Compiled, groupBy: seq<Expr>, aggregates: seq<(AggregateFunc, Expr)>): Compiled {
    Compiled(Aggregating(c.dataflow, ColumnIndices(RebindAll(groupBy, c.layout)), AggregateInputs(aggregates, c.layout)),
             c.layout.Projected(|groupBy| + |aggregates|))
  }

  /** Plans without an input, and those that cannot be maintained incrementally. */
  function CompileLeaf(host: Host, schemas: Schemas, plan: Plan, r: Resolver): Result {
    match plan
    case TableScan(t) => CompileSource(schemas, t, r)
    case IndexScan(t, index, bounds, limit, offset, reverse) =>
      if reverse || limit.Some? || (offset.Some? && offset.value > 0) then (None, r)
      else
        (match LookupIndexColumns(schemas, t, index)
         case None => (None, r)
         case Some(columns) =>
           match IndexScanPredicate(columns, bounds)
           case None => (None, r)
           case Some(test) => CompileFilteredSource(host, schemas, t, test, r))
    case IndexGet(t, index, key, limit) =>
      if limit.Some? then (None, r)
      else
        (match LookupIndexColumns(schemas, t, index)
         case None => (None, r)
         case Some(columns) =>
           if |columns| != 1 then (None, r)
           else CompileFilteredSource(host, schemas, t, Some(EqualTo(columns[0], key)), r))
    case IndexInGet(t, index, keys) =>
      (match LookupIndexColumns(schemas, t, index)
       case None => (None, r)
       case Some(columns) =>
         if |columns| != 1 then (None, r)
         else CompileFilteredSource(host, schemas, t, Some(AmongKeys(columns[0], keys)), r))
    case GinIndexScan(t, recheck) =>
      if recheck.None? then (None, r) else CompileFilteredSource(host, schemas, t, recheck, r)
    case Empty => (Some(Compiled(Source(LAST_ID), Layout([], []))), r)
    case _ => (None, r)
  }

  function CompileNode(host: Host, schemas: Schemas, plan: Plan, r: Resolver): Result {
    match plan
    case Filter(input, test) =>
      OnInput(CompileNode(host, schemas, input, r), (c: Compiled) => Filtered(host, c, test))
    case Project(input, columns) =>
      OnInput(CompileNode(host, schemas, input, r), (c: Compiled) => CompileProjection(c, columns))
    case HashAggregate(input, groupBy, aggregates) =>
      OnInput(CompileNode(host, schemas, input, r), (c: Compiled) => CompileAggregate(c, groupBy, aggregates))
    case Join(left, right, condition, joinType, output) =>
      var l := CompileNode(host, schemas, left, r);
      if l.0.None? then l
      else OnInput(CompileNode(host, schemas, right, l.1),
                   (c: Compiled) => CompileJoin(l.0.value, c, condition, joinType, output))
    case IndexNestedLoopJoin(outer, inner, condition, joinType, outerIsLeft, output) =>
      var o := CompileNode(host, schemas, outer, r);
      if o.0.None? then o
      else OnInput(CompileSource(schemas, inner, o.1),
                   (c: Compiled) => if outerIsLeft then CompileJoin(o.0.value, c, condition, joinType, output)
                                    else CompileJoin(c, o.0.value, condition, joinType, output))
    case CrossProduct(left, right) =>
      var l := CompileNode(host, schemas, left, r);
      if l.0.None? then l
      else OnInput(CompileNode(host, schemas, right, l.1), (c: Compiled) => CompileCross(l.0.value, c))
    case NoOp(input) => CompileNode(host, schemas, input, r)
    case _ => CompileLeaf(host, schemas, plan, r)
  }

  function AmongKeys(c: ColumnRef, keys: seq<Value>): Expr {
    In(Column(c), seq(|keys|, i requires 0 <= i < |keys| => Literal(keys[i])))
  }

  /** A join in which every pair matches. */
  function CompileCross(left: Compiled, right: Compiled): Compiled {
    var key := OnConstant([Int64(0)]);
    Compiled(Joining(left.dataflow, right.dataflow, key, key, false, false,
                     left.layout.TotalWidth(), right.layout.TotalWidth()),
             Combined(left.layout, right.layout))
  }

  predicate IsIncrementalizable(plan: Plan) {
    match plan
    case Sort(_) => false
    case TopN(_) => false
    case Limit(_) => false
    case Union(_, _) => false
    case NoOp(input) => IsIncrementalizable(input)
    case _ => true
  }

  /** The resolver starts behind the largest known id. */
  method NewResolver(existing: map<string, TableId>) returns (r: Resolver)
    ensures r.existing == existing && r.used == map[]
    ensures forall t :: t in existing ==> existing[t] < r.nextId || existing[t] == LAST_ID
    ensures r.nextId == 1 || exists t :: t in existing && (existing[t] == LAST_ID || existing[t] + 1 == r.nextId)
  {
    var top: TableId := 0;
    var rest := existing.Keys;
    while rest != {}
      invariant rest <= existing.Keys
      invariant forall t :: t in existing && t !in rest ==> existing[t] <= top
      invariant top == 0 || exists t :: t in existing && existing[t] == top
      decreases rest
    {
      var t :| t in rest;
      rest := rest - {t};
      if existing[t] > top {
        top := existing[t];
      }
    }
    r := Resolver(existing, map[], if top == LAST_ID then LAST_ID else top + 1);
  }

  method CompileToDataflow(host: Host, schemas: Schemas, plan: Plan, existing: map<string, TableId>)
    returns (compiled: Option<Compiled>, ids: map<string, TableId>)
    ensures !IsIncrementalizable(plan) ==> compiled == None
    ensures IsIncrementalizable(plan) ==>
              exists r: Resolver :: r.existing == existing && r.used == map[] &&
                (var (c, r1) := CompileNode(host, schemas, plan, r); compiled == c && ids == r1.used)
  {
    if !IsIncrementalizable(plan) {
      return None, map[];
    }
    var r := NewResolver(existing);
    var (c, r1) := CompileNode(host, schemas, plan, r);
    return c, r1.used;
  }

  // ----- Table ids stay distinct ---------------------------------------------------------------

  /** How many tables a plan reads at most. */
  function Leaves(plan: Plan): nat {
    match plan
    case Filter(input, _) => Leaves(input)
    case Project(input, _) => Leaves(input)
    case NoOp(input) => Leaves(input)
    case HashAggregate(input, _, _) => Leaves(input)
    case Join(left, right, _, _, _) => Leaves(left) + Leaves(right)
    case CrossProduct(left, right) => Leaves(left) + Leaves(right)
    case IndexNestedLoopJoin(outer, _, _, _, _, _) => Leaves(outer) + 1
    case _ => 1
  }

  /** Known ids lie below `start`, allocated ones from there on, one per table. */
  ghost predicate Allotted(r: Resolver, start: nat) {
    && start <= r.nextId
    && (forall t :: t in r.existing ==> r.existing[t] < start)
    && (forall t :: t in r.used ==> if t in r.existing then r.used[t] == r.existing[t] else start <= r.used[t] < r.nextId)
    && (forall t, u :: t in r.used && u in r.used && t !in r.existing && u !in r.existing && r.used[t] == r.used[u] ==> t == u)
  }

  lemma ResolveAllots(r: Resolver, start: nat, table: string)
    requires Allotted(r, start) && r.nextId < LAST_ID
    ensures var r1 := r.Resolve(table).1; Allotted(r1, start) && r1.nextId <= r.nextId + 1
  {}

  function ResolveAll(r: Resolver, tables: seq<string>): Resolver
    decreases |tables|
  {
    if tables == [] then r else ResolveAll(r.Resolve(tables[0]).1, tables[1..])
  }

  lemma {:induction false} ResolveConcat(r: Resolver, a: seq<string>, b: seq<string>)
    ensures ResolveAll(r, a + b) == ResolveAll(ResolveAll(r, a), b)
    decreases |a|
  {
    if a == [] {
      assert a + b == b;
    } else {
      assert (a + b)[1..] == a[1..] + b;
      ResolveConcat(r.Resolve(a[0]).1, a[1..], b);
    }
  }

  lemma ResolveOne(r: Resolver, table: string)
    ensures ResolveAll(r, [table]) == r.Resolve(table).1
  {
    assert [table][1..] == [];
  }

  lemma LeafResolves(host: Host, schemas: Schemas, plan: Plan, r: Resolver) returns (tables: seq<string>)
    ensures CompileLeaf(host, schemas, plan, r).1 == ResolveAll(r, tables) && |tables| <= 1
  {
    tables := [];
    match plan
    case TableScan(t) => ResolveOne(r, t); if CompileLeaf(host, schemas, plan, r).1 != r { tables := [t]; }
    case IndexScan(t, _, _, _, _, _) => ResolveOne(r, t); if CompileLeaf(host, schemas, plan, r).1 != r { tables := [t]; }
    case IndexGet(t, _, _, _) => ResolveOne(r, t); if CompileLeaf(host, schemas, plan, r).1 != r { tables := [t]; }
    case IndexInGet(t, _, _) => ResolveOne(r, t); if CompileLeaf(host, schemas, plan, r).1 != r { tables := [t]; }
    case GinIndexScan(t, _) => ResolveOne(r, t); if CompileLeaf(host, schemas, plan, r).1 != r { tables := [t]; }
    case _ =>
  }

  /** Compiling a plan resolves at most one table per leaf and changes the resolver in no other way. */
  lemma {:induction false} CompileResolves(host: Host, schemas: Schemas, plan: Plan, r: Resolver) returns (tables: seq<string>)
    ensures CompileNode(host, schemas, plan, r).1 == ResolveAll(r, tables) && |tables| <= Leaves(plan)
    decreases plan, 1
  {
    match plan
    case Filter(input, _) => tables := CompileResolves(host, schemas, input, r);
    case Project(input, _) => tables := CompileResolves(host, schemas, input, r);
    case NoOp(input) => tables := CompileResolves(host, schemas, input, r);
    case HashAggregate(input, _, _) => tables := CompileResolves(host, schemas, input, r);
    case Join(_, _, _, _, _) => tables := JoinResolves(host, schemas, plan, r);
    case CrossProduct(_, _) => tables := JoinResolves(host, schemas, plan, r);
    case IndexNestedLoopJoin(_, _, _, _, _, _) => tables := IndexJoinResolves(host, schemas, plan, r);
    case _ => tables := LeafResolves(host, schemas, plan, r);
  }

  lemma {:induction false} JoinResolves(host: Host, schemas: Schemas, plan: Plan, r: Resolver) returns (tables: seq<string>)
    requires plan.Join? || plan.CrossProduct?
    ensures CompileNode(host, schemas, plan, r).1 == ResolveAll(r, tables) && |tables| <= Leaves(plan)
    decreases plan, 0
  {
    tables := CompileResolves(host, schemas, plan.left, r);
    var l := CompileNode(host, schemas, plan.left, r);
    if l.0.Some? {
      var more := CompileResolves(host, schemas, plan.right, l.1);
      ResolveConcat(r, tables, more);
      tables := tables + more;
    }
  }

  lemma {:induction false} IndexJoinResolves(host: Host, schemas: Schemas, plan: Plan, r: Resolver) returns (tables: seq<string>)
    requires plan.IndexNestedLoopJoin?
    ensures CompileNode(host, schemas, plan, r).1 == ResolveAll(r, tables) && |tables| <= Leaves(plan)
    decreases plan, 0
  {
    tables := CompileResolves(host, schemas, plan.outer, r);
    var o := CompileNode(host, schemas, plan.outer, r);
    if o.0.Some? {
      ResolveOne(o.1, plan.innerTable);
      ResolveConcat(r, tables, [plan.innerTable]);
      tables := tables + [plan.innerTable];
    }
  }

  lemma {:induction false} AllAllotted(r: Resolver, start: nat, tables: seq<string>)
    requires Allotted(r, start) && r.nextId + |tables| <= LAST_ID
    ensures Allotted(ResolveAll(r, tables), start) && ResolveAll(r, tables).nextId <= r.nextId + |tables|
    decreases |tables|
  {
    if tables != [] {
      ResolveAllots(r, start, tables[0]);
      AllAllotted(r.Resolve(tables[0]).1, start, tables[1..]);
    }
  }

  /** With enough ids left, different tables of a plan get different ids. */
  lemma IdsStayDistinct(host: Host, schemas: Schemas, plan: Plan, r: Resolver, start: nat)
    requires Allotted(r, start) && r.nextId + Leaves(plan) <= LAST_ID
    requires forall t, u :: t in r.existing && u in r.existing && r.existing[t] == r.existing[u] ==> t == u
    ensures var used := CompileNode(host, schemas, plan, r).1.used;
      forall t, u :: t in used && u in used && used[t] == used[u] ==> t == u
  {
    var tables := CompileResolves(host, schemas, plan, r);
    AllAllotted(r, start, tables);
    AllExtends(r, tables);
    AllottedIsInjective(ResolveAll(r, tables), start);
  }

  lemma {:induction false} AllExtends(r: Resolver, tables: seq<string>)
    ensures Extends(r, ResolveAll(r, tables))
    decreases |tables|
  {
    if tables != [] {
      AllExtends(r.Resolve(tables[0]).1, tables[1..]);
    }
  }

  lemma AllottedIsInjective(r: Resolver, start: nat)
    requires Allotted(r, start)
    requires forall t, u :: t in r.existing && u in r.existing && r.existing[t] == r.existing[u] ==> t == u
    ensures forall t, u :: t in r.used && u in r.used && r.used[t] == r.used[u] ==> t == u
  {}

  // ----- Meaning preservation ------------------------------------------------------------------

  lemma CompileExtends(host: Host, schemas: Schemas, plan: Plan, r: Resolver)
    ensures Extends(r, CompileNode(host, schemas, plan, r).1)
  {
    var tables := CompileResolves(host, schemas, plan, r);
    AllExtends(r, tables);
  }

  /** The sources of the runtime hold the rows of the tables that use their ids. */
  ghost predicate Feeds(rt: Runtime, r: Resolver, db: Database) {
    forall t :: t in r.used ==> rt.sources(r.used[t]) == RowsOf(db, t)
  }

  function Flattening(tables: seq<string>, width: Widths): Env -> Row { (env: Env) => Flatten(tables, width, env) }

  /** The compiled node has the layout of the tables and yields the environments laid out flat. */
  ghost predicate Preserved(rt: Runtime, width: Widths, tables: seq<string>, envs: seq<Env>, c: Compiled) {
    c.layout == LayoutFor(tables, width) && Yields(rt, width, tables, envs, c)
  }

  /** The compiled node yields the environments laid out flat, and its layout reads their columns. */
  ghost predicate Yields(rt: Runtime, width: Widths, tables: seq<string>, envs: seq<Env>, c: Compiled) {
    && Covers(c.layout, tables, width)
    && AllTyped(tables, width, envs)
    && Rows(rt, c.dataflow) == MapSeq(envs, Flattening(tables, width))
  }

  lemma SourcePreserved(rt: Runtime, schemas: Schemas, db: Database, table: string, r: Resolver)
    requires RowsFit(schemas, db) && CompileSource(schemas, table, r).0.Some?
    requires Feeds(rt, CompileSource(schemas, table, r).1, db)
    ensures Preserved(rt, WidthIn(schemas), [table], Scan(db, table), CompileSource(schemas, table, r).0.value)
  {
    var width, envs, rows := WidthIn(schemas), Scan(db, table), RowsOf(db, table);
    var (id, r1) := r.Resolve(table);
    assert r1.used[table] == id && rt.sources(id) == rows;
    forall env | env in envs ensures Typed(env, [table], width) {
      var k :| 0 <= k < |envs| && envs[k] == env;
      assert rows[k] in rows;
    }
    forall k | 0 <= k < |rows| ensures Flatten([table], width, envs[k]) == rows[k] {
      assert Part(envs[k], table, width) == rows[k] && [table][1..] == [];
    }
    assert LayoutFor([table], width).counts == [width(table)];
  }

  lemma FilterPreserved(rt: Runtime, width: Widths, tables: seq<string>, envs: seq<Env>, c: Compiled, test: Expr)
    requires Yields(rt, width, tables, envs, c) && NamesAll(tables, width, test)
    ensures Yields(rt, width, tables, FilterSeq(envs, Accepts(rt.host, test)), Filtered(rt.host, c, test))
    ensures Filtered(rt.host, c, test).layout == c.layout
  {
    var bound := Rebind(test, c.layout.Bind());
    var accepts := AcceptsRow(rt.host, CompilePredicate(rt.host, bound));
    forall i | 0 <= i < |envs|
      ensures accepts(Flattening(tables, width)(envs[i])) == Accepts(rt.host, test)(envs[i])
    {
      assert envs[i] in envs;
      CompiledExactly(rt.host, bound, Flatten(tables, width, envs[i]));
      BoundMeaning(rt.host, c.layout, tables, width, envs[i], test);
    }
    FilterMap(envs, Flattening(tables, width), Accepts(rt.host, test), accepts);
    FilterElements(envs, Accepts(rt.host, test));
  }

  // ----- Index scans ---------------------------------------------------------------------------

  lemma {:induction false} FilterAgree<A>(s: seq<A>, p: A -> bool, q: A -> bool)
    requires forall a :: a in s ==> p(a) == q(a)
    ensures FilterSeq(s, p) == FilterSeq(s, q)
  {
    if s != [] {
      assert s[0] in s;
      FilterAgree(s[1..], p, q);
    }
  }

  lemma FilterAll<A>(s: seq<A>, p: A -> bool)
    requires forall a :: a in s ==> p(a)
    ensures FilterSeq(s, p) == s
  {
    if s != [] {
      assert s[0] in s;
      FilterAll(s[1..], p);
    }
  }

  /** A conjunction is true exactly when all of its parts are. */
  lemma {:induction false} AndAllMeaning(host: Host, combined: Expr, predicates: seq<Expr>, column: ColumnRef -> Value)
    ensures IsTrue(EvalWith(host, AndAll(combined, predicates), column)) <==>
              && IsTrue(EvalWith(host, combined, column))
              && forall i :: 0 <= i < |predicates| ==> IsTrue(EvalWith(host, predicates[i], column))
    decreases |predicates|
  {
    if predicates != [] {
      AndAllMeaning(host, Binary(combined, And, predicates[0]), predicates[1..], column);
      assert forall i :: 0 < i < |predicates| ==> predicates[i] == predicates[1..][i - 1];
    }
  }

  lemma CombineMeaning(host: Host, predicates: seq<Expr>, column: ColumnRef -> Value)
    requires predicates != []
    ensures IsTrue(EvalWith(host, CombineWithAnd(predicates).value, column)) <==>
              forall i :: 0 <= i < |predicates| ==> IsTrue(EvalWith(host, predicates[i], column))
  {
    var n := |predicates| - 1;
    AndAllMeaning(host, predicates[n], predicates[..n], column);
    assert forall i :: 0 <= i < n ==> predicates[i] == predicates[..n][i];
  }

  /** The predicate of a scalar range says that the key lies in the range. */
  lemma ScalarRangeMeaning(host: Host, c: ColumnRef, range: KeyRange<Value>, column: ColumnRef -> Value)
    ensures Contains(range, column(c), CompareValues()) <==>
              var p := ScalarRangePredicate(c, range); p.None? || IsTrue(EvalWith(host, p.value, column))
  {
    match range
    case Bound(lower, upper, lowerExclusive, upperExclusive) =>
      var tests := [LowerTest(c, lower, lowerExclusive), UpperTest(c, upper, upperExclusive)];
      CombineMeaning(host, tests, column);
      TestMeaning(host, c, lower, lowerExclusive, column);
      TestMeaning(host, c, upper, upperExclusive, column);
      assert tests[0] == LowerTest(c, lower, lowerExclusive) && tests[1] == UpperTest(c, upper, upperExclusive);
    case LowerBound(v, exclusive) => TestMeaning(host, c, v, exclusive, column);
    case UpperBound(v, exclusive) => TestMeaning(host, c, v, exclusive, column);
    case _ =>
  }

  lemma TestMeaning(host: Host, c: ColumnRef, v: Value, exclusive: bool, column: ColumnRef -> Value)
    ensures IsTrue(EvalWith(host, LowerTest(c, v, exclusive), column)) <==> Above(Compare(column(c), v), exclusive)
    ensures IsTrue(EvalWith(host, UpperTest(c, v, exclusive), column)) <==> Below(Compare(column(c), v), exclusive)
  {}

  /** Equalities with all values of a key. */
  lemma EqualTosMeaning(host: Host, columns: seq<ColumnRef>, values: seq<Value>, env: Env)
    requires |columns| == |values| && columns != []
    ensures IsTrue(EvalWith(host, CombineWithAnd(EqualTos(columns, values)).value, ColumnIn(env))) <==> KeyIn(env, columns) == values
  {
    CombineMeaning(host, EqualTos(columns, values), ColumnIn(env));
    forall i | 0 <= i < |columns|
      ensures IsTrue(EvalWith(host, EqualTos(columns, values)[i], ColumnIn(env))) <==> KeyIn(env, columns)[i] == values[i]
    {
      assert EqualTos(columns, values)[i] == EqualTo(columns[i], values[i]);
    }
  }

  lemma {:induction false} CompareKeysEqual(a: seq<Value>, b: seq<Value>)
    requires forall i :: 0 <= i < |a| && i < |b| && Compare(a[i], b[i]) == Equal ==> a[i] == b[i]
    ensures CompareKeys(a, b) == Equal <==> a == b
  {
    if a != [] && b != [] {
      CompareMirror(a[0], a[0]);
      assert a == [a[0]] + a[1..] && b == [b[0]] + b[1..];
      CompareKeysEqual(a[1..], b[1..]);
    }
  }

  /** Where the index scan is turned into a predicate, the predicate holds of the rows in bounds. */
  lemma IndexPredicateMeaning(host: Host, columns: seq<ColumnRef>, bounds: IndexBounds, env: Env)
    requires IndexScanPredicate(columns, bounds).Some?
    requires bounds.Composite? && bounds.ranges.Bound? ==>
               forall i :: 0 <= i < |columns| && i < |bounds.ranges.lower| ==>
                 (Compare(KeyIn(env, columns)[i], bounds.ranges.lower[i]) == Equal ==> KeyIn(env, columns)[i] == bounds.ranges.lower[i])
    ensures KeyWithin(columns, bounds)(env) <==>
              var test := IndexScanPredicate(columns, bounds).value; test.None? || Accepts(host, test.value)(env)
  {
    var key := KeyIn(env, columns);
    match bounds
    case Unbounded =>
    case Scalar(range) =>
      assert key[0] == ColumnIn(env)(columns[0]);
      ScalarRangeMeaning(host, columns[0], range, ColumnIn(env));
    case Composite(range) =>
      match range
      case Only(values) => EqualTosMeaning(host, columns, values, env);
      case Bound(lower, _, _, _) =>
        EqualTosMeaning(host, columns, lower, env);
        CompareKeysEqual(key, lower);
      case _ =>
  }

  lemma EqualToMeaning(host: Host, c: ColumnRef, key: Value, env: Env)
    ensures KeyAmong([c], [key])(env) <==> Accepts(host, EqualTo(c, key))(env)
  {
    var e, column := EqualTo(c, key), ColumnIn(env);
    assert KeyIn(env, [c])[0] == column(c);
    assert EvalWith(host, e.left, column) == column(c) && EvalWith(host, e.right, column) == key;
    assert EvalWith(host, e, column) == Boolean(column(c) == key);
  }

  lemma AmongMeaning(host: Host, c: ColumnRef, keys: seq<Value>, env: Env)
    ensures KeyAmong([c], keys)(env) <==> Accepts(host, AmongKeys(c, keys))(env)
  {
    var e, column := AmongKeys(c, keys), ColumnIn(env);
    assert KeyIn(env, [c])[0] == column(c);
    assert seq(|e.list|, i requires 0 <= i < |e.list| => EvalWith(host, e.list[i], column)) == keys;
    assert EvalWith(host, e.arg, column) == column(c);
  }

  // ----- Joins ---------------------------------------------------------------------------------

  lemma ColumnOfSide(l: Env, r: Env, lt: seq<string>, rt: seq<string>, width: Widths, c: ColumnRef)
    requires Typed(l, lt, width) && Typed(r, rt, width) && Disjoint(lt, rt)
    ensures c.table in lt ==> ColumnIn(l + r)(c) == ColumnIn(l)(c)
    ensures c.table in rt ==> ColumnIn(l + r)(c) == ColumnIn(r)(c)
  {
    if c.table in lt {
      assert c.table !in r;
    }
  }

  lemma KeysConcat(a: seq<nat>, b: seq<nat>, row: Row)
    ensures KeyOf(OnColumns(a + b), row) == KeyOf(OnColumns(a), row) + KeyOf(OnColumns(b), row)
  {}

  /** Two rows have the same join key exactly when the join condition is true of their environments. */
  lemma {:induction false} EquiKeysMeaning(host: Host, width: Widths, lt: seq<string>, rt: seq<string>, condition: Expr,
                                           l: Env, r: Env)
    requires Typed(l, lt, width) && Typed(r, rt, width) && Disjoint(lt, rt)
    requires EquiCondition(lt, rt, width, condition)
    ensures var keys := EquiKeys(condition, LayoutFor(lt, width), LayoutFor(rt, width));
      && keys.0 != []
      && (KeyOf(OnColumns(keys.0), Flatten(lt, width, l)) == KeyOf(OnColumns(keys.1), Flatten(rt, width, r)) <==>
          IsTrue(EvalWith(host, condition, ColumnIn(l + r))))
    decreases condition
  {
    if condition.op == And {
      EquiKeysMeaning(host, width, lt, rt, condition.left, l, r);
      EquiKeysMeaning(host, width, lt, rt, condition.right, l, r);
      var a := EquiKeys(condition.left, LayoutFor(lt, width), LayoutFor(rt, width));
      var b := EquiKeys(condition.right, LayoutFor(lt, width), LayoutFor(rt, width));
      KeysEqual(a.0, b.0, a.1, b.1, Flatten(lt, width, l), Flatten(rt, width, r));
    } else {
      EquiLeafMeaning(host, width, lt, rt, condition, l, r);
    }
  }

  lemma EquiLeafMeaning(host: Host, width: Widths, lt: seq<string>, rt: seq<string>, condition: Expr, l: Env, r: Env)
    requires Typed(l, lt, width) && Typed(r, rt, width) && Disjoint(lt, rt)
    requires EquiCondition(lt, rt, width, condition) && condition.op == Eq
    ensures var keys := EquiKeys(condition, LayoutFor(lt, width), LayoutFor(rt, width));
      && keys.0 != []
      && (KeyOf(OnColumns(keys.0), Flatten(lt, width, l)) == KeyOf(OnColumns(keys.1), Flatten(rt, width, r)) <==>
          IsTrue(EvalWith(host, condition, ColumnIn(l + r))))
  {
    var c, d := condition.left.column, condition.right.column;
    ColumnOfSide(l, r, lt, rt, width, c);
    ColumnOfSide(l, r, lt, rt, width, d);
    if SideColumn(lt, width, condition.left) && SideColumn(rt, width, condition.right) {
      EquiKeyMeaning(width, lt, c, l);
      EquiKeyMeaning(width, rt, d, r);
    } else {
      assert c.table !in lt;
      EquiKeyMeaning(width, lt, d, l);
      EquiKeyMeaning(width, rt, c, r);
    }
  }

  lemma KeysEqual(l0: seq<nat>, l1: seq<nat>, r0: seq<nat>, r1: seq<nat>, left: Row, right: Row)
    requires |l0| == |r0| && |l1| == |r1|
    ensures KeyOf(OnColumns(l0 + l1), left) == KeyOf(OnColumns(r0 + r1), right) <==>
              KeyOf(OnColumns(l0), left) == KeyOf(OnColumns(r0), right) && KeyOf(OnColumns(l1), left) == KeyOf(OnColumns(r1), right)
  {
    KeysConcat(l0, l1, left);
    KeysConcat(r0, r1, right);
    ConcatEqual(KeyOf(OnColumns(l0), left), KeyOf(OnColumns(l1), left), KeyOf(OnColumns(r0), right), KeyOf(OnColumns(r1), right));
  }

  lemma ConcatEqual(a0: Row, a1: Row, b0: Row, b1: Row)
    requires |a0| == |b0| && |a1| == |b1|
    ensures a0 + a1 == b0 + b1 <==> a0 == b0 && a1 == b1
  {
    if a0 + a1 == b0 + b1 {
      assert a0 == (a0 + a1)[..|a0|] && b0 == (b0 + b1)[..|a0|];
      assert a1 == (a0 + a1)[|a0|..] && b1 == (b0 + b1)[|a0|..];
    }
  }

  lemma EquiKeyMeaning(width: Widths, tables: seq<string>, c: ColumnRef, env: Env)
    requires Typed(env, tables, width) && Names(tables, width, c)
    ensures KeyOf(OnColumns([LayoutFor(tables, width).ResolveColumnIndex(c.table, c.index)]), Flatten(tables, width, env))
         == [ColumnIn(env)(c)]
  {
    BoundColumn(tables, width, env, c);
    OneKey(Flatten(tables, width, env), LayoutFor(tables, width).ResolveColumnIndex(c.table, c.index));
  }

  lemma OneKey(row: Row, at: nat)
    requires at < |row|
    ensures KeyOf(OnColumns([at]), row) == [row[at]]
  {
    assert RowLookup(row)(at) == Some(row[at]);
  }

  lemma MergedRow(width: Widths, lt: seq<string>, rt: seq<string>, l: Env, r: Env)
    requires Disjoint(lt, rt) && (forall t :: t in l <==> t in lt) && (forall t :: t in r <==> t in rt)
    ensures Flatten(lt + rt, width, l + r) == Flatten(lt, width, l) + Flatten(rt, width, r)
  {
    FlattenConcat(lt, rt, width, l + r);
    FlattenSame(lt, width, l + r, l);
    FlattenSame(rt, width, l + r, r);
  }

  lemma {:induction false} NoTuplesRow(width: Widths, tables: seq<string>, all: seq<string>)
    requires forall t :: t in tables ==> t in all
    ensures Flatten(tables, width, NoTuples(all)) == Nulls(LayoutFor(tables, width).TotalWidth())
  {
    if tables != [] {
      LayoutTail(tables, width);
      assert tables[0] in all;
      NoTuplesRow(width, tables[1..], all);
    }
  }

  lemma NoTuplesTyped(width: Widths, tables: seq<string>)
    ensures Typed(NoTuples(tables), tables, width)
  {}

  lemma MergedTyped(width: Widths, lt: seq<string>, rt: seq<string>, l: Env, r: Env)
    requires Typed(l, lt, width) && Typed(r, rt, width)
    ensures Typed(l + r, lt + rt, width)
  {}

  /** The join keys of two rows agree exactly when their environments are joined. */
  ghost predicate KeysMatch(width: Widths, tl: seq<string>, tr: seq<string>, ls: seq<Env>, rs: seq<Env>,
                            on: (Env, Env) -> bool, leftKey: KeySpec, rightKey: KeySpec) {
    forall l, r :: l in ls && r in rs ==>
      (KeyOf(leftKey, Flatten(tl, width, l)) == KeyOf(rightKey, Flatten(tr, width, r)) <==> on(l, r))
  }

  /** What relates a join of environments to the join of their flat rows. */
  lemma JoinRelated(width: Widths, tl: seq<string>, tr: seq<string>, ls: seq<Env>, rs: seq<Env>,
                    onEnvs: Joiner<Env, Env, Env>, onRows: Joiner<Row, Row, Row>,
                    on: (Env, Env) -> bool, joinType: JoinType, leftKey: KeySpec, rightKey: KeySpec)
    requires Disjoint(tl, tr) && AllTyped(tl, width, ls) && AllTyped(tr, width, rs)
    requires onEnvs == JoinWith(on, joinType, tl, tr)
    requires onRows == JoinRows(leftKey, rightKey, joinType.KeepsLeft(), joinType.KeepsRight(),
                                LayoutFor(tl, width).TotalWidth(), LayoutFor(tr, width).TotalWidth())
    requires KeysMatch(width, tl, tr, ls, rs, on, leftKey, rightKey)
    ensures Simulates(onEnvs, onRows, ls, rs, Flattening(tl, width), Flattening(tr, width), Flattening(tl + tr, width))
  {
    forall l, k | l in ls && 0 <= k < |rs|
      ensures Related(onEnvs, onRows, l, rs[k], Flattening(tl, width), Flattening(tr, width), Flattening(tl + tr, width))
    {
      assert rs[k] in rs;
      MergedRow(width, tl, tr, l, rs[k]);
    }
    forall l | l in ls ensures Flattening(tl + tr, width)(onEnvs.padRight(l)) == onRows.padRight(Flattening(tl, width)(l)) {
      MergedRow(width, tl, tr, l, NoTuples(tr));
      NoTuplesRow(width, tr, tr);
    }
    forall k | 0 <= k < |rs|
      ensures Flattening(tl + tr, width)(onEnvs.padLeft(rs[k])) == onRows.padLeft(Flattening(tr, width)(rs[k]))
    {
      assert rs[k] in rs;
      MergedRow(width, tl, tr, NoTuples(tl), rs[k]);
      NoTuplesRow(width, tl, tl);
    }
  }

  lemma JoinTyped(width: Widths, tl: seq<string>, tr: seq<string>, ls: seq<Env>, rs: seq<Env>,
                  on: (Env, Env) -> bool, joinType: JoinType)
    requires AllTyped(tl, width, ls) && AllTyped(tr, width, rs)
    ensures AllTyped(tl + tr, width, JoinSeq(JoinWith(on, joinType, tl, tr), ls, rs))
  {
    var j := JoinWith(on, joinType, tl, tr);
    NoTuplesTyped(width, tl);
    NoTuplesTyped(width, tr);
    forall l, r | l in ls && r in rs ensures Typed(j.merge(l, r), tl + tr, width) {
      MergedTyped(width, tl, tr, l, r);
    }
    forall l | l in ls ensures Typed(j.padRight(l), tl + tr, width) {
      MergedTyped(width, tl, tr, l, NoTuples(tr));
    }
    forall r | r in rs ensures Typed(j.padLeft(r), tl + tr, width) {
      MergedTyped(width, tl, tr, NoTuples(tl), r);
    }
    JoinElements(j, ls, rs, (env: Env) => Typed(env, tl + tr, width));
  }

  lemma JoinedRows(width: Widths, tl: seq<string>, tr: seq<string>, ls: seq<Env>, rs: seq<Env>,
                   on: (Env, Env) -> bool, joinType: JoinType, leftKey: KeySpec, rightKey: KeySpec)
    requires Disjoint(tl, tr) && AllTyped(tl, width, ls) && AllTyped(tr, width, rs)
    requires KeysMatch(width, tl, tr, ls, rs, on, leftKey, rightKey)
    ensures JoinSeq(JoinRows(leftKey, rightKey, joinType.KeepsLeft(), joinType.KeepsRight(),
                             LayoutFor(tl, width).TotalWidth(), LayoutFor(tr, width).TotalWidth()),
                    MapSeq(ls, Flattening(tl, width)), MapSeq(rs, Flattening(tr, width)))
         == MapSeq(JoinSeq(JoinWith(on, joinType, tl, tr), ls, rs), Flattening(tl + tr, width))
  {
    var onEnvs := JoinWith(on, joinType, tl, tr);
    var onRows := JoinRows(leftKey, rightKey, joinType.KeepsLeft(), joinType.KeepsRight(),
                           LayoutFor(tl, width).TotalWidth(), LayoutFor(tr, width).TotalWidth());
    JoinRelated(width, tl, tr, ls, rs, onEnvs, onRows, on, joinType, leftKey, rightKey);
    JoinSimulates(onEnvs, onRows, ls, rs, Flattening(tl, width), Flattening(tr, width), Flattening(tl + tr, width));
  }

  /** The join node yields the joined environments in the raw order of the two sides. */
  lemma JoinNodePreserved(rt: Runtime, width: Widths, tl: seq<string>, tr: seq<string>, ls: seq<Env>, rs: seq<Env>,
                          left: Compiled, right: Compiled, on: (Env, Env) -> bool, joinType: JoinType,
                          leftKey: KeySpec, rightKey: KeySpec)
    requires Preserved(rt, width, tl, ls, left) && Preserved(rt, width, tr, rs, right) && Disjoint(tl, tr)
    requires KeysMatch(width, tl, tr, ls, rs, on, leftKey, rightKey)
    ensures Preserved(rt, width, tl + tr, JoinSeq(JoinWith(on, joinType, tl, tr), ls, rs),
                      Compiled(Joining(left.dataflow, right.dataflow, leftKey, rightKey, joinType.KeepsLeft(), joinType.KeepsRight(),
                                       left.layout.TotalWidth(), right.layout.TotalWidth()),
                               Combined(left.layout, right.layout)))
  {
    JoinedRows(width, tl, tr, ls, rs, on, joinType, leftKey, rightKey);
    JoinTyped(width, tl, tr, ls, rs, on, joinType);
    JoinLayoutFor(tl, tr, tl + tr, width);
    JoinNodeRows(rt, left, right, leftKey, rightKey, joinType);
  }

  lemma JoinNodeRows(rt: Runtime, left: Compiled, right: Compiled, leftKey: KeySpec, rightKey: KeySpec, joinType: JoinType)
    ensures Rows(rt, Joining(left.dataflow, right.dataflow, leftKey, rightKey, joinType.KeepsLeft(), joinType.KeepsRight(),
                             left.layout.TotalWidth(), right.layout.TotalWidth()))
         == JoinSeq(JoinRows(leftKey, rightKey, joinType.KeepsLeft(), joinType.KeepsRight(),
                             left.layout.TotalWidth(), right.layout.TotalWidth()),
                    Rows(rt, left.dataflow), Rows(rt, right.dataflow))
  {}

  lemma ReorderPreserved(rt: Runtime, width: Widths, raw: seq<string>, envs: seq<Env>, join: Compiled, output: seq<string>)
    requires Preserved(rt, width, raw, envs, join)
    requires "" !in output && forall t :: t in output ==> t in raw
    ensures Preserved(rt, width, output, MapSeq(envs, Restrict(output)), ReorderJoinOutput(join.dataflow, join.layout, output))
  {
    var kept := MapSeq(envs, Restrict(output));
    JoinLayoutFor(raw, [], output, width);
    assert LayoutFor([], width) == Layout([], []);
    forall k | 0 <= k < |envs|
      ensures Typed(kept[k], output, width)
      ensures Flatten(output, width, kept[k]) == Flatten(output, width, envs[k])
      ensures ProjectRow(Flatten(raw, width, envs[k]), join.layout.ProjectionIndicesFor(output)) == Flatten(output, width, envs[k])
    {
      assert envs[k] in envs;
      RestrictTyped(width, raw, output, envs[k]);
      FlattenSame(output, width, kept[k], envs[k]);
      TypedFits(raw, width, envs[k]);
      Reordered(raw, output, width, envs[k]);
    }
    var c := ReorderJoinOutput(join.dataflow, join.layout, output);
    if join.layout == LayoutFor(output, width) {
      assert raw == output;
    }
    assert Rows(rt, c.dataflow) == MapSeq(kept, Flattening(output, width));
  }

  lemma RestrictTyped(width: Widths, raw: seq<string>, output: seq<string>, env: Env)
    requires Typed(env, raw, width) && forall t :: t in output ==> t in raw
    ensures Typed(Restrict(output)(env), output, width)
  {}

  lemma JoinPreserved(rt: Runtime, width: Widths, tl: seq<string>, tr: seq<string>, ls: seq<Env>, rs: seq<Env>,
                      left: Compiled, right: Compiled, condition: Expr, joinType: JoinType, output: seq<string>)
    requires Preserved(rt, width, tl, ls, left) && Preserved(rt, width, tr, rs, right)
    requires GoodJoin(tl, tr, output) && EquiCondition(tl, tr, width, condition)
    ensures Preserved(rt, width, output,
                      MapSeq(JoinSeq(JoinEnvs(rt.host, condition, joinType, tl, tr), ls, rs), Restrict(output)),
                      CompileJoin(left, right, condition, joinType, output))
  {
    var (l, r) := EquiKeys(condition, left.layout, right.layout);
    forall le, re | le in ls && re in rs
      ensures KeyOf(OnColumns(l), Flatten(tl, width, le)) == KeyOf(OnColumns(r), Flatten(tr, width, re)) <==>
                EvalWith(rt.host, condition, ColumnIn(le + re)) == Boolean(true)
    {
      EquiKeysMeaning(rt.host, width, tl, tr, condition, le, re);
    }
    EquiKeysExist(tl, tr, width, condition);
    JoinNodePreserved(rt, width, tl, tr, ls, rs, left, right, Meets(rt.host, condition), joinType, OnColumns(l), OnColumns(r));
    var join := Compiled(Joining(left.dataflow, right.dataflow, OnColumns(l), OnColumns(r), joinType.KeepsLeft(),
                                 joinType.KeepsRight(), left.layout.TotalWidth(), right.layout.TotalWidth()),
                         Combined(left.layout, right.layout));
    ReorderPreserved(rt, width, tl + tr, JoinSeq(JoinEnvs(rt.host, condition, joinType, tl, tr), ls, rs), join, output);
  }

  lemma {:induction false} EquiKeysExist(lt: seq<string>, rt: seq<string>, width: Widths, condition: Expr)
    requires EquiCondition(lt, rt, width, condition)
    ensures EquiKeys(condition, LayoutFor(lt, width), LayoutFor(rt, width)).0 != []
  {
    if condition.op == And {
      EquiKeysExist(lt, rt, width, condition.left);
    }
  }

  lemma CrossPreserved(rt: Runtime, width: Widths, tl: seq<string>, tr: seq<string>, ls: seq<Env>, rs: seq<Env>,
                       left: Compiled, right: Compiled)
    requires Preserved(rt, width, tl, ls, left) && Preserved(rt, width, tr, rs, right) && Disjoint(tl, tr)
    ensures Preserved(rt, width, tl + tr, JoinSeq(JoinEnvs(rt.host, ALWAYS, Inner, tl, tr), ls, rs), CompileCross(left, right))
  {
    var key := OnConstant([Int64(0)]);
    JoinNodePreserved(rt, width, tl, tr, ls, rs, left, right, Meets(rt.host, ALWAYS), Inner, key, key);
  }

  // ----- Projections ---------------------------------------------------------------------------

  lemma {:induction false} AllAreColumns(exprs: seq<Expr>)
    ensures |ColumnIndices(exprs)| <= |exprs|
    ensures |ColumnIndices(exprs)| == |exprs| ==>
              forall i :: 0 <= i < |exprs| ==> exprs[i].Column? && ColumnIndices(exprs)[i] == exprs[i].column.index
  {
    if exprs != [] {
      AllAreColumns(exprs[1..]);
    }
  }

  lemma {:induction false} ProjectInRange(row: Row, columns: seq<nat>)
    requires forall i :: 0 <= i < |columns| ==> columns[i] < |row|
    ensures ProjectRow(row, columns) == seq(|columns|, i requires 0 <= i < |columns| => row[columns[i]])
  {
    if columns != [] {
      ProjectInRange(row, columns[1..]);
    }
  }

  /** Bound to positions or kept as expressions, the projected columns have their values. */
  lemma ProjectedTuple(host: Host, layout: Layout, width: Widths, tables: seq<string>, columns: seq<Expr>, env: Env)
    requires Covers(layout, tables, width) && Typed(env, tables, width)
    requires forall i :: 0 <= i < |columns| ==> NamesAll(tables, width, columns[i])
    ensures var bound, row := RebindAll(columns, layout), Flatten(tables, width, env);
      && MapsTo(host, bound)(row) == TupleOf(host, columns)(env)
      && (|ColumnIndices(bound)| == |columns| ==>
            && (forall i :: 0 <= i < |columns| ==> ColumnIndices(bound)[i] < |row|)
            && ProjectRow(row, ColumnIndices(bound)) == TupleOf(host, columns)(env))
  {
    MappedTuple(host, layout, width, tables, columns, env);
    var bound := RebindAll(columns, layout);
    if |ColumnIndices(bound)| == |columns| {
      PickedTuple(host, layout, width, tables, columns, env);
    }
  }

  lemma MappedTuple(host: Host, layout: Layout, width: Widths, tables: seq<string>, columns: seq<Expr>, env: Env)
    requires Covers(layout, tables, width) && Typed(env, tables, width)
    requires forall i :: 0 <= i < |columns| ==> NamesAll(tables, width, columns[i])
    ensures MapsTo(host, RebindAll(columns, layout))(Flatten(tables, width, env)) == TupleOf(host, columns)(env)
  {
    hide Covers, Typed, NamesAll, Flatten, EvalRow, EvalWith, Rebind;
    var row, bound := Flatten(tables, width, env), RebindAll(columns, layout);
    forall i | 0 <= i < |columns| ensures EvalRow(host, bound[i], row) == EvalWith(host, columns[i], ColumnIn(env)) {
      BoundMeaning(host, layout, tables, width, env, columns[i]);
    }
  }

  lemma PickedTuple(host: Host, layout: Layout, width: Widths, tables: seq<string>, columns: seq<Expr>, env: Env)
    requires Covers(layout, tables, width) && Typed(env, tables, width)
    requires forall i :: 0 <= i < |columns| ==> NamesAll(tables, width, columns[i])
    requires |ColumnIndices(RebindAll(columns, layout))| == |columns|
    ensures var indices, row := ColumnIndices(RebindAll(columns, layout)), Flatten(tables, width, env);
      && (forall i :: 0 <= i < |columns| ==> indices[i] < |row|)
      && ProjectRow(row, indices) == TupleOf(host, columns)(env)
  {
    var row, bound := Flatten(tables, width, env), RebindAll(columns, layout);
    AllAreColumns(bound);
    hide Covers, Typed, Flatten, ColumnIndices, LayoutFor;
    forall i | 0 <= i < |columns|
      ensures ColumnIndices(bound)[i] < |row| && row[ColumnIndices(bound)[i]] == EvalWith(host, columns[i], ColumnIn(env))
    {
      assert bound[i].Column? && columns[i].Column?;
      assert columns[i].column in Columns(columns[i]);
      CoversColumn(layout, tables, width, columns[i].column);
      BoundColumn(tables, width, env, columns[i].column);
    }
    ProjectInRange(row, ColumnIndices(bound));
  }

  /** A projection yields the values of its expressions, whether compiled to column positions or to a
      mapping. */
  lemma ProjectedRows(rt: Runtime, width: Widths, tables: seq<string>, envs: seq<Env>, c: Compiled, columns: seq<Expr>)
    requires Yields(rt, width, tables, envs, c)
    requires forall i :: 0 <= i < |columns| ==> NamesAll(tables, width, columns[i])
    ensures Rows(rt, CompileProjection(c, columns).dataflow) == MapSeq(envs, TupleOf(rt.host, columns))
  {
    forall k | 0 <= k < |envs|
      ensures Rows(rt, CompileProjection(c, columns).dataflow)[k] == TupleOf(rt.host, columns)(envs[k])
    {
      assert envs[k] in envs;
      ProjectedTuple(rt.host, c.layout, width, tables, columns, envs[k]);
    }
  }

  /** The projected tuples belong to the first table of the input. */
  lemma ProjectPreserved(rt: Runtime, width: Widths, narrow: Widths, tables: seq<string>, envs: seq<Env>, c: Compiled,
                         columns: seq<Expr>)
    requires Yields(rt, width, tables, envs, c) && tables != [] && narrow(tables[0]) == |columns|
    requires forall i :: 0 <= i < |columns| ==> NamesAll(tables, width, columns[i])
    ensures var projected := MapSeq(envs, ProjectEnv(rt.host, columns, tables[0]));
      && Yields(rt, narrow, [tables[0]], projected, CompileProjection(c, columns))
      && (c.layout == LayoutFor(tables, width) && |tables| == 1 ==>
            Preserved(rt, narrow, [tables[0]], projected, CompileProjection(c, columns)))
  {
    ProjectedRows(rt, width, tables, envs, c, columns);
    var first := tables[0];
    var projected := MapSeq(envs, ProjectEnv(rt.host, columns, first));
    forall k | 0 <= k < |envs|
      ensures Typed(projected[k], [first], narrow) && Flatten([first], narrow, projected[k]) == TupleOf(rt.host, columns)(envs[k])
    {
      assert Part(projected[k], first, narrow) == TupleOf(rt.host, columns)(envs[k]) && [first][1..] == [];
    }
    assert LayoutFor([first], narrow).counts == [|columns|];
    assert MapSeq(projected, Flattening([first], narrow)) == MapSeq(envs, TupleOf(rt.host, columns));
  }

  // ----- Widths --------------------------------------------------------------------------------

  lemma {:induction false} FlattenAgree(tables: seq<string>, width: Widths, other: Widths, env: Env)
    requires forall t :: t in tables ==> width(t) == other(t)
    ensures Flatten(tables, width, env) == Flatten(tables, other, env)
  {
    if tables != [] {
      assert tables[0] in tables;
      FlattenAgree(tables[1..], width, other, env);
    }
  }

  /** Only the widths of the plan's own tables matter. */
  lemma WidthsAgree(rt: Runtime, width: Widths, other: Widths, tables: seq<string>, envs: seq<Env>, c: Compiled)
    requires Preserved(rt, width, tables, envs, c) && forall t :: t in tables ==> width(t) == other(t)
    ensures Preserved(rt, other, tables, envs, c)
  {
    assert LayoutFor(tables, width) == LayoutFor(tables, other);
    forall k | 0 <= k < |envs| ensures Flattening(tables, width)(envs[k]) == Flattening(tables, other)(envs[k]) {
      FlattenAgree(tables, width, other, envs[k]);
    }
    forall env | env in envs ensures Typed(env, tables, other) {}
  }

  /** The two sides of a join agree with the widths of the join. */
  lemma SidesPreserved(rt: Runtime, width: Widths, other: Widths, tl: seq<string>, tr: seq<string>,
                       ls: seq<Env>, rs: seq<Env>, left: Compiled, right: Compiled)
    requires Disjoint(tl, tr)
    requires Preserved(rt, width, tl, ls, left) && Preserved(rt, other, tr, rs, right)
    ensures Preserved(rt, JoinWidths(tl, width, other), tl, ls, left)
    ensures Preserved(rt, JoinWidths(tl, width, other), tr, rs, right)
  {
    WidthsAgree(rt, width, JoinWidths(tl, width, other), tl, ls, left);
    WidthsAgree(rt, other, JoinWidths(tl, width, other), tr, rs, right);
  }

  // ----- Whole plans ---------------------------------------------------------------------------

  lemma FeedsEarlier(rt: Runtime, before: Resolver, after: Resolver, db: Database)
    requires Extends(before, after) && Feeds(rt, after, db)
    ensures Feeds(rt, before, db)
  {}

  lemma {:induction false} AndAllColumns(combined: Expr, predicates: seq<Expr>)
    ensures forall c :: c in Columns(AndAll(combined, predicates)) ==>
              c in Columns(combined) || exists i :: 0 <= i < |predicates| && c in Columns(predicates[i])
    decreases |predicates|
  {
    if predicates != [] {
      AndAllColumns(Binary(combined, And, predicates[0]), predicates[1..]);
      assert forall i :: 0 <= i < |predicates| - 1 ==> predicates[1..][i] == predicates[i + 1];
    }
  }

  lemma IndexPredicateColumns(columns: seq<ColumnRef>, bounds: IndexBounds)
    requires IndexScanPredicate(columns, bounds).Some? && IndexScanPredicate(columns, bounds).value.Some?
    ensures forall c :: c in Columns(IndexScanPredicate(columns, bounds).value.value) ==> c in columns
  {
    match bounds
    case Scalar(Bound(lower, upper, lowerExclusive, upperExclusive)) =>
      var tests := [LowerTest(columns[0], lower, lowerExclusive), UpperTest(columns[0], upper, upperExclusive)];
      AndAllColumns(tests[1], tests[..1]);
      assert Columns(tests[0]) == Columns(Column(columns[0])) + Columns(Literal(lower));
      assert Columns(tests[1]) == Columns(Column(columns[0])) + Columns(Literal(upper));
    case Composite(Only(values)) => EqualTosColumns(columns, values);
    case Composite(Bound(lower, _, _, _)) => EqualTosColumns(columns, lower);
    case _ =>
  }

  lemma EqualTosColumns(columns: seq<ColumnRef>, values: seq<Value>)
    requires |columns| == |values| && columns != []
    ensures forall c :: c in Columns(CombineWithAnd(EqualTos(columns, values)).value) ==> c in columns
  {
    var tests := EqualTos(columns, values);
    var n := |tests| - 1;
    AndAllColumns(tests[n], tests[..n]);
    forall i | 0 <= i < |tests| ensures Columns(tests[i]) == {columns[i]} {}
  }

  lemma FilteredSourcePreserved(rt: Runtime, schemas: Schemas, db: Database, table: string, test: Option<Expr>,
                                keep: Env -> bool, r: Resolver)
    requires RowsFit(schemas, db) && CompileFilteredSource(rt.host, schemas, table, test, r).0.Some?
    requires Feeds(rt, CompileFilteredSource(rt.host, schemas, table, test, r).1, db)
    requires test.Some? ==> NamesAll([table], WidthIn(schemas), test.value)
    requires forall env :: env in Scan(db, table) ==> (keep(env) <==> test.None? || Accepts(rt.host, test.value)(env))
    ensures Preserved(rt, WidthIn(schemas), [table], FilterSeq(Scan(db, table), keep),
                      CompileFilteredSource(rt.host, schemas, table, test, r).0.value)
  {
    var c := CompileSource(schemas, table, r).0.value;
    SourcePreserved(rt, schemas, db, table, r);
    if test.Some? {
      FilterPreserved(rt, WidthIn(schemas), [table], Scan(db, table), c, test.value);
      FilterAgree(Scan(db, table), keep, Accepts(rt.host, test.value));
    } else {
      FilterAll(Scan(db, table), keep);
    }
  }

  lemma IndexScanPreserved(rt: Runtime, schemas: Schemas, db: Database, plan: Plan, r: Resolver)
    requires plan.IndexScan? && Relational(schemas, db, plan) && RowsFit(schemas, db)
    requires CompileLeaf(rt.host, schemas, plan, r).0.Some? && Feeds(rt, CompileLeaf(rt.host, schemas, plan, r).1, db)
    ensures Preserved(rt, WidthIn(schemas), TablesOf(plan), Meaning(rt.host, schemas, db, plan),
                      CompileLeaf(rt.host, schemas, plan, r).0.value)
  {
    var columns := LookupIndexColumns(schemas, plan.table, plan.index).value;
    var test := IndexScanPredicate(columns, plan.bounds).value;
    if test.Some? {
      IndexPredicateColumns(columns, plan.bounds);
    }
    forall env | env in Scan(db, plan.table)
      ensures KeyWithin(columns, plan.bounds)(env) <==> test.None? || Accepts(rt.host, test.value)(env)
    {
      if plan.bounds.Composite? && plan.bounds.ranges.Bound? {
        BoundTypes(db, WidthIn(schemas), plan.table, columns, plan.bounds.ranges.lower, env);
      }
      IndexPredicateMeaning(rt.host, columns, plan.bounds, env);
    }
    FilteredSourcePreserved(rt, schemas, db, plan.table, test, KeyWithin(columns, plan.bounds), r);
  }

  lemma BoundTypes(db: Database, width: Widths, table: string, columns: seq<ColumnRef>, key: seq<Value>, env: Env)
    requires forall row :: row in RowsOf(db, table) ==> |row| == width(table)
    requires forall c :: c in columns ==> c.table == table && c.index < width(table)
    requires OwnTypes(db, table, columns, key) && env in Scan(db, table)
    ensures forall i :: 0 <= i < |columns| && i < |key| ==>
              (Compare(KeyIn(env, columns)[i], key[i]) == Equal ==> KeyIn(env, columns)[i] == key[i])
  {
    var rows := RowsOf(db, table);
    var k :| 0 <= k < |rows| && env == Alone(table)(rows[k]);
    var row := rows[k];
    assert row in rows;
    forall i | 0 <= i < |columns| && i < |key|
      ensures Compare(KeyIn(env, columns)[i], key[i]) == Equal ==> KeyIn(env, columns)[i] == key[i]
    {
      assert columns[i] in columns && columns[i].index < |row|;
      AloneColumn(table, row, columns[i]);
    }
  }

  lemma AloneColumn(table: string, row: Row, c: ColumnRef)
    requires c.table == table && c.index < |row|
    ensures ColumnIn(Alone(table)(row))(c) == row[c.index]
  {
    var env := Alone(table)(row);
    assert c.table in env && env[c.table] == Some(row);
  }

  lemma KeyGetPreserved(rt: Runtime, schemas: Schemas, db: Database, table: string, index: string, keys: seq<Value>,
                        test: Expr, r: Resolver)
    requires RowsFit(schemas, db) && LookupIndexColumns(schemas, table, index).Some? && table != ""
    requires |LookupIndexColumns(schemas, table, index).value| == 1
    requires var c := LookupIndexColumns(schemas, table, index).value[0];
      Columns(test) == {c} && forall env :: KeyAmong([c], keys)(env) <==> Accepts(rt.host, test)(env)
    requires CompileFilteredSource(rt.host, schemas, table, Some(test), r).0.Some?
    requires Feeds(rt, CompileFilteredSource(rt.host, schemas, table, Some(test), r).1, db)
    ensures Preserved(rt, WidthIn(schemas), [table],
                      FilterSeq(Scan(db, table), KeyAmong(LookupIndexColumns(schemas, table, index).value, keys)),
                      CompileFilteredSource(rt.host, schemas, table, Some(test), r).0.value)
  {
    var columns := LookupIndexColumns(schemas, table, index).value;
    assert columns == [columns[0]] && columns[0] in columns;
    FilteredSourcePreserved(rt, schemas, db, table, Some(test), KeyAmong(columns, keys), r);
  }

  lemma LeafPreserved(rt: Runtime, schemas: Schemas, db: Database, plan: Plan, r: Resolver)
    requires plan.TableScan? || plan.IndexScan? || plan.IndexGet? || plan.IndexInGet?
    requires Relational(schemas, db, plan) && RowsFit(schemas, db)
    requires CompileLeaf(rt.host, schemas, plan, r).0.Some? && Feeds(rt, CompileLeaf(rt.host, schemas, plan, r).1, db)
    ensures Preserved(rt, WidthIn(schemas), TablesOf(plan), Meaning(rt.host, schemas, db, plan),
                      CompileLeaf(rt.host, schemas, plan, r).0.value)
  {
    match plan
    case TableScan(t) => SourcePreserved(rt, schemas, db, t, r);
    case IndexScan(_, _, _, _, _, _) => IndexScanPreserved(rt, schemas, db, plan, r);
    case IndexGet(t, index, key, _) => GetPreserved(rt, schemas, db, t, index, key, r);
    case IndexInGet(t, index, keys) => InGetPreserved(rt, schemas, db, t, index, keys, r);
  }

  lemma GetPreserved(rt: Runtime, schemas: Schemas, db: Database, table: string, index: string, key: Value, r: Resolver)
    requires RowsFit(schemas, db) && LookupIndexColumns(schemas, table, index).Some? && table != ""
    requires |LookupIndexColumns(schemas, table, index).value| == 1
    requires var test := EqualTo(LookupIndexColumns(schemas, table, index).value[0], key);
      && CompileFilteredSource(rt.host, schemas, table, Some(test), r).0.Some?
      && Feeds(rt, CompileFilteredSource(rt.host, schemas, table, Some(test), r).1, db)
    ensures var columns := LookupIndexColumns(schemas, table, index).value;
      Preserved(rt, WidthIn(schemas), [table], FilterSeq(Scan(db, table), KeyAmong(columns, [key])),
                CompileFilteredSource(rt.host, schemas, table, Some(EqualTo(columns[0], key)), r).0.value)
  {
    var c := LookupIndexColumns(schemas, table, index).value[0];
    forall env ensures KeyAmong([c], [key])(env) <==> Accepts(rt.host, EqualTo(c, key))(env) {
      EqualToMeaning(rt.host, c, key, env);
    }
    KeyGetPreserved(rt, schemas, db, table, index, [key], EqualTo(c, key), r);
  }

  lemma InGetPreserved(rt: Runtime, schemas: Schemas, db: Database, table: string, index: string, keys: seq<Value>, r: Resolver)
    requires RowsFit(schemas, db) && LookupIndexColumns(schemas, table, index).Some? && table != ""
    requires |LookupIndexColumns(schemas, table, index).value| == 1
    requires var test := AmongKeys(LookupIndexColumns(schemas, table, index).value[0], keys);
      && CompileFilteredSource(rt.host, schemas, table, Some(test), r).0.Some?
      && Feeds(rt, CompileFilteredSource(rt.host, schemas, table, Some(test), r).1, db)
    ensures var columns := LookupIndexColumns(schemas, table, index).value;
      Preserved(rt, WidthIn(schemas), [table], FilterSeq(Scan(db, table), KeyAmong(columns, keys)),
                CompileFilteredSource(rt.host, schemas, table, Some(AmongKeys(columns[0], keys)), r).0.value)
  {
    var c := LookupIndexColumns(schemas, table, index).value[0];
    forall env ensures KeyAmong([c], keys)(env) <==> Accepts(rt.host, AmongKeys(c, keys))(env) {
      AmongMeaning(rt.host, c, keys, env);
    }
    LiteralColumns(AmongKeys(c, keys).list);
    KeyGetPreserved(rt, schemas, db, table, index, keys, AmongKeys(c, keys), r);
  }

  lemma {:induction false} LiteralColumns(list: seq<Expr>)
    requires forall i :: 0 <= i < |list| ==> list[i].Literal?
    ensures ColumnsOf(list) == {}
  {
    if list != [] {
      LiteralColumns(list[1..]);
    }
  }

  /** The rows of the compiled dataflow are exactly the plan's environments, laid out by the computed
      layout. */
  lemma {:induction false} CompilePreserves(rt: Runtime, schemas: Schemas, db: Database, plan: Plan, r: Resolver)
    requires RowsFit(schemas, db) && Relational(schemas, db, plan)
    requires CompileNode(rt.host, schemas, plan, r).0.Some? && Feeds(rt, CompileNode(rt.host, schemas, plan, r).1, db)
    ensures Yields(rt, WidthsOf(schemas, plan), TablesOf(plan), Meaning(rt.host, schemas, db, plan),
                   CompileNode(rt.host, schemas, plan, r).0.value)
    ensures Whole(plan) ==>
              Preserved(rt, WidthsOf(schemas, plan), TablesOf(plan), Meaning(rt.host, schemas, db, plan),
                        CompileNode(rt.host, schemas, plan, r).0.value)
    decreases plan, 1
  {
    if plan.Filter? || plan.Project? || plan.NoOp? {
      UnaryPlanPreserved(rt, schemas, db, plan, r);
    } else {
      if plan.Join? || plan.CrossProduct? {
        JoinPlanPreserved(rt, schemas, db, plan, r);
      } else if plan.IndexNestedLoopJoin? {
        IndexJoinPreserved(rt, schemas, db, plan, r);
      } else {
        LeafPlanPreserved(rt, schemas, db, plan, r);
      }
      hide CompileNode, Meaning, Relational, TablesOf, WidthsOf, Covers, AllTyped, Rows, Feeds, RowsFit;
    }
  }

  lemma LeafPlanPreserved(rt: Runtime, schemas: Schemas, db: Database, plan: Plan, r: Resolver)
    requires RowsFit(schemas, db) && Relational(schemas, db, plan)
    requires !plan.Filter? && !plan.Project? && !plan.NoOp? && !plan.Join? && !plan.CrossProduct? && !plan.IndexNestedLoopJoin?
    requires CompileNode(rt.host, schemas, plan, r).0.Some? && Feeds(rt, CompileNode(rt.host, schemas, plan, r).1, db)
    ensures Preserved(rt, WidthsOf(schemas, plan), TablesOf(plan), Meaning(rt.host, schemas, db, plan),
                      CompileNode(rt.host, schemas, plan, r).0.value)
  {
    hide Covers, AllTyped, RowsFit, Rows, CompileLeaf;
    LeafPreserved(rt, schemas, db, plan, r);
  }

  lemma {:induction false} UnaryPlanPreserved(rt: Runtime, schemas: Schemas, db: Database, plan: Plan, r: Resolver)
    requires RowsFit(schemas, db) && Relational(schemas, db, plan) && (plan.Filter? || plan.Project? || plan.NoOp?)
    requires CompileNode(rt.host, schemas, plan, r).0.Some? && Feeds(rt, CompileNode(rt.host, schemas, plan, r).1, db)
    ensures Yields(rt, WidthsOf(schemas, plan), TablesOf(plan), Meaning(rt.host, schemas, db, plan),
                   CompileNode(rt.host, schemas, plan, r).0.value)
    ensures Whole(plan) ==>
              Preserved(rt, WidthsOf(schemas, plan), TablesOf(plan), Meaning(rt.host, schemas, db, plan),
                        CompileNode(rt.host, schemas, plan, r).0.value)
    decreases plan, 0
  {
    hide Covers, AllTyped, RowsFit, Rows, CompileLeaf;
    var input := plan.input;
    CompilePreserves(rt, schemas, db, input, r);
    var c, envs := CompileNode(rt.host, schemas, input, r).0.value, Meaning(rt.host, schemas, db, input);
    if plan.Filter? {
      FilterPreserved(rt, WidthsOf(schemas, input), TablesOf(input), envs, c, plan.test);
    } else if plan.Project? {
      ProjectPreserved(rt, WidthsOf(schemas, input), WidthsOf(schemas, plan), TablesOf(input), envs, c, plan.columns);
    }
  }

  lemma {:induction false} JoinPlanPreserved(rt: Runtime, schemas: Schemas, db: Database, plan: Plan, r: Resolver)
    requires RowsFit(schemas, db) && Relational(schemas, db, plan) && (plan.Join? || plan.CrossProduct?)
    requires CompileNode(rt.host, schemas, plan, r).0.Some? && Feeds(rt, CompileNode(rt.host, schemas, plan, r).1, db)
    ensures Preserved(rt, WidthsOf(schemas, plan), TablesOf(plan), Meaning(rt.host, schemas, db, plan),
                      CompileNode(rt.host, schemas, plan, r).0.value)
    decreases plan, 0
  {
    var (left, right, width) := (plan.left, plan.right, WidthsOf(schemas, plan));
    var l := CompileNode(rt.host, schemas, left, r);
    var c := CompileNode(rt.host, schemas, right, l.1);
    CompileExtends(rt.host, schemas, right, l.1);
    FeedsEarlier(rt, l.1, c.1, db);
    CompilePreserves(rt, schemas, db, left, r);
    CompilePreserves(rt, schemas, db, right, l.1);
    var ls, rs := Meaning(rt.host, schemas, db, left), Meaning(rt.host, schemas, db, right);
    SidesPreserved(rt, WidthsOf(schemas, left), WidthsOf(schemas, right), TablesOf(left), TablesOf(right), ls, rs,
                   l.0.value, c.0.value);
    if plan.Join? {
      JoinPreserved(rt, width, TablesOf(left), TablesOf(right), ls, rs, l.0.value, c.0.value,
                    plan.condition, plan.joinType, plan.outputTables);
    } else {
      CrossPreserved(rt, width, TablesOf(left), TablesOf(right), ls, rs, l.0.value, c.0.value);
    }
  }

  lemma {:induction false} SwapSides(lt: seq<string>, rt: seq<string>, width: Widths, condition: Expr)
    requires EquiCondition(lt, rt, width, condition)
    ensures EquiCondition(rt, lt, width, condition)
  {
    if condition.op == And {
      SwapSides(lt, rt, width, condition.left);
      SwapSides(lt, rt, width, condition.right);
    }
  }

  lemma {:induction false} IndexJoinPreserved(rt: Runtime, schemas: Schemas, db: Database, plan: Plan, r: Resolver)
    requires RowsFit(schemas, db) && Relational(schemas, db, plan) && plan.IndexNestedLoopJoin?
    requires CompileNode(rt.host, schemas, plan, r).0.Some? && Feeds(rt, CompileNode(rt.host, schemas, plan, r).1, db)
    ensures Preserved(rt, WidthsOf(schemas, plan), TablesOf(plan), Meaning(rt.host, schemas, db, plan),
                      CompileNode(rt.host, schemas, plan, r).0.value)
    decreases plan, 0
  {
    var (outer, inner, width) := (plan.outer, plan.innerTable, WidthsOf(schemas, plan));
    var o := CompileNode(rt.host, schemas, outer, r);
    var i := CompileSource(schemas, inner, o.1);
    FeedsEarlier(rt, o.1, i.1, db);
    CompilePreserves(rt, schemas, db, outer, r);
    SourcePreserved(rt, schemas, db, inner, o.1);
    var outers, inners := Meaning(rt.host, schemas, db, outer), Scan(db, inner);
    SidesPreserved(rt, WidthsOf(schemas, outer), WidthIn(schemas), TablesOf(outer), [inner], outers, inners,
                   o.0.value, i.0.value);
    if plan.outerIsLeft {
      JoinPreserved(rt, width, TablesOf(outer), [inner], outers, inners, o.0.value, i.0.value,
                    plan.condition, plan.joinType, plan.outputTables);
    } else {
      SwapSides(TablesOf(outer), [inner], width, plan.condition);
      JoinPreserved(rt, width, [inner], TablesOf(outer), inners, outers, i.0.value, o.0.value,
                    plan.condition, plan.joinType, plan.outputTables);
    }
  }

  /** At the root a projection yields the values of its expressions, also when its input has no tables
      left. */
  lemma ProjectionPreserves(rt: Runtime, schemas: Schemas, db: Database, input: Plan, columns: seq<Expr>, r: Resolver)
    requires RowsFit(schemas, db) && Relational(schemas, db, input)
    requires forall i :: 0 <= i < |columns| ==> NamesAll(TablesOf(input), WidthsOf(schemas, input), columns[i])
    requires CompileNode(rt.host, schemas, Project(input, columns), r).0.Some?
    requires Feeds(rt, CompileNode(rt.host, schemas, Project(input, columns), r).1, db)
    ensures Rows(rt, CompileNode(rt.host, schemas, Project(input, columns), r).0.value.dataflow)
         == MapSeq(Meaning(rt.host, schemas, db, input), TupleOf(rt.host, columns))
  {
    CompilePreserves(rt, schemas, db, input, r);
    ProjectedRows(rt, WidthsOf(schemas, input), TablesOf(input), Meaning(rt.host, schemas, db, input),
                  CompileNode(rt.host, schemas, input, r).0.value, columns);
  }

  /** Above a projection of several tables a join does not find the columns of its other side: the
      tables without columns are left out of the combined counts, and those behind them move up. Their
      positions are right exactly when the projected side had one table or the other side is empty. */
  lemma JoinOverProjectionExactly(tables: seq<string>, columns: nat, other: string, width: nat, index: nat)
    requires tables != [] && other !in tables && other != ""
    requires forall i :: 0 < i < |tables| ==> tables[i] != tables[0]
    ensures var left, right := Layout(tables, [columns]), TableLayout(other, width);
      Combined(left, right).ResolveColumnIndex(other, index) == left.TotalWidth() + right.ResolveColumnIndex(other, index)
      <==> |tables| == 1 || width == 0
  {
    var left, right := Layout(tables, [columns]), TableLayout(other, width);
    var rest := tables[1..];
    assert tables + [other] == [tables[0]] + (rest + [other]) && (tables + [other])[1..] == rest + [other];
    assert [columns][1..] == [];
    forall t | t != tables[0] ensures left.TableWidth(t) == None {
      NoCounts(rest, t);
    }
    LostCounts(left, right, rest, other, width);
    assert JoinedCounts(left, right, tables + [other]) == [columns, width];
    var counts := [columns, width];
    assert counts[1..] == [width];
    OffsetBehind(rest, other, width);
    assert OffsetOf(tables + [other], counts, other) == Some(columns + if rest == [] then 0 else width);
    assert Combined(left, right) == Layout(tables + [other], counts);
    assert Total([columns]) == columns + Total([]) && OffsetOf([other], [width], other) == Some(0);
  }

  lemma {:induction false} NoCounts(tables: seq<string>, table: string)
    ensures WidthOf(tables, [], table) == None
  {
    if tables != [] {
      NoCounts(tables[1..], table);
    }
  }

  lemma {:induction false} LostCounts(left: Layout, right: Layout, rest: seq<string>, other: string, width: nat)
    requires right == TableLayout(other, width) && other !in rest && left.TableWidth(other) == None
    requires forall t :: t in rest ==> left.TableWidth(t) == None
    ensures JoinedCounts(left, right, rest + [other]) == [width]
  {
    if rest == [] {
      assert [] + [other] == [other] && [other][1..] == [];
    } else {
      assert (rest + [other])[1..] == rest[1..] + [other];
      assert rest[0] in rest && rest[0] != other && [other][1..] == [];
      assert WidthOf([other], [width], rest[0]) == WidthOf([other][1..], Rest([width]), rest[0]);
      LostCounts(left, right, rest[1..], other, width);
    }
  }

  lemma {:induction false} OffsetBehind(rest: seq<string>, other: string, width: nat)
    requires other !in rest
    ensures OffsetOf(rest + [other], [width], other) == Some(if rest == [] then 0 else width)
    ensures OffsetOf(rest + [other], [], other) == Some(0)
  {
    if rest != [] {
      assert (rest + [other])[1..] == rest[1..] + [other];
      OffsetBehind(rest[1..], other, width);
    }
  }

  // ----- What joins ignore ---------------------------------------------------------------------

  /** A conjunct that yields no key positions leaves no trace in the compiled join. */
  lemma OtherConjunctsAreIgnored(left: Compiled, right: Compiled, condition: Expr, other: Expr, joinType: JoinType,
                                 output: seq<string>)
    requires EquiKeys(other, left.layout, right.layout) == ([], [])
    ensures CompileJoin(left, right, Binary(condition, And, other), joinType, output)
         == CompileJoin(left, right, condition, joinType, output)
  {
    var (l, r) := EquiKeys(condition, left.layout, right.layout);
    assert l + [] == l && r + [] == r;
  }
}
