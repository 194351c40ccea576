/** Physical plans (crates/query/src/planner/physical.rs, crates/query/src/planner/index_bounds.rs)
  and what they mean: a list of environments, each with one tuple per table. */
module Plans {
  import opened Options
  import opened Values
  import opened Expressions
  import opened Layouts
  import opened Joins

  // ----- Schemas -------------------------------------------------------------------------------

  datatype IndexDef = IndexDef(name: string, normalizedName: string, columns: seq<string>)

  datatype Schema = Schema(columns: seq<string>, indices: seq<IndexDef>, primaryKey: Option<IndexDef>)

  type Schemas = map<string, Schema>

  function PositionOf(names: seq<string>, name: string): (at: Option<nat>)
    ensures at.Some? ==> at.value < |names| && names[at.value] == name && name !in names[..at.value]
    ensures at.None? ==> name !in names
  {
    if names == [] then None
    else if names[0] == name then Some(0)
    else
      match PositionOf(names[1..], name)
      case None => None
      case Some(k) => Some(k + 1)
  }

  function FindIndex(indices: seq<IndexDef>, matches: IndexDef -> bool): Option<IndexDef> {
    if indices == [] then None
    else if matches(indices[0]) then Some(indices[0])
    else FindIndex(indices[1..], matches)
  }

  function OrElse<T>(a: Option<T>, b: Option<T>): Option<T> { if a.Some? then a else b }

  lemma {:induction false} FindsFirst(indices: seq<IndexDef>, matches: IndexDef -> bool)
    ensures match FindIndex(indices, matches)
      case None => forall i :: 0 <= i < |indices| ==> !matches(indices[i])
      case Some(d) => exists i :: 0 <= i < |indices| && indices[i] == d && matches(d) && forall k :: 0 <= k < i ==> !matches(indices[k])
  {
    if indices != [] && !matches(indices[0]) {
      var rest := indices[1..];
      FindsFirst(rest, matches);
      assert forall i :: 0 <= i < |rest| ==> rest[i] == indices[i + 1];
      if FindIndex(rest, matches).Some? {
        var i :| 0 <= i < |rest| && rest[i] == FindIndex(rest, matches).value && forall k :: 0 <= k < i ==> !matches(rest[k]);
        forall k | 0 <= k < i + 1 ensures !matches(indices[k]) {
          assert k > 0 ==> rest[k - 1] == indices[k];
        }
        assert indices[i + 1] == rest[i];
      } else {
        forall k | 0 <= k < |indices| ensures !matches(indices[k]) {
          assert k > 0 ==> rest[k - 1] == indices[k];
        }
      }
    }
  }

  function IndexNamed(schema: Schema, name: string): Option<IndexDef> {
    OrElse(FindIndex(schema.indices, (d: IndexDef) => d.name == name),
           OrElse(FindIndex(schema.indices, (d: IndexDef) => d.normalizedName == name),
                  match schema.primaryKey
                  case None => None
                  case Some(d) => if d.name == name || d.normalizedName == name then Some(d) else None))
  }

  /** An index is found by its name, else by its normalized name, else it is the primary key of either name. */
  lemma IndexFound(schema: Schema, name: string)
    ensures var named := exists i :: 0 <= i < |schema.indices| && schema.indices[i].name == name;
            var normalized := exists i :: 0 <= i < |schema.indices| && schema.indices[i].normalizedName == name;
      match IndexNamed(schema, name)
      case Some(d) =>
        if named then d in schema.indices && d.name == name
        else if normalized then d in schema.indices && d.normalizedName == name
        else schema.primaryKey == Some(d) && (d.name == name || d.normalizedName == name)
      case None =>
        && !named && !normalized
        && (schema.primaryKey.Some? ==> schema.primaryKey.value.name != name && schema.primaryKey.value.normalizedName != name)
  {
    FindsFirst(schema.indices, (d: IndexDef) => d.name == name);
    FindsFirst(schema.indices, (d: IndexDef) => d.normalizedName == name);
    hide FindIndex;
  }

  function ResolveColumns(table: string, schema: Schema, names: seq<string>): (columns: Option<seq<ColumnRef>>)
    ensures columns.Some? <==> forall i :: 0 <= i < |names| ==> names[i] in schema.columns
    ensures columns.Some? ==> |columns.value| == |names|
    ensures columns.Some? ==> forall c :: c in columns.value ==> c.table == table && c.index < |schema.columns|
    ensures columns.Some? ==> forall i :: 0 <= i < |names| ==>
              columns.value[i].column == names[i] && PositionOf(schema.columns, names[i]) == Some(columns.value[i].index)
  {
    if names == [] then Some([])
    else
      match (PositionOf(schema.columns, names[0]), ResolveColumns(table, schema, names[1..]))
      case (Some(at), Some(rest)) => Some([ColumnRef(table, names[0], at)] + rest)
      case (_, _) => None
  }

  function LookupIndexColumns(schemas: Schemas, table: string, index: string): (columns: Option<seq<ColumnRef>>)
    ensures columns.Some? ==> table in schemas
    ensures columns.Some? ==> forall c :: c in columns.value ==> c.table == table && c.index < |schemas[table].columns|
  {
    if table !in schemas then None
    else
      match IndexNamed(schemas[table], index)
      case None => None
      case Some(d) => ResolveColumns(table, schemas[table], d.columns)
  }

  function WidthIn(schemas: Schemas): Widths {
    (t: string) => if t in schemas then |schemas[t].columns| else 0
  }

  // ----- Index ranges --------------------------------------------------------------------------

  datatype KeyRange<K> =
    | All
    | Only(key: K)
    | LowerBound(bound: K, exclusive: bool)
    | UpperBound(bound: K, exclusive: bool)
    | Bound(lower: K, upper: K, lowerExclusive: bool, upperExclusive: bool)

  datatype IndexBounds = Unbounded | Scalar(range: KeyRange<Value>) | Composite(ranges: KeyRange<seq<Value>>)

  function CompareKeys(a: seq<Value>, b: seq<Value>): Ordering {
    if a == [] && b == [] then Equal
    else if a == [] then Less
    else if b == [] then Greater
    else
      match Compare(a[0], b[0])
      case Equal => CompareKeys(a[1..], b[1..])
      case other => other
  }

  predicate Above(o: Ordering, exclusive: bool) { if exclusive then o == Greater else o != Less }

  predicate Below(o: Ordering, exclusive: bool) { if exclusive then o == Less else o != Greater }

  /** Whether a key lies in the range (KeyRange::contains in crates/index/src/traits.rs). */
  predicate Contains<K(==)>(range: KeyRange<K>, key: K, compare: (K, K) -> Ordering) {
    match range
    case All => true
    case Only(k) => key == k
    case LowerBound(bound, exclusive) => Above(compare(key, bound), exclusive)
    case UpperBound(bound, exclusive) => Below(compare(key, bound), exclusive)
    case Bound(lower, upper, lowerExclusive, upperExclusive) =>
      Above(compare(key, lower), lowerExclusive) && Below(compare(key, upper), upperExclusive)
  }

  function CompareValues(): (Value, Value) -> Ordering { (a, b) => Compare(a, b) }

  function CompareTuples(): (seq<Value>, seq<Value>) -> Ordering { (a, b) => CompareKeys(a, b) }

  predicate InBounds(bounds: IndexBounds, key: seq<Value>) {
    match bounds
    case Unbounded => true
    case Scalar(range) => |key| == 1 && Contains(range, key[0], CompareValues())
    case Composite(range) => Contains(range, key, CompareTuples())
  }

  // ----- Plans ---------------------------------------------------------------------------------

  datatype JoinType = Inner | LeftOuter | RightOuter | FullOuter | Cross {
    predicate KeepsLeft() { LeftOuter? || FullOuter? }

    predicate KeepsRight() { RightOuter? || FullOuter? }
  }

  /** Hash, sort-merge and nested-loop joins are compiled alike and are one constructor, and so are
      the two GIN scans. */
  datatype Plan =
    | TableScan(table: string)
    | IndexScan(table: string, index: string, bounds: IndexBounds, limit: Option<nat>, offset: Option<nat>, reverse: bool)
    | IndexGet(table: string, index: string, key: Value, limit: Option<nat>)
    | IndexInGet(table: string, index: string, keys: seq<Value>)
    | GinIndexScan(table: string, recheck: Option<Expr>)
    | Filter(input: Plan, test: Expr)
    | Project(input: Plan, columns: seq<Expr>)
    | Join(left: Plan, right: Plan, condition: Expr, joinType: JoinType, outputTables: seq<string>)
    | IndexNestedLoopJoin(outer: Plan, innerTable: string, condition: Expr, joinType: JoinType, outerIsLeft: bool,
                          outputTables: seq<string>)
    | HashAggregate(input: Plan, groupBy: seq<Expr>, aggregates: seq<(AggregateFunc, Expr)>)
    | Sort(input: Plan)
    | TopN(input: Plan)
    | Limit(input: Plan)
    | CrossProduct(left: Plan, right: Plan)
    | Union(left: Plan, right: Plan)
    | NoOp(input: Plan)
    | Empty

  /** The tables of a plan's result, in order. */
  function TablesOf(plan: Plan): seq<string> {
    match plan
    case TableScan(t) => [t]
    case IndexScan(t, _, _, _, _, _) => [t]
    case IndexGet(t, _, _, _) => [t]
    case IndexInGet(t, _, _) => [t]
    case GinIndexScan(t, _) => [t]
    case Filter(input, _) => TablesOf(input)
    case NoOp(input) => TablesOf(input)
    case Join(_, _, _, _, output) => output
    case IndexNestedLoopJoin(_, _, _, _, _, output) => output
    case CrossProduct(left, right) => TablesOf(left) + TablesOf(right)
    case Project(input, _) => if TablesOf(input) == [] then [] else [TablesOf(input)[0]]
    case _ => []
  }

  /** How many columns each table has in a plan's result. A projection leaves its columns with the
      first table of its input. */
  function WidthsOf(schemas: Schemas, plan: Plan): Widths {
    match plan
    case Filter(input, _) => WidthsOf(schemas, input)
    case NoOp(input) => WidthsOf(schemas, input)
    case Project(_, columns) =>
      var n := |columns|;
      (t: string) => n
    case Join(left, right, _, _, _) => JoinWidths(TablesOf(left), WidthsOf(schemas, left), WidthsOf(schemas, right))
    case IndexNestedLoopJoin(outer, _, _, _, _, _) => JoinWidths(TablesOf(outer), WidthsOf(schemas, outer), WidthIn(schemas))
    case CrossProduct(left, right) => JoinWidths(TablesOf(left), WidthsOf(schemas, left), WidthsOf(schemas, right))
    case _ => WidthIn(schemas)
  }

  function JoinWidths(tables: seq<string>, width: Widths, other: Widths): Widths {
    (t: string) => if t in tables then width(t) else other(t)
  }

  /** No projection of several tables is on top: the compiled layout gives every table its columns. */
  predicate Whole(plan: Plan) {
    match plan
    case Filter(input, _) => Whole(input)
    case NoOp(input) => Whole(input)
    case Project(input, _) => Whole(input) && |TablesOf(input)| == 1
    case _ => true
  }

  // ----- Meaning -------------------------------------------------------------------------------

  type Database = map<string, seq<Row>>

  function RowsOf(db: Database, table: string): seq<Row> { if table in db then db[table] else [] }

  function Alone(table: string): Row -> Env { (row: Row) => map[table := Some(row)] }

  function Scan(db: Database, table: string): seq<Env> { MapSeq(RowsOf(db, table), Alone(table)) }

  /** The environments on which `e` is true. */
  function Accepts(host: Host, e: Expr): Env -> bool {
    (env: Env) => EvalWith(host, e, ColumnIn(env)) == Boolean(true)
  }

  function KeyIn(env: Env, columns: seq<ColumnRef>): (key: seq<Value>)
    ensures |key| == |columns|
  {
    seq(|columns|, i requires 0 <= i < |columns| => ColumnIn(env)(columns[i]))
  }

  function KeyWithin(columns: seq<ColumnRef>, bounds: IndexBounds): Env -> bool {
    (env: Env) => InBounds(bounds, KeyIn(env, columns))
  }

  function KeyAmong(columns: seq<ColumnRef>, keys: seq<Value>): Env -> bool {
    (env: Env) => |columns| == 1 && KeyIn(env, columns)[0] in keys
  }

  /** Whether an index scan meets the row behind the other one: a larger key when it ascends, a smaller one
      when it descends. */
  predicate Behind(columns: seq<ColumnRef>, reverse: bool, env: Env, other: Env) {
    CompareKeys(KeyIn(env, columns), KeyIn(other, columns)) == if reverse then Less else Greater
  }

  function PutByKey(columns: seq<ColumnRef>, reverse: bool, env: Env, sorted: seq<Env>): seq<Env> {
    if sorted == [] || !Behind(columns, reverse, env, sorted[0]) then [env] + sorted
    else [sorted[0]] + PutByKey(columns, reverse, env, sorted[1..])
  }

  /** The rows in the order of an index; rows with equal keys stay as they stand in the table
      (crates/index/src/btree/iter.rs). */
  function ByKey(columns: seq<ColumnRef>, reverse: bool, envs: seq<Env>): seq<Env> {
    if envs == [] then [] else PutByKey(columns, reverse, envs[0], ByKey(columns, reverse, envs[1..]))
  }

  /** The rows behind the first `offset` ones, at most `limit` of them. */
  function Sliced<T>(s: seq<T>, offset: Option<nat>, limit: Option<nat>): seq<T> {
    var skipped := if offset.None? then s else if offset.value <= |s| then s[offset.value..] else [];
    if limit.Some? && limit.value < |skipped| then skipped[..limit.value] else skipped
  }

  /** No slice is asked for, and no direction. */
  predicate WholeScan(limit: Option<nat>, offset: Option<nat>, reverse: bool) {
    limit == None && (offset == None || offset == Some(0)) && !reverse
  }

  /** What an index scan makes of the rows within its bounds. A scan that is asked for a slice or a direction
      yields them in index order; of a whole scan the order is left open, and the table's stands for it. */
  function Scanned(columns: seq<ColumnRef>, limit: Option<nat>, offset: Option<nat>, reverse: bool, envs: seq<Env>): seq<Env> {
    if WholeScan(limit, offset, reverse) then envs else Sliced(ByKey(columns, reverse, envs), offset, limit)
  }

  /** The missing side of an outer join. */
  function NoTuples(tables: seq<string>): Env { map t | t in tables :: None }

  /** The pairs on which a condition is true. */
  function Meets(host: Host, condition: Expr): (Env, Env) -> bool {
    (l: Env, r: Env) => EvalWith(host, condition, ColumnIn(l + r)) == Boolean(true)
  }

  function JoinEnvs(host: Host, condition: Expr, joinType: JoinType, lt: seq<string>, rt: seq<string>): Joiner<Env, Env, Env> {
    JoinWith(Meets(host, condition), joinType, lt, rt)
  }

  function JoinWith(on: (Env, Env) -> bool, joinType: JoinType, lt: seq<string>, rt: seq<string>): Joiner<Env, Env, Env> {
    Joiner(on,
           (l: Env, r: Env) => l + r,
           (l: Env) => l + NoTuples(rt),
           (r: Env) => NoTuples(lt) + r,
           joinType.KeepsLeft(),
           joinType.KeepsRight())
  }

  /** Two tuples that meet the condition, merged. */
  ghost predicate MergedPair(on: (Env, Env) -> bool, ls: seq<Env>, rs: seq<Env>, env: Env) {
    exists i, k :: 0 <= i < |ls| && 0 <= k < |rs| && on(ls[i], rs[k]) && env == ls[i] + rs[k]
  }

  /** A left tuple that meets it with no right one, with no tuples of the right side, */
  ghost predicate LonelyLeft(on: (Env, Env) -> bool, rt: seq<string>, ls: seq<Env>, rs: seq<Env>, env: Env) {
    exists i :: 0 <= i < |ls| && (forall k :: 0 <= k < |rs| ==> !on(ls[i], rs[k])) && env == ls[i] + NoTuples(rt)
  }

  /** and the other way round. */
  ghost predicate LonelyRight(on: (Env, Env) -> bool, lt: seq<string>, ls: seq<Env>, rs: seq<Env>, env: Env) {
    exists k :: 0 <= k < |rs| && (forall i :: 0 <= i < |ls| ==> !on(ls[i], rs[k])) && env == NoTuples(lt) + rs[k]
  }

  /** Which joins keep the tuples without a partner: those of the left side left and full joins, those of the
      right side right and full joins. */
  lemma JoinTypeHolds(on: (Env, Env) -> bool, joinType: JoinType, lt: seq<string>, rt: seq<string>, ls: seq<Env>, rs: seq<Env>, env: Env)
    ensures env in JoinSeq(JoinWith(on, joinType, lt, rt), ls, rs) <==>
              || MergedPair(on, ls, rs, env)
              || ((joinType == LeftOuter || joinType == FullOuter) && LonelyLeft(on, rt, ls, rs, env))
              || ((joinType == RightOuter || joinType == FullOuter) && LonelyRight(on, lt, ls, rs, env))
  {
    JoinHoldsExactly(JoinWith(on, joinType, lt, rt), ls, rs, env);
    LeftSide(on, joinType, lt, rt, ls, rs, env);
    RightSide(on, joinType, lt, rt, ls, rs, env);
    hide JoinSeq, MergedPair, LonelyLeft, LonelyRight, FromLeft, Unmatched, NoTuples;
  }

  lemma LeftSide(on: (Env, Env) -> bool, joinType: JoinType, lt: seq<string>, rt: seq<string>, ls: seq<Env>, rs: seq<Env>, env: Env)
    ensures (exists i :: 0 <= i < |ls| && FromLeft(JoinWith(on, joinType, lt, rt), ls[i], rs, env)) <==>
              || MergedPair(on, ls, rs, env)
              || ((joinType == LeftOuter || joinType == FullOuter) && LonelyLeft(on, rt, ls, rs, env))
  {
    hide NoTuples;
    var j := JoinWith(on, joinType, lt, rt);
    if i :| 0 <= i < |ls| && FromLeft(j, ls[i], rs, env) {
      if IsMatch(j, ls[i], rs, env) {
        var k :| 0 <= k < |rs| && j.on(ls[i], rs[k]) && env == j.merge(ls[i], rs[k]);
        assert on(ls[i], rs[k]) && env == ls[i] + rs[k];
      } else {
        assert forall k :: 0 <= k < |rs| ==> j.on(ls[i], rs[k]) == on(ls[i], rs[k]);
      }
    }
    if MergedPair(on, ls, rs, env) {
      var i, k :| 0 <= i < |ls| && 0 <= k < |rs| && on(ls[i], rs[k]) && env == ls[i] + rs[k];
      assert j.on(ls[i], rs[k]) && env == j.merge(ls[i], rs[k]);
      assert FromLeft(j, ls[i], rs, env);
    }
    if LonelyLeft(on, rt, ls, rs, env) {
      var i :| 0 <= i < |ls| && (forall k :: 0 <= k < |rs| ==> !on(ls[i], rs[k])) && env == ls[i] + NoTuples(rt);
      assert forall k :: 0 <= k < |rs| ==> j.on(ls[i], rs[k]) == on(ls[i], rs[k]);
      assert j.keepLeft ==> FromLeft(j, ls[i], rs, env);
    }
  }

  lemma RightSide(on: (Env, Env) -> bool, joinType: JoinType, lt: seq<string>, rt: seq<string>, ls: seq<Env>, rs: seq<Env>, env: Env)
    ensures var j := JoinWith(on, joinType, lt, rt);
      (j.keepRight && exists k :: 0 <= k < |rs| && Unmatched(j, ls, rs[k]) && env == j.padLeft(rs[k])) <==>
        (joinType == RightOuter || joinType == FullOuter) && LonelyRight(on, lt, ls, rs, env)
  {
    hide NoTuples;
    var j := JoinWith(on, joinType, lt, rt);
    forall k | 0 <= k < |rs|
      ensures Unmatched(j, ls, rs[k]) <==> forall i :: 0 <= i < |ls| ==> !on(ls[i], rs[k])
      ensures j.padLeft(rs[k]) == NoTuples(lt) + rs[k]
    {
      assert forall i :: 0 <= i < |ls| ==> j.on(ls[i], rs[k]) == on(ls[i], rs[k]);
    }
  }

  function Restrict(tables: seq<string>): Env -> Env {
    (env: Env) => map t | t in env && t in tables :: env[t]
  }

  function TupleOf(host: Host, columns: seq<Expr>): Env -> Row {
    (env: Env) => seq(|columns|, i requires 0 <= i < |columns| => EvalWith(host, columns[i], ColumnIn(env)))
  }

  /** The values of the projected expressions, as the tuple of `table`. */
  function ProjectEnv(host: Host, columns: seq<Expr>, table: string): Env -> Env {
    (env: Env) => map[table := Some(TupleOf(host, columns)(env))]
  }

  const ALWAYS: Expr := Literal(Boolean(true))

  /** The answer of a relational plan. An index scan returns the rows whose key lies in its bounds, sliced in
      index order, an index get those whose key equals the given one (or one of the given ones), up to its
      limit. */
  function Meaning(host: Host, schemas: Schemas, db: Database, plan: Plan): seq<Env> {
    match plan
    case TableScan(t) => Scan(db, t)
    case IndexScan(t, index, bounds, limit, offset, reverse) =>
      (match LookupIndexColumns(schemas, t, index)
       case None => []
       case Some(columns) =>
         Scanned(columns, limit, offset, reverse, FilterSeq(Scan(db, t), KeyWithin(columns, bounds))))
    case IndexGet(t, index, key, limit) =>
      (match LookupIndexColumns(schemas, t, index)
       case None => []
       case Some(columns) => Sliced(FilterSeq(Scan(db, t), KeyAmong(columns, [key])), None, limit))
    case IndexInGet(t, index, keys) =>
      (match LookupIndexColumns(schemas, t, index)
       case None => []
       case Some(columns) => FilterSeq(Scan(db, t), KeyAmong(columns, keys)))
    case Filter(input, test) => FilterSeq(Meaning(host, schemas, db, input), Accepts(host, test))
    case NoOp(input) => Meaning(host, schemas, db, input)
    case Project(input, columns) =>
      if TablesOf(input) == [] then []
      else MapSeq(Meaning(host, schemas, db, input), ProjectEnv(host, columns, TablesOf(input)[0]))
    case Join(left, right, condition, joinType, output) =>
      MapSeq(JoinSeq(JoinEnvs(host, condition, joinType, TablesOf(left), TablesOf(right)),
                     Meaning(host, schemas, db, left), Meaning(host, schemas, db, right)),
             Restrict(output))
    case IndexNestedLoopJoin(outer, inner, condition, joinType, outerIsLeft, output) =>
      var outerRows := Meaning(host, schemas, db, outer);
      MapSeq(if outerIsLeft
             then JoinSeq(JoinEnvs(host, condition, joinType, TablesOf(outer), [inner]), outerRows, Scan(db, inner))
             else JoinSeq(JoinEnvs(host, condition, joinType, [inner], TablesOf(outer)), Scan(db, inner), outerRows),
             Restrict(output))
    case CrossProduct(left, right) =>
      JoinSeq(JoinEnvs(host, ALWAYS, Inner, TablesOf(left), TablesOf(right)),
              Meaning(host, schemas, db, left), Meaning(host, schemas, db, right))
    case _ => []
  }

  // ----- The plans the compiler is proved for --------------------------------------------------

  ghost predicate Disjoint(a: seq<string>, b: seq<string>) { forall t :: t in a ==> t !in b }

  predicate SideColumn(tables: seq<string>, width: Widths, e: Expr) { e.Column? && Names(tables, width, e.column) }

  /** Conjunctions of equalities between a column of one side and a column of the other. */
  predicate EquiCondition(lt: seq<string>, rt: seq<string>, width: Widths, condition: Expr) {
    match condition
    case Binary(a, op, b) =>
      if op == And then EquiCondition(lt, rt, width, a) && EquiCondition(lt, rt, width, b)
      else
        && op == Eq
        && (|| (SideColumn(lt, width, a) && SideColumn(rt, width, b))
            || (SideColumn(rt, width, a) && SideColumn(lt, width, b)))
    case _ => false
  }

  ghost predicate GoodJoin(lt: seq<string>, rt: seq<string>, output: seq<string>) {
    && Disjoint(lt, rt)
    && "" !in output
    && (forall t :: t in output ==> t in lt || t in rt)
  }

  /** The bound of a composite scan has the types of its key columns: equal in the order means equal. */
  ghost predicate OwnTypes(db: Database, table: string, columns: seq<ColumnRef>, key: seq<Value>) {
    forall row, i :: row in RowsOf(db, table) && 0 <= i < |columns| && i < |key| && columns[i].index < |row| ==>
      (Compare(row[columns[i].index], key[i]) == Equal ==> row[columns[i].index] == key[i])
  }

  ghost predicate GoodBounds(schemas: Schemas, db: Database, table: string, index: string, bounds: IndexBounds) {
    bounds.Composite? && bounds.ranges.Bound? ==>
      var columns := LookupIndexColumns(schemas, table, index);
      columns.Some? ==> OwnTypes(db, table, columns.value, bounds.ranges.lower)
  }

  ghost predicate Relational(schemas: Schemas, db: Database, plan: Plan) {
    match plan
    case TableScan(t) => t != ""
    case IndexScan(t, index, bounds, _, _, _) => t != "" && GoodBounds(schemas, db, t, index, bounds)
    case IndexGet(t, _, _, _) => t != ""
    case IndexInGet(t, _, _) => t != ""
    case Filter(input, test) =>
      Relational(schemas, db, input) && NamesAll(TablesOf(input), WidthsOf(schemas, input), test)
    case NoOp(input) => Relational(schemas, db, input)
    case Project(input, columns) =>
      && Relational(schemas, db, input) && TablesOf(input) != []
      && forall i :: 0 <= i < |columns| ==> NamesAll(TablesOf(input), WidthsOf(schemas, input), columns[i])
    case Join(left, right, condition, _, output) =>
      && Relational(schemas, db, left) && Relational(schemas, db, right)
      && Whole(left) && Whole(right)
      && GoodJoin(TablesOf(left), TablesOf(right), output)
      && EquiCondition(TablesOf(left), TablesOf(right), WidthsOf(schemas, plan), condition)
    case IndexNestedLoopJoin(outer, inner, condition, _, _, output) =>
      && Relational(schemas, db, outer) && Whole(outer) && inner != ""
      && GoodJoin(TablesOf(outer), [inner], output)
      && EquiCondition(TablesOf(outer), [inner], WidthsOf(schemas, plan), condition)
    case CrossProduct(left, right) =>
      && Relational(schemas, db, left) && Relational(schemas, db, right)
      && Whole(left) && Whole(right)
      && Disjoint(TablesOf(left), TablesOf(right))
    case _ => false
  }

  /** Every stored row has as many values as its table has columns. */
  ghost predicate RowsFit(schemas: Schemas, db: Database) {
    forall t, row :: t in schemas && row in RowsOf(db, t) ==> |row| == WidthIn(schemas)(t)
  }

  ghost predicate AllTyped(tables: seq<string>, width: Widths, envs: seq<Env>) {
    forall env :: env in envs ==> Typed(env, tables, width)
  }
}
