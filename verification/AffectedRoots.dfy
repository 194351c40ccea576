/** From changed rows to the root rows they can affect
  (crates/database/src/reactive_bridge.rs, `collect_affected_root_row_ids`).

  Changed rows spread over the edges of the dependency graph: a dirty row passes its join values on
  and makes every row with a matching value dirty in turn. */
module AffectedRoots {
  import opened Options
  import opened Values
  import opened DependencyGraph

  type RowId = nat
  type Tuple = seq<Value>

  /** The rows of one table by id. */
  datatype Store = Store(rows: map<RowId, Tuple>)

  type Cache = map<string, Store>

  /** The row images carried by the queued deltas of each table. */
  type Deltas = map<TableId, seq<Tuple>>

  type Dirty = map<TableId, set<RowId>>

  /** How a lookup compares a stored value with a join value: an index by the key order, a scan by
      SQL equality. */
  predicate Matches(lookup: Lookup, stored: Value, value: Value) {
    if lookup.ScanFallback? then SqlEq(stored, value) else Compare(stored, value) == Equal
  }

  /** All lookup primitives find the same exactly when it is not an integer meeting an equal float. */
  lemma LookupsAgree(stored: Value, value: Value)
    ensures (forall lookup: Lookup, lookup': Lookup :: Matches(lookup, stored, value) <==> Matches(lookup', stored, value))
       <==> !(stored.Float64? != value.Float64? && Compare(stored, value) == Equal)
  {
    SqlEqVersusCompare(stored, value);
    assert Matches(PrimaryKey, stored, value) <==> Compare(stored, value) == Equal;
    assert Matches(ScanFallback, stored, value) <==> SqlEq(stored, value);
    assert SqlEq(stored, value) ==> stored.Float64? == value.Float64?;
  }

  function ColumnOf(row: Tuple, column: nat): Value {
    if column < |row| then row[column] else Null
  }

  /** The join values of the given rows and of the delta images, NULL excepted. */
  function JoinValues(store: Store, ids: set<RowId>, images: seq<Tuple>, column: nat): set<Value> {
    (set id | id in ids && id in store.rows && ColumnOf(store.rows[id], column) != Null
       :: ColumnOf(store.rows[id], column))
    + (set i | 0 <= i < |images| && ColumnOf(images[i], column) != Null :: ColumnOf(images[i], column))
  }

  function IdSet(ids: seq<RowId>): set<RowId> { set id | id in ids }

  method CollectJoinValues(store: Store, ids: seq<RowId>, images: seq<Tuple>, column: nat) returns (values: set<Value>)
    ensures values == JoinValues(store, IdSet(ids), images, column)
  {
    values := {};
    for i := 0 to |ids|
      invariant values == JoinValues(store, IdSet(ids[..i]), [], column)
    {
      assert ids[..i + 1] == ids[..i] + [ids[i]];
      if ids[i] in store.rows {
        var row := store.rows[ids[i]];
        if column < |row| && !row[column].Null? {
          values := values + {row[column]};
        }
      }
    }
    assert ids[..|ids|] == ids;
    for i := 0 to |images|
      invariant values == JoinValues(store, IdSet(ids), images[..i], column)
    {
      ghost var fewer, more := images[..i], images[..i + 1];
      assert forall j :: 0 <= j < i ==> fewer[j] == more[j] == images[j];
      assert more[i] == images[i];
      if column < |images[i]| && !images[i][column].Null? {
        values := values + {images[i][column]};
      }
    }
    assert images[..|images|] == images;
  }

  /** The rows of the edge's target whose column matches one of the values. */
  function MatchingRows(store: Store, edge: Edge, values: set<Value>): set<RowId> {
    set id | id in store.rows && edge.targetColumn < |store.rows[id]|
             && exists v :: v in values && Matches(edge.lookup, store.rows[id][edge.targetColumn], v)
  }

  // ----- Reachability of rows ------------------------------------------------------------------

  datatype Node = Node(table: TableId, row: RowId)

  /** Everything the collection reads. */
  datatype Context = Context(cache: Cache, graph: Graph, deltas: Deltas) {
    function ImagesOf(table: TableId): seq<Tuple> { if table in deltas then deltas[table] else [] }

    predicate HasStore(table: TableId) { table in graph.names && graph.names[table] in cache }

    function StoreOf(table: TableId): Store
      requires HasStore(table)
    {
      cache[graph.names[table]]
    }
  }

  /** A dirty row `from` makes `to` dirty over one edge: `to` matches a join value of `from`'s stored
      row, or of a delta image of its table. */
  ghost predicate Link(ctx: Context, from: Node, to: Node) {
    && ctx.HasStore(from.table)
    && exists e :: e in EdgesOf(ctx.graph.edges, from.table) && e.target == to.table && LinkOver(ctx, from, e, to.row)
  }

  ghost predicate LinkOver(ctx: Context, from: Node, e: Edge, row: RowId) {
    && ctx.HasStore(from.table) && e.targetTable in ctx.cache
    && row in MatchingRows(ctx.cache[e.targetTable], e,
                           JoinValues(ctx.StoreOf(from.table), {from.row}, ctx.ImagesOf(from.table), e.sourceColumn))
  }

  /** `v` is a value that a dirty row hands on from `column`: its own, if it is stored, or that of a
      recorded image of its table. NULL is never handed on. */
  ghost predicate HandsOn(ctx: Context, from: Node, column: nat, v: Value)
    requires ctx.HasStore(from.table)
  {
    var rows, images := ctx.StoreOf(from.table).rows, ctx.ImagesOf(from.table);
    && !v.Null?
    && (|| (from.row in rows && column < |rows[from.row]| && rows[from.row][column] == v)
        || exists i :: 0 <= i < |images| && column < |images[i]| && images[i][column] == v)
  }

  /** `row` of the edge's target is one that its lookup finds for `v`. */
  ghost predicate Finds(ctx: Context, e: Edge, v: Value, row: RowId) {
    && e.targetTable in ctx.cache && row in ctx.cache[e.targetTable].rows
    && var stored := ctx.cache[e.targetTable].rows[row];
    && e.targetColumn < |stored| && Matches(e.lookup, stored[e.targetColumn], v)
  }

  /** A dirty row makes another dirty exactly when some edge between their tables finds the other by a
      value that is not NULL and that the row hands on. */
  lemma LinkExactly(ctx: Context, from: Node, to: Node)
    ensures Link(ctx, from, to)
       <==> (&& ctx.HasStore(from.table)
             && exists e, v :: e in EdgesOf(ctx.graph.edges, from.table) && e.target == to.table
                               && HandsOn(ctx, from, e.sourceColumn, v) && Finds(ctx, e, v, to.row))
  {
    hide Matches, EdgesOf;
    if ctx.HasStore(from.table) {
      forall e ensures LinkOver(ctx, from, e, to.row)
                  <==> exists v :: HandsOn(ctx, from, e.sourceColumn, v) && Finds(ctx, e, v, to.row)
      {
        LinkOverExactly(ctx, from, e, to.row);
      }
    }
  }

  lemma LinkOverExactly(ctx: Context, from: Node, e: Edge, row: RowId)
    requires ctx.HasStore(from.table)
    ensures LinkOver(ctx, from, e, row) <==> exists v :: HandsOn(ctx, from, e.sourceColumn, v) && Finds(ctx, e, v, row)
  {
    hide Matches;
    var values := JoinValues(ctx.StoreOf(from.table), {from.row}, ctx.ImagesOf(from.table), e.sourceColumn);
    forall v ensures v in values <==> HandsOn(ctx, from, e.sourceColumn, v) {
      HandedOnExactly(ctx, from, e.sourceColumn, v);
    }
    if v :| HandsOn(ctx, from, e.sourceColumn, v) && Finds(ctx, e, v, row) {
      assert v in values && Matches(e.lookup, ctx.cache[e.targetTable].rows[row][e.targetColumn], v);
    }
    if LinkOver(ctx, from, e, row) {
      var v :| v in values && Matches(e.lookup, ctx.cache[e.targetTable].rows[row][e.targetColumn], v);
      assert HandsOn(ctx, from, e.sourceColumn, v) && Finds(ctx, e, v, row);
    }
  }

  lemma HandedOnExactly(ctx: Context, from: Node, column: nat, v: Value)
    requires ctx.HasStore(from.table)
    ensures v in JoinValues(ctx.StoreOf(from.table), {from.row}, ctx.ImagesOf(from.table), column)
       <==> HandsOn(ctx, from, column, v)
  {
    var rows, images := ctx.StoreOf(from.table).rows, ctx.ImagesOf(from.table);
    var values := JoinValues(ctx.StoreOf(from.table), {from.row}, images, column);
    if from.row in rows && column < |rows[from.row]| && rows[from.row][column] == v && !v.Null? {
      assert ColumnOf(rows[from.row], column) in values;
    }
    if i :| 0 <= i < |images| && column < |images[i]| && images[i][column] == v && !v.Null? {
      assert ColumnOf(images[i], column) in values;
    }
  }

  ghost predicate Changed(ctx: Context, changes: Dirty, node: Node) {
    node.table in ctx.graph.names && node.table in changes && node.row in changes[node.table]
  }

  /** A chain of join-value matches from a changed row. */
  ghost predicate Chain(ctx: Context, changes: Dirty, chain: seq<Node>) {
    && |chain| > 0 && Changed(ctx, changes, chain[0])
    && forall i :: 0 <= i < |chain| - 1 ==> Link(ctx, chain[i], chain[i + 1])
  }

  ghost predicate Affected(ctx: Context, changes: Dirty, node: Node) {
    exists chain :: Chain(ctx, changes, chain) && chain[|chain| - 1] == node
  }

  lemma AffectedStep(ctx: Context, changes: Dirty, from: Node, to: Node)
    requires Affected(ctx, changes, from) && Link(ctx, from, to)
    ensures Affected(ctx, changes, to)
  {
    var chain :| Chain(ctx, changes, chain) && chain[|chain| - 1] == from;
    var longer := chain + [to];
    forall i | 0 <= i < |longer| - 1
      ensures Link(ctx, longer[i], longer[i + 1])
    {
      if i < |chain| - 1 {
        assert Link(ctx, chain[i], chain[i + 1]);
      }
    }
    assert Chain(ctx, changes, longer);
  }

  // ----- The worklist --------------------------------------------------------------------------

  function RowsOf(dirty: Dirty, table: TableId): set<RowId> {
    if table in dirty then dirty[table] else {}
  }

  /** What edge `e` of `table` makes dirty when `rows` of `table` are. */
  ghost predicate EdgeClosed(ctx: Context, dirty: Dirty, table: TableId, rows: set<RowId>, e: Edge) {
    forall row, to :: row in rows && LinkOver(ctx, Node(table, row), e, to) ==> to in RowsOf(dirty, e.target)
  }

  ghost predicate TableClosed(ctx: Context, dirty: Dirty, table: TableId) {
    forall e :: e in EdgesOf(ctx.graph.edges, table) ==> EdgeClosed(ctx, dirty, table, RowsOf(dirty, table), e)
  }

  ghost predicate Queue(dirty: Dirty, queue: seq<TableId>) {
    && (forall i, j :: 0 <= i < j < |queue| ==> queue[i] != queue[j])
    && (forall i :: 0 <= i < |queue| ==> queue[i] in dirty)
  }

  /** Changed rows are dirty, and nothing is dirty without a chain. */
  ghost predicate Justified(ctx: Context, changes: Dirty, dirty: Dirty) {
    && (forall node :: Changed(ctx, changes, node) ==> node.row in RowsOf(dirty, node.table))
    && (forall node: Node {:trigger Affected(ctx, changes, node)} ::
          node.row in RowsOf(dirty, node.table) ==> Affected(ctx, changes, node))
  }

  /** Only queued tables may still have matches to pass on. */
  ghost predicate Worklist(ctx: Context, changes: Dirty, dirty: Dirty, queue: seq<TableId>) {
    && Queue(dirty, queue) && Justified(ctx, changes, dirty)
    && (forall table :: table !in queue && ctx.HasStore(table) ==> TableClosed(ctx, dirty, table))
  }

  /** With an empty worklist the dirty rows are exactly the affected ones. */
  lemma {:induction false} ClosedIsAffected(ctx: Context, changes: Dirty, dirty: Dirty, chain: seq<Node>)
    requires Worklist(ctx, changes, dirty, []) && Chain(ctx, changes, chain)
    ensures chain[|chain| - 1].row in RowsOf(dirty, chain[|chain| - 1].table)
  {
    var n := |chain| - 1;
    if n > 0 {
      var front := chain[..n];
      forall i | 0 <= i < |front| - 1
        ensures Link(ctx, front[i], front[i + 1])
      {
        assert Link(ctx, chain[i], chain[i + 1]);
      }
      ClosedIsAffected(ctx, changes, dirty, front);
      assert Link(ctx, chain[n - 1], chain[n]);
      var e :| e in EdgesOf(ctx.graph.edges, chain[n - 1].table) && e.target == chain[n].table
               && LinkOver(ctx, chain[n - 1], e, chain[n].row);
      assert TableClosed(ctx, dirty, chain[n - 1].table);
      assert EdgeClosed(ctx, dirty, chain[n - 1].table, RowsOf(dirty, chain[n - 1].table), e);
    }
  }

  /** Passing on all dirty rows at once is passing on each of them. */
  lemma MatchesFromSome(ctx: Context, table: TableId, rows: set<RowId>, e: Edge, to: RowId)
    requires ctx.HasStore(table) && e.targetTable in ctx.cache && rows != {}
    ensures to in MatchingRows(ctx.cache[e.targetTable], e, JoinValues(ctx.StoreOf(table), rows, ctx.ImagesOf(table), e.sourceColumn))
       <==> exists row :: row in rows && LinkOver(ctx, Node(table, row), e, to)
  {
    var store, images, target := ctx.StoreOf(table), ctx.ImagesOf(table), ctx.cache[e.targetTable];
    var all := JoinValues(store, rows, images, e.sourceColumn);
    if to in MatchingRows(target, e, all) {
      var v :| v in all && Matches(e.lookup, target.rows[to][e.targetColumn], v);
      var row :| row in rows && v in JoinValues(store, {row}, images, e.sourceColumn);
      assert LinkOver(ctx, Node(table, row), e, to);
    }
    if row :| row in rows && LinkOver(ctx, Node(table, row), e, to) {
      assert JoinValues(store, {row}, images, e.sourceColumn) <= all;
    }
  }

  /** Every row that can become dirty. */
  ghost function Universe(ctx: Context, changes: Dirty): set<Node> {
    var targets := set t, e | t in ctx.graph.edges && e in ctx.graph.edges[t] :: e.target;
    (set t, r | t in changes && r in changes[t] :: Node(t, r))
    + (set t, name, r | t in targets && name in ctx.cache && r in ctx.cache[name].rows :: Node(t, r))
  }

  ghost function DirtyNodes(dirty: Dirty): set<Node> {
    set t, r | t in dirty && r in dirty[t] :: Node(t, r)
  }

  ghost predicate Grows(dirty: Dirty, dirty': Dirty) {
    forall t :: RowsOf(dirty, t) <= RowsOf(dirty', t)
  }

  lemma GrowthKeepsClosed(ctx: Context, dirty: Dirty, dirty': Dirty, table: TableId)
    requires Grows(dirty, dirty') && RowsOf(dirty', table) == RowsOf(dirty, table) && TableClosed(ctx, dirty, table)
    ensures TableClosed(ctx, dirty', table)
  {
    forall e | e in EdgesOf(ctx.graph.edges, table)
      ensures EdgeClosed(ctx, dirty', table, RowsOf(dirty', table), e)
    {
      assert EdgeClosed(ctx, dirty, table, RowsOf(dirty, table), e);
    }
  }

  ghost predicate OthersClosed(ctx: Context, dirty: Dirty, queue: seq<TableId>, table: TableId) {
    forall t :: t !in queue && t != table && ctx.HasStore(t) ==> TableClosed(ctx, dirty, t)
  }

  ghost predicate EdgesClosed(ctx: Context, dirty: Dirty, table: TableId, rows: set<RowId>, done: nat)
    requires done <= |EdgesOf(ctx.graph.edges, table)|
  {
    forall k :: 0 <= k < done ==> EdgeClosed(ctx, dirty, table, rows, EdgesOf(ctx.graph.edges, table)[k])
  }

  ghost predicate Passing(dirty: Dirty, queue: seq<TableId>, table: TableId, rows: set<RowId>) {
    rows <= RowsOf(dirty, table) && (table !in queue ==> RowsOf(dirty, table) == rows)
  }

  /** The worklist while `table`, just taken off the queue, passes on `rows`; its first `done` edges
      are through. */
  ghost predicate Spreading(ctx: Context, changes: Dirty, dirty: Dirty, queue: seq<TableId>, table: TableId,
                            rows: set<RowId>, done: nat)
    requires done <= |EdgesOf(ctx.graph.edges, table)|
  {
    && Queue(dirty, queue) && Justified(ctx, changes, dirty)
    && OthersClosed(ctx, dirty, queue, table) && EdgesClosed(ctx, dirty, table, rows, done)
    && Passing(dirty, queue, table, rows)
  }

  /** `matching` is what edge `e` reaches from `rows`. */
  ghost predicate ReachedBy(ctx: Context, table: TableId, rows: set<RowId>, e: Edge, matching: set<RowId>) {
    forall to :: to in matching <==> exists row :: row in rows && LinkOver(ctx, Node(table, row), e, to)
  }

  lemma MatchingIsReached(ctx: Context, table: TableId, rows: set<RowId>, e: Edge)
    requires ctx.HasStore(table) && e.targetTable in ctx.cache && rows != {}
    ensures ReachedBy(ctx, table, rows, e,
                      MatchingRows(ctx.cache[e.targetTable], e, JoinValues(ctx.StoreOf(table), rows, ctx.ImagesOf(table), e.sourceColumn)))
  {
    var matching := MatchingRows(ctx.cache[e.targetTable], e, JoinValues(ctx.StoreOf(table), rows, ctx.ImagesOf(table), e.sourceColumn));
    forall to
      ensures to in matching <==> exists row :: row in rows && LinkOver(ctx, Node(table, row), e, to)
    {
      MatchesFromSome(ctx, table, rows, e, to);
    }
  }

  /** Without join values nothing is reached. */
  lemma NothingReached(ctx: Context, table: TableId, rows: set<RowId>, e: Edge)
    requires ctx.HasStore(table) && rows != {}
    requires JoinValues(ctx.StoreOf(table), rows, ctx.ImagesOf(table), e.sourceColumn) == {}
    ensures ReachedBy(ctx, table, rows, e, {})
  {
    if e.targetTable in ctx.cache {
      MatchingIsReached(ctx, table, rows, e);
    }
  }

  ghost predicate Adds(dirty: Dirty, target: TableId, matching: set<RowId>, dirty': Dirty) {
    && dirty.Keys <= dirty'.Keys
    && forall t :: RowsOf(dirty', t) == RowsOf(dirty, t) + if t == target then matching else {}
  }

  lemma AddedAreAffected(ctx: Context, changes: Dirty, dirty: Dirty, table: TableId, rows: set<RowId>, e: Edge,
                         matching: set<RowId>, dirty': Dirty)
    requires e in EdgesOf(ctx.graph.edges, table) && rows <= RowsOf(dirty, table)
    requires ReachedBy(ctx, table, rows, e, matching) && Adds(dirty, e.target, matching, dirty')
    requires Justified(ctx, changes, dirty)
    ensures Justified(ctx, changes, dirty')
  {
    forall node: Node | node.row in RowsOf(dirty', node.table)
      ensures Affected(ctx, changes, node)
    {
      if node.row !in RowsOf(dirty, node.table) {
        var row :| row in rows && LinkOver(ctx, Node(table, row), e, node.row);
        assert Node(table, row).row in RowsOf(dirty, Node(table, row).table);
        assert Link(ctx, Node(table, row), node);
        AffectedStep(ctx, changes, Node(table, row), node);
      }
    }
  }

  lemma SpreadOne(ctx: Context, changes: Dirty, dirty: Dirty, queue: seq<TableId>, table: TableId, rows: set<RowId>,
                  k: nat, matching: set<RowId>, dirty': Dirty, queue': seq<TableId>)
    requires k < |EdgesOf(ctx.graph.edges, table)| && Spreading(ctx, changes, dirty, queue, table, rows, k)
    requires
      var e := EdgesOf(ctx.graph.edges, table)[k];
      && ReachedBy(ctx, table, rows, e, matching) && Adds(dirty, e.target, matching, dirty')
      && queue' == (if !(matching <= RowsOf(dirty, e.target)) && e.target !in queue then queue + [e.target] else queue)
      && (queue' != queue ==> e.target in dirty')
    ensures Spreading(ctx, changes, dirty', queue', table, rows, k + 1)
  {
    var e := EdgesOf(ctx.graph.edges, table)[k];
    AddedAreAffected(ctx, changes, dirty, table, rows, e, matching, dirty');
    OthersStayClosed(ctx, dirty, queue, table, e.target, matching, dirty', queue');
    EdgesStayClosed(ctx, dirty, table, rows, k, matching, dirty');
    assert RowsOf(dirty', table) == RowsOf(dirty, table) + if table == e.target then matching else {};
  }

  lemma OthersStayClosed(ctx: Context, dirty: Dirty, queue: seq<TableId>, table: TableId, target: TableId,
                         matching: set<RowId>, dirty': Dirty, queue': seq<TableId>)
    requires OthersClosed(ctx, dirty, queue, table)
    requires Adds(dirty, target, matching, dirty')
    requires forall t :: t in queue ==> t in queue'
    requires !(matching <= RowsOf(dirty, target)) ==> target in queue'
    ensures OthersClosed(ctx, dirty', queue', table)
  {
    forall t | t !in queue' && t != table && ctx.HasStore(t)
      ensures TableClosed(ctx, dirty', t)
    {
      assert RowsOf(dirty', t) == RowsOf(dirty, t);
      GrowthKeepsClosed(ctx, dirty, dirty', t);
    }
  }

  lemma EdgesStayClosed(ctx: Context, dirty: Dirty, table: TableId, rows: set<RowId>, k: nat, matching: set<RowId>, dirty': Dirty)
    requires k < |EdgesOf(ctx.graph.edges, table)|
    requires EdgesClosed(ctx, dirty, table, rows, k)
    requires ReachedBy(ctx, table, rows, EdgesOf(ctx.graph.edges, table)[k], matching)
    requires Adds(dirty, EdgesOf(ctx.graph.edges, table)[k].target, matching, dirty')
    ensures EdgesClosed(ctx, dirty', table, rows, k + 1)
  {
    var out := EdgesOf(ctx.graph.edges, table);
    forall j | 0 <= j < k + 1
      ensures EdgeClosed(ctx, dirty', table, rows, out[j])
    {
      if j < k {
        assert EdgeClosed(ctx, dirty, table, rows, out[j]);
      }
    }
  }

  /** What the collection cannot follow: a row of a table without a store, a row that is gone and left no
      delta image behind, or a row with a join value for a table without a store. */
  ghost predicate Blocked(ctx: Context, node: Node) {
    && node.table in ctx.graph.names
    && (|| !ctx.HasStore(node.table)
        || (node.table != ctx.graph.root && node.row !in ctx.StoreOf(node.table).rows && ctx.ImagesOf(node.table) == [])
        || exists e :: e in EdgesOf(ctx.graph.edges, node.table) && NoTarget(ctx, node, e))
  }

  ghost predicate NoTarget(ctx: Context, node: Node, e: Edge)
    requires ctx.HasStore(node.table)
  {
    && e.targetTable !in ctx.cache
    && JoinValues(ctx.StoreOf(node.table), {node.row}, ctx.ImagesOf(node.table), e.sourceColumn) != {}
  }

  ghost predicate Untraceable(ctx: Context, changes: Dirty) {
    exists node: Node :: Affected(ctx, changes, node) && Blocked(ctx, node)
  }

  /** No dirty row outside the queue and outside `table` is blocked. */
  ghost predicate OthersFree(ctx: Context, dirty: Dirty, queue: seq<TableId>, table: Option<TableId>) {
    forall t, row :: t !in queue && table != Some(t) && row in RowsOf(dirty, t) ==> !Blocked(ctx, Node(t, row))
  }

  /** The rows are there or left images, and the first `done` edges do not block them. */
  ghost predicate RowsFree(ctx: Context, table: TableId, rows: set<RowId>, done: nat)
    requires ctx.HasStore(table) && done <= |EdgesOf(ctx.graph.edges, table)|
  {
    && (table == ctx.graph.root || rows <= ctx.StoreOf(table).rows.Keys || ctx.ImagesOf(table) != [])
    && forall k, row :: 0 <= k < done && row in rows ==> !NoTarget(ctx, Node(table, row), EdgesOf(ctx.graph.edges, table)[k])
  }

  lemma FreeRows(ctx: Context, dirty: Dirty, queue: seq<TableId>, table: TableId, rows: set<RowId>)
    requires ctx.HasStore(table) && RowsFree(ctx, table, rows, |EdgesOf(ctx.graph.edges, table)|)
    requires OthersFree(ctx, dirty, queue, Some(table)) && Passing(dirty, queue, table, rows)
    ensures OthersFree(ctx, dirty, queue, None)
  {
    var out := EdgesOf(ctx.graph.edges, table);
    forall t, row | t !in queue && row in RowsOf(dirty, t)
      ensures !Blocked(ctx, Node(t, row))
    {
      if t == table {
        forall e | e in out
          ensures !NoTarget(ctx, Node(table, row), e)
        {
          var k :| 0 <= k < |out| && out[k] == e;
        }
      }
    }
  }

  lemma FreeOne(ctx: Context, dirty: Dirty, queue: seq<TableId>, table: TableId, rows: set<RowId>, k: nat,
                matching: set<RowId>, dirty': Dirty, queue': seq<TableId>)
    requires ctx.HasStore(table) && k < |EdgesOf(ctx.graph.edges, table)|
    requires RowsFree(ctx, table, rows, k) && OthersFree(ctx, dirty, queue, Some(table))
    requires
      var e := EdgesOf(ctx.graph.edges, table)[k];
      && Adds(dirty, e.target, matching, dirty')
      && queue' == (if !(matching <= RowsOf(dirty, e.target)) && e.target !in queue then queue + [e.target] else queue)
      && (e.targetTable in ctx.cache || JoinValues(ctx.StoreOf(table), rows, ctx.ImagesOf(table), e.sourceColumn) == {})
    ensures RowsFree(ctx, table, rows, k + 1) && OthersFree(ctx, dirty', queue', Some(table))
  {
    NoneHasTargetless(ctx, table, rows, EdgesOf(ctx.graph.edges, table)[k]);
    hide Blocked;
    forall t, row | t !in queue' && t != table && row in RowsOf(dirty', t)
      ensures !Blocked(ctx, Node(t, row))
    {
      assert row in RowsOf(dirty, t);
    }
  }

  /** Taking the last table off the queue. */
  lemma TakeLast(ctx: Context, changes: Dirty, dirty: Dirty, queue: seq<TableId>)
    requires queue != [] && Worklist(ctx, changes, dirty, queue) && OthersFree(ctx, dirty, queue, None)
    ensures var table, rest := queue[|queue| - 1], queue[..|queue| - 1];
      && table in dirty && Justified(ctx, changes, dirty)
      && Spreading(ctx, changes, dirty, rest, table, dirty[table], 0)
      && OthersFree(ctx, dirty, rest, Some(table))
      && (dirty[table] == {} || table !in ctx.graph.names ==> OthersFree(ctx, dirty, rest, None))
      && (dirty[table] == {} || table !in ctx.graph.names ==> Worklist(ctx, changes, dirty, rest))
  {
    var table, rest := queue[|queue| - 1], queue[..|queue| - 1];
    assert queue == rest + [table];
    assert forall t :: t in queue <==> t in rest || t == table;
    hide EdgeClosed, Justified;
    if dirty[table] == {} && ctx.HasStore(table) {
      NothingToPass(ctx, dirty, table);
    }
  }

  lemma NothingToPass(ctx: Context, dirty: Dirty, table: TableId)
    requires RowsOf(dirty, table) == {}
    ensures TableClosed(ctx, dirty, table)
  {}

  /** Some row has a join value when all rows together have one. */
  lemma OneHasValue(ctx: Context, table: TableId, rows: set<RowId>, column: nat) returns (row: RowId)
    requires ctx.HasStore(table) && rows != {} && JoinValues(ctx.StoreOf(table), rows, ctx.ImagesOf(table), column) != {}
    ensures row in rows && JoinValues(ctx.StoreOf(table), {row}, ctx.ImagesOf(table), column) != {}
  {
    var v :| v in JoinValues(ctx.StoreOf(table), rows, ctx.ImagesOf(table), column);
    row :| row in rows && v in JoinValues(ctx.StoreOf(table), {row}, ctx.ImagesOf(table), column);
  }

  lemma NoneHasTargetless(ctx: Context, table: TableId, rows: set<RowId>, e: Edge)
    requires ctx.HasStore(table)
    requires e.targetTable in ctx.cache || JoinValues(ctx.StoreOf(table), rows, ctx.ImagesOf(table), e.sourceColumn) == {}
    ensures forall row :: row in rows ==> !NoTarget(ctx, Node(table, row), e)
  {
    forall row | row in rows
      ensures !NoTarget(ctx, Node(table, row), e)
    {
      assert JoinValues(ctx.StoreOf(table), {row}, ctx.ImagesOf(table), e.sourceColumn)
          <= JoinValues(ctx.StoreOf(table), rows, ctx.ImagesOf(table), e.sourceColumn);
    }
  }

  /** The row ids of a set, in some order. */
  method Listed(ids: set<RowId>) returns (list: seq<RowId>)
    ensures IdSet(list) == ids
  {
    list := [];
    var rest := ids;
    while rest != {}
      invariant rest <= ids && IdSet(list) == ids - rest
      decreases rest
    {
      var id :| id in rest;
      assert IdSet(list + [id]) == IdSet(list) + {id};
      list := list + [id];
      rest := rest - {id};
    }
  }

  /** The changed rows of the tables the graph names, and those tables in some order. */
  method SeedWorklist(ctx: Context, changes: Dirty) returns (dirty: Dirty, queue: seq<TableId>)
    ensures Worklist(ctx, changes, dirty, queue) && OthersFree(ctx, dirty, queue, None)
    ensures DirtyNodes(dirty) <= Universe(ctx, changes)
  {
    dirty, queue := map[], [];
    var rest := changes.Keys;
    while rest != {}
      invariant rest <= changes.Keys
      invariant forall t :: t in dirty <==> t in changes && t !in rest && t in ctx.graph.names
      invariant forall t :: t in dirty ==> dirty[t] == changes[t]
      invariant forall t :: t in queue <==> t in dirty
      invariant forall i, j :: 0 <= i < j < |queue| ==> queue[i] != queue[j]
      decreases rest
    {
      var table :| table in rest;
      rest := rest - {table};
      if table in ctx.graph.names {
        dirty := dirty[table := changes[table]];
        queue := queue + [table];
      }
    }
    forall node: Node | node.row in RowsOf(dirty, node.table)
      ensures Affected(ctx, changes, node)
    {
      assert Chain(ctx, changes, [node]);
    }
  }

  /** The rows one edge reaches, or None when its target has no store to search. */
  method ReachOver(ctx: Context, tableId: TableId, rows: set<RowId>, ids: seq<RowId>, e: Edge) returns (reached: Option<set<RowId>>)
    requires ctx.HasStore(tableId) && rows != {} && IdSet(ids) == rows
    ensures reached.None? <==> e.targetTable !in ctx.cache && JoinValues(ctx.StoreOf(tableId), rows, ctx.ImagesOf(tableId), e.sourceColumn) != {}
    ensures reached.Some? ==> ReachedBy(ctx, tableId, rows, e, reached.value)
    ensures reached.Some? && reached.value != {} ==>
              e.targetTable in ctx.cache && reached.value <= ctx.cache[e.targetTable].rows.Keys
  {
    var values := CollectJoinValues(ctx.StoreOf(tableId), ids, ctx.ImagesOf(tableId), e.sourceColumn);
    if values == {} {
      NothingReached(ctx, tableId, rows, e);
      return Some({});
    }
    if e.targetTable !in ctx.cache {
      return None;
    }
    MatchingIsReached(ctx, tableId, rows, e);
    return Some(MatchingRows(ctx.cache[e.targetTable], e, values));
  }

  /** Marks rows dirty and queues their table when any of them is new. */
  method InsertRowIds(dirty: Dirty, queue: seq<TableId>, target: TableId, ids: set<RowId>) returns (dirty': Dirty, queue': seq<TableId>)
    ensures Adds(dirty, target, ids, dirty') && dirty'.Keys == dirty.Keys + {target}
    ensures queue' == if !(ids <= RowsOf(dirty, target)) && target !in queue then queue + [target] else queue
  {
    dirty' := dirty[target := RowsOf(dirty, target) + ids];
    var added := !(ids <= RowsOf(dirty, target));
    queue' := if added && target !in queue then queue + [target] else queue;
  }

  /** Passing the join values of `rows` over every edge of their table; false when a target table has
      no store. */
  method PassOn(ctx: Context, changes: Dirty, dirty0: Dirty, queue0: seq<TableId>, tableId: TableId, rows: set<RowId>)
    returns (traced: bool, dirty: Dirty, queue: seq<TableId>)
    requires ctx.HasStore(tableId) && rows != {}
    requires Spreading(ctx, changes, dirty0, queue0, tableId, rows, 0)
    requires RowsFree(ctx, tableId, rows, 0) && OthersFree(ctx, dirty0, queue0, Some(tableId))
    requires DirtyNodes(dirty0) <= Universe(ctx, changes)
    ensures traced ==> Worklist(ctx, changes, dirty, queue) && OthersFree(ctx, dirty, queue, None)
    ensures traced ==> DirtyNodes(dirty0) <= DirtyNodes(dirty) <= Universe(ctx, changes)
    ensures traced && DirtyNodes(dirty0) == DirtyNodes(dirty) ==> queue == queue0
    ensures !traced ==> Untraceable(ctx, changes)
  {
    hide Untraceable, OthersFree, RowsFree, Worklist, Justified, OthersClosed, EdgesClosed, ReachedBy, JoinValues, Universe, Affected;
    dirty, queue := dirty0, queue0;
    var ids := Listed(rows);
    var out := EdgesOf(ctx.graph.edges, tableId);
    for k := 0 to |out|
      invariant Spreading(ctx, changes, dirty, queue, tableId, rows, k)
      invariant RowsFree(ctx, tableId, rows, k) && OthersFree(ctx, dirty, queue, Some(tableId))
      invariant DirtyNodes(dirty0) <= DirtyNodes(dirty) <= Universe(ctx, changes)
      invariant DirtyNodes(dirty0) == DirtyNodes(dirty) ==> queue == queue0
    {
      var reached := ReachOver(ctx, tableId, rows, ids, out[k]);
      if reached.None? {
        TargetlessIsUntraceable(ctx, changes, dirty, tableId, rows, out[k]);
        traced := false;
        return;
      }
      ghost var dirty1, queue1 := dirty, queue;
      dirty, queue := InsertRowIds(dirty, queue, out[k].target, reached.value);
      FreeOne(ctx, dirty1, queue1, tableId, rows, k, reached.value, dirty, queue);
      SpreadOne(ctx, changes, dirty1, queue1, tableId, rows, k, reached.value, dirty, queue);
      DirtyGrows(ctx, changes, dirty1, tableId, out[k], reached.value, dirty);
    }
    SpreadDone(ctx, changes, dirty, queue, tableId, rows);
    FreeRows(ctx, dirty, queue, tableId, rows);
    traced := true;
  }

  /** Main result: a collected set is exactly the root rows some changed row can affect, on any
      graph, cyclic ones included; it gives up exactly when some affected row cannot be followed. */
  method CollectAffectedRootRowIds(ctx: Context, changes: Dirty) returns (roots: Option<set<RowId>>)
    ensures roots.Some? ==> forall row :: row in roots.value <==> Affected(ctx, changes, Node(ctx.graph.root, row))
    ensures roots.None? <==> Untraceable(ctx, changes)
  {
    hide Untraceable, OthersFree, Worklist, Spreading, Justified, Universe, DirtyNodes, EdgesOf;
    var dirty: Dirty, queue: seq<TableId> := SeedWorklist(ctx, changes);
    while queue != []
      invariant Worklist(ctx, changes, dirty, queue) && OthersFree(ctx, dirty, queue, None)
      invariant DirtyNodes(dirty) <= Universe(ctx, changes)
      decreases Universe(ctx, changes) - DirtyNodes(dirty), |queue|
    {
      TakeLast(ctx, changes, dirty, queue);
      var tableId := queue[|queue| - 1];
      queue := queue[..|queue| - 1];
      var rows := dirty[tableId];
      if rows == {} || tableId !in ctx.graph.names {
        continue;
      }
      if ctx.graph.names[tableId] !in ctx.cache {
        StorelessIsUntraceable(ctx, changes, dirty, tableId);
        return None;
      }
      var store := ctx.StoreOf(tableId);
      var images := ctx.ImagesOf(tableId);
      if tableId != ctx.graph.root && !(rows <= store.rows.Keys) && images == [] {
        GoneWithoutImage(ctx, changes, dirty, tableId);
        return None;
      }
      var traced: bool;
      traced, dirty, queue := PassOn(ctx, changes, dirty, queue, tableId, rows);
      if !traced {
        return None;
      }
    }
    DoneIsExact(ctx, changes, dirty);
    DoneIsFree(ctx, changes, dirty);
    return Some(RowsOf(dirty, ctx.graph.root));
  }

  lemma TargetlessIsUntraceable(ctx: Context, changes: Dirty, dirty: Dirty, table: TableId, rows: set<RowId>, e: Edge)
    requires Justified(ctx, changes, dirty) && ctx.HasStore(table) && rows != {} && rows <= RowsOf(dirty, table)
    requires e in EdgesOf(ctx.graph.edges, table) && e.targetTable !in ctx.cache
    requires JoinValues(ctx.StoreOf(table), rows, ctx.ImagesOf(table), e.sourceColumn) != {}
    ensures Untraceable(ctx, changes)
  {
    var row := OneHasValue(ctx, table, rows, e.sourceColumn);
    assert Node(table, row).row in RowsOf(dirty, Node(table, row).table);
    assert NoTarget(ctx, Node(table, row), e);
    assert Affected(ctx, changes, Node(table, row)) && Blocked(ctx, Node(table, row));
  }

  lemma StorelessIsUntraceable(ctx: Context, changes: Dirty, dirty: Dirty, table: TableId)
    requires Justified(ctx, changes, dirty) && RowsOf(dirty, table) != {}
    requires table in ctx.graph.names && !ctx.HasStore(table)
    ensures Untraceable(ctx, changes)
  {
    var row :| row in RowsOf(dirty, table);
    assert Affected(ctx, changes, Node(table, row)) && Blocked(ctx, Node(table, row));
  }

  lemma DoneIsFree(ctx: Context, changes: Dirty, dirty: Dirty)
    requires Worklist(ctx, changes, dirty, []) && OthersFree(ctx, dirty, [], None)
    ensures !Untraceable(ctx, changes)
  {
    forall node: Node | Affected(ctx, changes, node)
      ensures !Blocked(ctx, node)
    {
      var chain :| Chain(ctx, changes, chain) && chain[|chain| - 1] == node;
      ClosedIsAffected(ctx, changes, dirty, chain);
    }
  }

  /** A dirty row that is gone without a delta image is one of the causes for giving up. */
  lemma GoneWithoutImage(ctx: Context, changes: Dirty, dirty: Dirty, table: TableId)
    requires Justified(ctx, changes, dirty) && ctx.HasStore(table) && table != ctx.graph.root
    requires !(RowsOf(dirty, table) <= ctx.StoreOf(table).rows.Keys) && ctx.ImagesOf(table) == []
    ensures Untraceable(ctx, changes)
  {
    var gone :| gone in RowsOf(dirty, table) && gone !in ctx.StoreOf(table).rows;
    assert Affected(ctx, changes, Node(table, gone)) && Blocked(ctx, Node(table, gone));
  }

  lemma DoneIsExact(ctx: Context, changes: Dirty, dirty: Dirty)
    requires Worklist(ctx, changes, dirty, [])
    ensures forall row :: row in RowsOf(dirty, ctx.graph.root) <==> Affected(ctx, changes, Node(ctx.graph.root, row))
  {
    forall row
      ensures row in RowsOf(dirty, ctx.graph.root) <==> Affected(ctx, changes, Node(ctx.graph.root, row))
    {
      var node := Node(ctx.graph.root, row);
      assert node.row in RowsOf(dirty, node.table) ==> Affected(ctx, changes, node);
      if chain :| Chain(ctx, changes, chain) && chain[|chain| - 1] == node {
        ClosedIsAffected(ctx, changes, dirty, chain);
      }
    }
  }

  lemma SpreadDone(ctx: Context, changes: Dirty, dirty: Dirty, queue: seq<TableId>, table: TableId, rows: set<RowId>)
    requires Spreading(ctx, changes, dirty, queue, table, rows, |EdgesOf(ctx.graph.edges, table)|)
    ensures Worklist(ctx, changes, dirty, queue)
  {
    var out := EdgesOf(ctx.graph.edges, table);
    if table !in queue {
      forall e | e in out
        ensures EdgeClosed(ctx, dirty, table, RowsOf(dirty, table), e)
      {
        var k :| 0 <= k < |out| && out[k] == e;
        assert EdgeClosed(ctx, dirty, table, rows, out[k]);
      }
    }
  }

  /** New rows come from the universe, and each one is a new dirty node. */
  lemma DirtyGrows(ctx: Context, changes: Dirty, dirty: Dirty, table: TableId, e: Edge, ids: set<RowId>, dirty': Dirty)
    requires e in EdgesOf(ctx.graph.edges, table) && Adds(dirty, e.target, ids, dirty')
    requires ids != {} ==> e.targetTable in ctx.cache && ids <= ctx.cache[e.targetTable].rows.Keys
    requires DirtyNodes(dirty) <= Universe(ctx, changes)
    ensures DirtyNodes(dirty) <= DirtyNodes(dirty') <= Universe(ctx, changes)
    ensures !(ids <= RowsOf(dirty, e.target)) ==> DirtyNodes(dirty) != DirtyNodes(dirty')
  {
    forall node | node in DirtyNodes(dirty)
      ensures node in DirtyNodes(dirty')
    {
      assert node.row in RowsOf(dirty', node.table);
    }
    forall node | node in DirtyNodes(dirty')
      ensures node in Universe(ctx, changes)
    {
      assert node.row in RowsOf(dirty', node.table);
      if node !in DirtyNodes(dirty) {
        assert node.row !in RowsOf(dirty, node.table);
        assert node.table == e.target && node.row in ids;
        assert e in ctx.graph.edges[table];
      }
    }
    if !(ids <= RowsOf(dirty, e.target)) {
      var row :| row in ids && row !in RowsOf(dirty, e.target);
      assert row in RowsOf(dirty', e.target);
      assert Node(e.target, row) in DirtyNodes(dirty') && Node(e.target, row) !in DirtyNodes(dirty);
    }
  }
}
