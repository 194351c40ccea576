/** The table dependency graph of a live query (crates/database/src/database.rs): join edges in both
  directions, breadth-first distances from the root table, and the edges that lead towards it. */
module DependencyGraph {
  import opened Options

  type TableId = nat

  datatype Lookup = PrimaryKey | SingleColumnIndex(name: string) | ScanFallback

  datatype Edge = Edge(sourceColumn: nat, target: TableId, targetTable: string, targetColumn: nat, lookup: Lookup)

  type EdgeMap = map<TableId, seq<Edge>>

  function EdgesOf(edges: EdgeMap, table: TableId): seq<Edge> {
    if table in edges then edges[table] else []
  }

  datatype Graph = Graph(root: TableId, names: map<TableId, string>, edges: EdgeMap)

  datatype Index = Index(name: string, columns: seq<string>, gin: bool)

  datatype Schema = Schema(columns: seq<string>, primaryKey: seq<string>, indices: seq<Index>)

  datatype JoinEdge = JoinEdge(leftTable: string, leftColumn: string, rightTable: string, rightColumn: string)

  datatype BuildError =
    | TableIdNotFound(table: string)
    | TableNotFound(table: string)
    | ColumnNotFound(table: string, column: string)
    | Disconnected

  datatype BuildResult = Built(graph: Graph) | Failed(error: BuildError)

  /** The first column of the name stands at `p`. */
  predicate NamesColumn(columns: seq<string>, name: string, p: nat) {
    p < |columns| && columns[p] == name && forall q :: 0 <= q < p ==> columns[q] != name
  }

  function FindColumn(columns: seq<string>, name: string): (index: Option<nat>)
    ensures index.Some? ==> NamesColumn(columns, name, index.value)
    ensures index.None? ==> name !in columns
  {
    if columns == [] then None
    else if columns[0] == name then Some(0)
    else
      var rest := FindColumn(columns[1..], name);
      if rest.Some? then Some(rest.value + 1) else None
  }

  function FirstUsableIndex(indices: seq<Index>, column: string): Option<string> {
    if indices == [] then None
    else if !indices[0].gin && indices[0].columns == [column] then Some(indices[0].name)
    else FirstUsableIndex(indices[1..], column)
  }

  function LookupFor(schema: Schema, column: string): Lookup {
    if schema.primaryKey == [column] then PrimaryKey
    else
      var index := FirstUsableIndex(schema.indices, column);
      if index.Some? then SingleColumnIndex(index.value) else ScanFallback
  }

  /** An index a lookup of the column can use. */
  predicate Usable(index: Index, column: string) { !index.gin && index.columns == [column] }

  /** The primary key if it is the column alone, else the first usable index, else a scan. */
  ghost predicate LooksUp(schema: Schema, column: string, lookup: Lookup) {
    match lookup
    case PrimaryKey => schema.primaryKey == [column]
    case SingleColumnIndex(name) =>
      && schema.primaryKey != [column]
      && exists i :: 0 <= i < |schema.indices| && Usable(schema.indices[i], column) && schema.indices[i].name == name
                     && forall k :: 0 <= k < i ==> !Usable(schema.indices[k], column)
    case ScanFallback => schema.primaryKey != [column] && forall i :: 0 <= i < |schema.indices| ==> !Usable(schema.indices[i], column)
  }

  lemma {:induction false} FirstUsable(indices: seq<Index>, column: string)
    ensures match FirstUsableIndex(indices, column)
      case None => forall i :: 0 <= i < |indices| ==> !Usable(indices[i], column)
      case Some(name) => exists i :: 0 <= i < |indices| && Usable(indices[i], column) && indices[i].name == name
                                     && forall k :: 0 <= k < i ==> !Usable(indices[k], column)
  {
    if indices != [] && !Usable(indices[0], column) {
      FirstUsable(indices[1..], column);
      if FirstUsableIndex(indices[1..], column).Some? {
        var i :| 0 <= i < |indices| - 1 && Usable(indices[1..][i], column) && indices[1..][i].name == FirstUsableIndex(indices, column).value
                 && forall k :: 0 <= k < i ==> !Usable(indices[1..][k], column);
        assert indices[i + 1] == indices[1..][i];
        forall k | 0 <= k < i + 1 ensures !Usable(indices[k], column) {
          assert k > 0 ==> indices[k] == indices[1..][k - 1];
        }
      } else {
        forall k | 0 <= k < |indices| ensures !Usable(indices[k], column) {
          assert k > 0 ==> indices[k] == indices[1..][k - 1];
        }
      }
    }
  }

  lemma LookupIsFor(schema: Schema, column: string)
    ensures LooksUp(schema, column, LookupFor(schema, column))
  {
    FirstUsable(schema.indices, column);
  }

  // ----- Both directions of every join edge ----------------------------------------------------

  /** What the build looks names up in. */
  datatype Catalog = Catalog(ids: map<string, TableId>, schemas: map<string, Schema>)

  /** The first name of the edge that cannot be resolved, in the order the build checks them. */
  function EdgeError(catalog: Catalog, join: JoinEdge): Option<BuildError> {
    if join.leftTable !in catalog.ids then Some(TableIdNotFound(join.leftTable))
    else if join.rightTable !in catalog.ids then Some(TableIdNotFound(join.rightTable))
    else if join.leftTable !in catalog.schemas then Some(TableNotFound(join.leftTable))
    else if join.rightTable !in catalog.schemas then Some(TableNotFound(join.rightTable))
    else if FindColumn(catalog.schemas[join.leftTable].columns, join.leftColumn).None? then
      Some(ColumnNotFound(join.leftTable, join.leftColumn))
    else if FindColumn(catalog.schemas[join.rightTable].columns, join.rightColumn).None? then
      Some(ColumnNotFound(join.rightTable, join.rightColumn))
    else None
  }

  predicate Resolves(catalog: Catalog, joins: seq<JoinEdge>) {
    forall i :: 0 <= i < |joins| ==> EdgeError(catalog, joins[i]).None?
  }

  function Flip(join: JoinEdge): JoinEdge {
    JoinEdge(join.rightTable, join.rightColumn, join.leftTable, join.leftColumn)
  }

  /** The directed edge from the left table of a join edge to its right table. */
  function LeftToRight(catalog: Catalog, join: JoinEdge): Edge
    requires EdgeError(catalog, join).None?
  {
    var source, target := catalog.schemas[join.leftTable], catalog.schemas[join.rightTable];
    Edge(FindColumn(source.columns, join.leftColumn).value, catalog.ids[join.rightTable], join.rightTable,
         FindColumn(target.columns, join.rightColumn).value, LookupFor(target, join.rightColumn))
  }

  /** The edges leaving `table`, in the order they are pushed. */
  function EdgesLeaving(catalog: Catalog, joins: seq<JoinEdge>, table: TableId): seq<Edge>
    requires Resolves(catalog, joins)
  {
    if joins == [] then []
    else
      var last := joins[|joins| - 1];
      assert EdgeError(catalog, Flip(last)).None?;
      EdgesLeaving(catalog, joins[..|joins| - 1], table)
      + (if catalog.ids[last.leftTable] == table then [LeftToRight(catalog, last)] else [])
      + (if catalog.ids[last.rightTable] == table then [LeftToRight(catalog, Flip(last))] else [])
  }

  /** The tables the joins name, and the root. */
  function TablesOf(catalog: Catalog, root: TableId, joins: seq<JoinEdge>): set<TableId>
    requires Resolves(catalog, joins)
  {
    {root}
    + (set i | 0 <= i < |joins| :: catalog.ids[joins[i].leftTable])
    + (set i | 0 <= i < |joins| :: catalog.ids[joins[i].rightTable])
  }

  /** `edges` holds, per table, exactly the edges that leave it. */
  ghost predicate IsUndirected(catalog: Catalog, joins: seq<JoinEdge>, edges: EdgeMap)
    requires Resolves(catalog, joins)
  {
    forall table :: EdgesOf(edges, table) == EdgesLeaving(catalog, joins, table)
  }

  /** The edge goes to the target table, from the column named on this side to the one named there. */
  ghost predicate Spans(catalog: Catalog, e: Edge, source: string, sourceColumn: string, target: string, targetColumn: string)
    requires source in catalog.schemas && target in catalog.schemas && target in catalog.ids
  {
    && e.target == catalog.ids[target] && e.targetTable == target
    && NamesColumn(catalog.schemas[source].columns, sourceColumn, e.sourceColumn)
    && NamesColumn(catalog.schemas[target].columns, targetColumn, e.targetColumn)
    && LooksUp(catalog.schemas[target], targetColumn, e.lookup)
  }

  /** The edge leaves the table `from` along the join, in one of its two directions. */
  ghost predicate Along(catalog: Catalog, join: JoinEdge, from: TableId, e: Edge)
    requires EdgeError(catalog, join).None?
  {
    || (from == catalog.ids[join.leftTable]
        && Spans(catalog, e, join.leftTable, join.leftColumn, join.rightTable, join.rightColumn))
    || (from == catalog.ids[join.rightTable]
        && Spans(catalog, e, join.rightTable, join.rightColumn, join.leftTable, join.leftColumn))
  }

  /** Every edge follows a join. */
  ghost predicate FollowJoins(catalog: Catalog, joins: seq<JoinEdge>, edges: EdgeMap)
    requires Resolves(catalog, joins)
  {
    forall t, e :: e in EdgesOf(edges, t) ==> exists i :: 0 <= i < |joins| && Along(catalog, joins[i], t, e)
  }

  /** Edges follow the join both ways. */
  ghost predicate Followed(catalog: Catalog, edges: EdgeMap, j: JoinEdge)
    requires EdgeError(catalog, j).None?
  {
    && (exists e :: e in EdgesOf(edges, catalog.ids[j.leftTable])
                    && Spans(catalog, e, j.leftTable, j.leftColumn, j.rightTable, j.rightColumn))
    && (exists e :: e in EdgesOf(edges, catalog.ids[j.rightTable])
                    && Spans(catalog, e, j.rightTable, j.rightColumn, j.leftTable, j.leftColumn))
  }

  lemma LeftToRightSpans(catalog: Catalog, join: JoinEdge)
    requires EdgeError(catalog, join).None?
    ensures Spans(catalog, LeftToRight(catalog, join), join.leftTable, join.leftColumn, join.rightTable, join.rightColumn)
  {
    LookupIsFor(catalog.schemas[join.rightTable], join.rightColumn);
  }

  lemma {:induction false} LeavingAlong(catalog: Catalog, joins: seq<JoinEdge>, from: TableId, e: Edge) returns (i: nat)
    requires Resolves(catalog, joins) && e in EdgesLeaving(catalog, joins, from)
    ensures i < |joins| && Along(catalog, joins[i], from, e)
  {
    var front, last := joins[..|joins| - 1], joins[|joins| - 1];
    assert EdgeError(catalog, last).None? && EdgeError(catalog, Flip(last)).None?;
    hide Spans;
    if e in EdgesLeaving(catalog, front, from) {
      i := LeavingAlong(catalog, front, from, e);
    } else {
      i := |joins| - 1;
      LeftToRightSpans(catalog, last);
      LeftToRightSpans(catalog, Flip(last));
    }
  }

  lemma {:induction false} JoinLeaves(catalog: Catalog, joins: seq<JoinEdge>, i: nat)
    requires Resolves(catalog, joins) && i < |joins|
    ensures EdgeError(catalog, Flip(joins[i])).None?
    ensures LeftToRight(catalog, joins[i]) in EdgesLeaving(catalog, joins, catalog.ids[joins[i].leftTable])
    ensures LeftToRight(catalog, Flip(joins[i])) in EdgesLeaving(catalog, joins, catalog.ids[joins[i].rightTable])
  {
    var front, last := joins[..|joins| - 1], joins[|joins| - 1];
    assert EdgeError(catalog, Flip(last)).None?;
    if i < |front| {
      assert front[i] == joins[i];
      JoinLeaves(catalog, front, i);
    }
  }

  /** The undirected edges are those of the joins, over the columns the joins name. */
  lemma UndirectedFollowsJoins(catalog: Catalog, joins: seq<JoinEdge>, edges: EdgeMap)
    requires Resolves(catalog, joins) && IsUndirected(catalog, joins, edges)
    ensures FollowJoins(catalog, joins, edges)
    ensures forall i :: 0 <= i < |joins| ==> Followed(catalog, edges, joins[i])
  {
    hide Spans, Along, LeftToRight;
    forall t, e | e in EdgesOf(edges, t) ensures exists i :: 0 <= i < |joins| && Along(catalog, joins[i], t, e) {
      var i := LeavingAlong(catalog, joins, t, e);
    }
    forall i | 0 <= i < |joins| ensures Followed(catalog, edges, joins[i]) {
      var j := joins[i];
      JoinLeaves(catalog, joins, i);
      LeftToRightSpans(catalog, j);
      LeftToRightSpans(catalog, Flip(j));
      assert LeftToRight(catalog, j) in EdgesOf(edges, catalog.ids[j.leftTable]);
      assert LeftToRight(catalog, Flip(j)) in EdgesOf(edges, catalog.ids[j.rightTable]);
    }
  }

  ghost predicate HasEdge(edges: EdgeMap, from: TableId, to: TableId) {
    exists e :: e in EdgesOf(edges, from) && e.target == to
  }

  lemma {:induction false} EdgeLeavingFlips(catalog: Catalog, joins: seq<JoinEdge>, from: TableId, e: Edge) returns (back: Edge)
    requires Resolves(catalog, joins) && e in EdgesLeaving(catalog, joins, from)
    ensures back in EdgesLeaving(catalog, joins, e.target) && back.target == from
    ensures back.sourceColumn == e.targetColumn && back.targetColumn == e.sourceColumn
  {
    var front, last := joins[..|joins| - 1], joins[|joins| - 1];
    if e in EdgesLeaving(catalog, front, from) {
      back := EdgeLeavingFlips(catalog, front, from, e);
    } else {
      assert EdgeError(catalog, Flip(last)).None?;
      back := if catalog.ids[last.leftTable] == from && e == LeftToRight(catalog, last)
              then LeftToRight(catalog, Flip(last)) else LeftToRight(catalog, last);
    }
  }

  /** Joins are followed both ways. */
  lemma UndirectedSymmetric(catalog: Catalog, joins: seq<JoinEdge>, edges: EdgeMap, from: TableId, to: TableId)
    requires Resolves(catalog, joins) && IsUndirected(catalog, joins, edges)
    requires HasEdge(edges, from, to)
    ensures HasEdge(edges, to, from)
  {
    var e :| e in EdgesOf(edges, from) && e.target == to;
    assert e in EdgesLeaving(catalog, joins, from);
    var back := EdgeLeavingFlips(catalog, joins, from, e);
    assert back in EdgesOf(edges, to);
  }

  // ----- Distances -----------------------------------------------------------------------------

  /** Consecutive tables of `walk` are joined. */
  ghost predicate Walk(edges: EdgeMap, walk: seq<TableId>, from: TableId, to: TableId) {
    && |walk| > 0 && walk[0] == from && walk[|walk| - 1] == to
    && forall i :: 0 <= i < |walk| - 1 ==> HasEdge(edges, walk[i], walk[i + 1])
  }

  ghost predicate Reachable(edges: EdgeMap, from: TableId, to: TableId) {
    exists walk :: Walk(edges, walk, from, to)
  }

  ghost predicate WalkOfLength(edges: EdgeMap, from: TableId, to: TableId, length: nat) {
    exists walk :: Walk(edges, walk, from, to) && |walk| == length + 1
  }

  /** `distance` is defined on exactly the reachable tables and gives the fewest joins to each. */
  ghost predicate ShortestDistances(edges: EdgeMap, root: TableId, distance: map<TableId, nat>) {
    && (forall t :: t in distance <==> Reachable(edges, root, t))
    && (forall t :: t in distance ==> WalkOfLength(edges, root, t, distance[t]))
    && (forall t, walk :: t in distance && Walk(edges, walk, root, t) ==> distance[t] <= |walk| - 1)
  }

  lemma ExtendWalk(edges: EdgeMap, root: TableId, t: TableId, n: nat, u: TableId)
    requires WalkOfLength(edges, root, t, n) && HasEdge(edges, t, u)
    ensures WalkOfLength(edges, root, u, n + 1)
  {
    var walk :| Walk(edges, walk, root, t) && |walk| == n + 1;
    var longer := walk + [u];
    forall i | 0 <= i < |longer| - 1
      ensures HasEdge(edges, longer[i], longer[i + 1])
    {
      if i < |walk| - 1 {
        assert HasEdge(edges, walk[i], walk[i + 1]);
      }
    }
    assert Walk(edges, longer, root, u);
  }

  /** Distances that grow by at most one along every edge bound every walk from below. */
  lemma {:induction false} WalksAreNoShorter(edges: EdgeMap, root: TableId, distance: map<TableId, nat>, walk: seq<TableId>, to: TableId)
    requires root in distance && distance[root] == 0
    requires forall t, u :: t in distance && HasEdge(edges, t, u) ==> u in distance && distance[u] <= distance[t] + 1
    requires Walk(edges, walk, root, to)
    ensures to in distance && distance[to] <= |walk| - 1
  {
    if |walk| > 1 {
      var front := walk[..|walk| - 1];
      forall i | 0 <= i < |front| - 1
        ensures HasEdge(edges, front[i], front[i + 1])
      {
        assert HasEdge(edges, walk[i], walk[i + 1]);
      }
      WalksAreNoShorter(edges, root, distance, front, front[|front| - 1]);
      assert HasEdge(edges, walk[|walk| - 2], walk[|walk| - 1]);
    }
  }

  /** The search frontier: discovered tables waiting, in order of distance, at most one apart. */
  ghost predicate Frontier(distance: map<TableId, nat>, queue: seq<TableId>) {
    && (forall i :: 0 <= i < |queue| ==> queue[i] in distance)
    && (forall i, j :: 0 <= i < j < |queue| ==> queue[i] != queue[j])
    && (forall i, j :: 0 <= i < j < |queue| ==> distance[queue[i]] <= distance[queue[j]])
    && (queue != [] ==> forall t :: t in distance ==> distance[t] <= distance[queue[0]] + 1)
    && (queue != [] ==> forall t :: t in distance && t !in queue ==> distance[t] <= distance[queue[0]])
  }

  /** Every edge out of `table` leads to a discovered table at most one further away. */
  ghost predicate Expanded(edges: EdgeMap, distance: map<TableId, nat>, table: TableId)
    requires table in distance
  {
    forall u :: HasEdge(edges, table, u) ==> u in distance && distance[u] <= distance[table] + 1
  }

  /** What the search knows: walks of the recorded lengths, a frontier, and nothing undiscovered
      behind it. */
  ghost predicate Search(edges: EdgeMap, root: TableId, distance: map<TableId, nat>, queue: seq<TableId>) {
    && root in distance && distance[root] == 0
    && (forall t :: t in distance ==> WalkOfLength(edges, root, t, distance[t]))
    && Frontier(distance, queue)
    && (forall t :: t in distance && t !in queue ==> Expanded(edges, distance, t))
  }

  lemma SearchStarts(edges: EdgeMap, root: TableId)
    ensures Search(edges, root, map[root := 0], [root])
  {
    assert Walk(edges, [root], root, root);
  }

  /** Visiting the edges of the first waiting table. */
  method Expand(edges: EdgeMap, root: TableId, distance0: map<TableId, nat>, waiting: seq<TableId>, ghost tables: set<TableId>)
    returns (distance: map<TableId, nat>, queue: seq<TableId>)
    requires waiting != [] && Search(edges, root, distance0, waiting)
    requires distance0.Keys <= tables && forall t, u :: HasEdge(edges, t, u) ==> u in tables
    ensures Search(edges, root, distance, queue)
    ensures distance0.Keys <= distance.Keys <= tables
    ensures distance.Keys == distance0.Keys ==> queue == waiting[1..]
  {
    hide WalkOfLength, Expanded;
    distance, queue := distance0, waiting[1..];
    var tableId := waiting[0];
    var nextDistance := distance[tableId] + 1;
    var out := EdgesOf(edges, tableId);
    for i := 0 to |out|
      invariant Grown(distance0, waiting, distance, queue) && distance.Keys <= tables
      invariant distance.Keys == distance0.Keys ==> queue == waiting[1..]
      invariant forall t :: t in distance ==> WalkOfLength(edges, root, t, distance[t])
      invariant forall j :: 0 <= j < i ==> out[j].target in distance
    {
      var target := out[i].target;
      if target in distance {
        continue;
      }
      assert HasEdge(edges, tableId, target);
      ExtendWalk(edges, root, tableId, distance[tableId], target);
      GrowOne(distance0, waiting, distance, queue, target);
      distance := distance[target := nextDistance];
      queue := queue + [target];
    }
    StaysFrontier(distance0, waiting, distance, queue);
    StaysExpanded(edges, distance0, waiting, distance, queue);
  }

  /** The discovered tables after a step: the old ones and a tail one further than the first. */
  ghost predicate Grown(distance0: map<TableId, nat>, waiting: seq<TableId>, distance: map<TableId, nat>, queue: seq<TableId>)
    requires waiting != [] && waiting[0] in distance0
  {
    && distance0.Keys <= distance.Keys && waiting[1..] <= queue
    && (forall t :: t in distance0 ==> distance[t] == distance0[t])
    && (forall k :: 0 <= k < |queue| ==> queue[k] in distance && queue[k] != waiting[0])
    && (forall k :: |waiting| - 1 <= k < |queue| ==> queue[k] !in distance0 && distance[queue[k]] == distance0[waiting[0]] + 1)
    && (forall j, k :: 0 <= j < k < |queue| ==> queue[j] != queue[k])
    && (forall t :: t in distance && t !in distance0 ==> t in queue[|waiting| - 1..])
  }

  lemma GrowOne(distance0: map<TableId, nat>, waiting: seq<TableId>, distance: map<TableId, nat>, queue: seq<TableId>, u: TableId)
    requires waiting != [] && waiting[0] in distance0 && Grown(distance0, waiting, distance, queue)
    requires u !in distance
    ensures Grown(distance0, waiting, distance[u := distance0[waiting[0]] + 1], queue + [u])
  {
    var distance', queue' := distance[u := distance0[waiting[0]] + 1], queue + [u];
    forall t | t in distance' && t !in distance0
      ensures t in queue'[|waiting| - 1..]
    {
      assert queue'[|waiting| - 1..] == queue[|waiting| - 1..] + [u];
    }
  }

  lemma WaitingIsQueued(waiting: seq<TableId>, queue: seq<TableId>, t: TableId)
    requires waiting != [] && waiting[1..] <= queue && t in waiting && t != waiting[0]
    ensures t in queue
  {
    var k :| 0 <= k < |waiting| && waiting[k] == t;
    assert waiting[1..][k - 1] == queue[k - 1];
  }

  lemma GrownDistances(distance0: map<TableId, nat>, waiting: seq<TableId>, distance: map<TableId, nat>, queue: seq<TableId>, t: TableId)
    requires waiting != [] && Frontier(distance0, waiting) && Grown(distance0, waiting, distance, queue)
    requires t in distance
    ensures distance[t] <= distance0[waiting[0]] + 1
    ensures t !in queue ==> t in distance0 && distance[t] <= distance0[waiting[0]]
    ensures t in queue ==> distance[t] >= distance0[waiting[0]]
  {
    if t in queue {
      var k :| 0 <= k < |queue| && queue[k] == t;
      if k < |waiting| - 1 {
        assert queue[k] == waiting[1..][k] == waiting[k + 1];
      }
    } else if t in waiting && t != waiting[0] {
      WaitingIsQueued(waiting, queue, t);
    }
  }

  lemma StaysFrontier(distance0: map<TableId, nat>, waiting: seq<TableId>, distance: map<TableId, nat>, queue: seq<TableId>)
    requires waiting != [] && Frontier(distance0, waiting) && Grown(distance0, waiting, distance, queue)
    ensures Frontier(distance, queue)
  {
    var near := distance0[waiting[0]];
    forall i, j | 0 <= i < j < |queue|
      ensures distance[queue[i]] <= distance[queue[j]]
    {
      GrownDistances(distance0, waiting, distance, queue, queue[i]);
      if j < |waiting| - 1 {
        assert queue[i] == waiting[1..][i] == waiting[i + 1] && queue[j] == waiting[1..][j] == waiting[j + 1];
      }
    }
    forall t | t in distance && queue != []
      ensures distance[t] <= distance[queue[0]] + 1
      ensures t !in queue ==> distance[t] <= distance[queue[0]]
    {
      GrownDistances(distance0, waiting, distance, queue, t);
      GrownDistances(distance0, waiting, distance, queue, queue[0]);
    }
  }

  lemma StaysExpanded(edges: EdgeMap, distance0: map<TableId, nat>, waiting: seq<TableId>, distance: map<TableId, nat>, queue: seq<TableId>)
    requires waiting != [] && Frontier(distance0, waiting) && Grown(distance0, waiting, distance, queue)
    requires forall t :: t in distance0 && t !in waiting ==> Expanded(edges, distance0, t)
    requires forall e :: e in EdgesOf(edges, waiting[0]) ==> e.target in distance
    ensures forall t :: t in distance && t !in queue ==> Expanded(edges, distance, t)
  {
    forall t, u | t in distance && t !in queue && HasEdge(edges, t, u)
      ensures u in distance && distance[u] <= distance[t] + 1
    {
      GrownDistances(distance0, waiting, distance, queue, t);
      if t == waiting[0] {
        GrownDistances(distance0, waiting, distance, queue, u);
      } else {
        if t in waiting {
          WaitingIsQueued(waiting, queue, t);
        }
        assert Expanded(edges, distance0, t);
      }
    }
  }

  method BreadthFirst(edges: EdgeMap, root: TableId, ghost tables: set<TableId>) returns (distance: map<TableId, nat>)
    requires root in tables && forall t, u :: HasEdge(edges, t, u) ==> u in tables
    ensures ShortestDistances(edges, root, distance)
    ensures distance.Keys <= tables
  {
    hide *;
    distance := map[root := 0];
    var queue := [root];
    SearchStarts(edges, root);
    while queue != []
      invariant Search(edges, root, distance, queue) && distance.Keys <= tables
      decreases tables - distance.Keys, |queue|
    {
      distance, queue := Expand(edges, root, distance, queue, tables);
    }
    SearchedIsShortest(edges, root, distance);
  }

  lemma SearchedIsShortest(edges: EdgeMap, root: TableId, distance: map<TableId, nat>)
    requires Search(edges, root, distance, [])
    ensures ShortestDistances(edges, root, distance)
  {
    forall t, u | t in distance && HasEdge(edges, t, u)
      ensures u in distance && distance[u] <= distance[t] + 1
    {
      assert Expanded(edges, distance, t);
    }
    forall t, walk | Walk(edges, walk, root, t)
      ensures t in distance && distance[t] <= |walk| - 1
    {
      WalksAreNoShorter(edges, root, distance, walk, t);
    }
    forall t | t in distance
      ensures Reachable(edges, root, t)
    {
      assert WalkOfLength(edges, root, t, distance[t]);
    }
  }

  // ----- Orientation ---------------------------------------------------------------------------

  /** The edges that lead strictly closer to the root. */
  function Closer(edges: seq<Edge>, distance: map<TableId, nat>, from: nat): (closer: seq<Edge>)
    ensures forall e :: e in closer <==> e in edges && e.target in distance && distance[e.target] < from
  {
    if edges == [] then []
    else
      var rest := Closer(edges[1..], distance, from);
      var first := edges[0];
      if first.target in distance && distance[first.target] < from then [first] + rest else rest
  }

  /** Each table keeps exactly its closer edges. */
  ghost predicate IsOriented(edges: EdgeMap, distance: map<TableId, nat>, oriented: EdgeMap) {
    forall t :: EdgesOf(oriented, t)
             == if t in distance then Closer(EdgesOf(edges, t), distance, distance[t]) else []
  }

  method Orient(edges: EdgeMap, distance: map<TableId, nat>) returns (oriented: EdgeMap)
    ensures IsOriented(edges, distance, oriented)
    ensures forall t :: t in oriented ==> oriented[t] != []
  {
    oriented := map[];
    var remaining := edges.Keys;
    while remaining != {}
      invariant remaining <= edges.Keys && oriented.Keys !! remaining
      invariant forall t :: t in oriented ==> oriented[t] != []
      invariant forall t :: t !in remaining ==>
                  EdgesOf(oriented, t) == if t in distance then Closer(EdgesOf(edges, t), distance, distance[t]) else []
      decreases remaining
    {
      var source :| source in remaining;
      remaining := remaining - {source};
      if source !in distance {
        continue;
      }
      var directed := Closer(edges[source], distance, distance[source]);
      if directed != [] {
        oriented := oriented[source := directed];
      }
    }
  }

  /** Along kept edges the distance falls at every step. */
  lemma {:induction false} OrientedWalkDescends(edges: EdgeMap, distance: map<TableId, nat>, oriented: EdgeMap, walk: seq<TableId>)
    requires IsOriented(edges, distance, oriented) && |walk| > 1
    requires forall i :: 0 <= i < |walk| - 1 ==> HasEdge(oriented, walk[i], walk[i + 1])
    ensures walk[0] in distance && walk[|walk| - 1] in distance
    ensures distance[walk[|walk| - 1]] + |walk| - 1 <= distance[walk[0]]
  {
    var n := |walk| - 1;
    assert HasEdge(oriented, walk[n - 1], walk[n]);
    if n > 1 {
      var front := walk[..n];
      forall i | 0 <= i < |front| - 1
        ensures HasEdge(oriented, front[i], front[i + 1])
      {
        assert HasEdge(oriented, walk[i], walk[i + 1]);
      }
      OrientedWalkDescends(edges, distance, oriented, front);
    }
  }

  /** The kept edges form no cycle. */
  lemma OrientedAcyclic(edges: EdgeMap, distance: map<TableId, nat>, oriented: EdgeMap, walk: seq<TableId>, t: TableId)
    requires IsOriented(edges, distance, oriented) && Walk(oriented, walk, t, t)
    ensures |walk| == 1
  {
    if |walk| > 1 {
      OrientedWalkDescends(edges, distance, oriented, walk);
    }
  }

  /** A reachable table other than the root has a neighbour one step closer. */
  lemma CloserNeighbour(edges: EdgeMap, root: TableId, distance: map<TableId, nat>, t: TableId) returns (previous: TableId)
    requires ShortestDistances(edges, root, distance) && t in distance && distance[t] > 0
    ensures HasEdge(edges, previous, t) && previous in distance && distance[previous] + 1 == distance[t]
  {
    assert WalkOfLength(edges, root, t, distance[t]);
    var walk :| Walk(edges, walk, root, t) && |walk| == distance[t] + 1;
    previous := walk[|walk| - 2];
    var front := walk[..|walk| - 1];
    assert HasEdge(edges, walk[|walk| - 2], walk[|walk| - 1]);
    forall i | 0 <= i < |front| - 1
      ensures HasEdge(edges, front[i], front[i + 1])
    {
      assert HasEdge(edges, walk[i], walk[i + 1]);
    }
    assert Walk(edges, front, root, previous);
    assert WalkOfLength(edges, root, previous, distance[previous]);
    ExtendWalk(edges, root, previous, distance[previous], t);
  }

  lemma PrependWalk(edges: EdgeMap, t: TableId, previous: TableId, root: TableId, n: nat)
    requires HasEdge(edges, t, previous) && WalkOfLength(edges, previous, root, n)
    ensures WalkOfLength(edges, t, root, n + 1)
  {
    var rest :| Walk(edges, rest, previous, root) && |rest| == n + 1;
    var path := [t] + rest;
    forall i | 0 <= i < |path| - 1
      ensures HasEdge(edges, path[i], path[i + 1])
    {
      if i > 0 {
        assert HasEdge(edges, rest[i - 1], rest[i]);
      }
    }
    assert Walk(edges, path, t, root);
  }

  /** Every reachable table keeps a path to the root, of exactly its distance. */
  lemma {:induction false} OrientedReachesRoot(catalog: Catalog, joins: seq<JoinEdge>, edges: EdgeMap, root: TableId,
                                               distance: map<TableId, nat>, oriented: EdgeMap, t: TableId)
    requires Resolves(catalog, joins) && IsUndirected(catalog, joins, edges)
    requires ShortestDistances(edges, root, distance) && IsOriented(edges, distance, oriented)
    requires t in distance
    ensures WalkOfLength(oriented, t, root, distance[t])
    decreases distance[t]
  {
    if distance[t] == 0 {
      assert WalkOfLength(edges, root, t, 0);
      assert Walk(oriented, [t], t, root);
    } else {
      var previous := CloserNeighbour(edges, root, distance, t);
      UndirectedSymmetric(catalog, joins, edges, previous, t);
      var back :| back in EdgesOf(edges, t) && back.target == previous;
      assert back in EdgesOf(oriented, t);
      OrientedReachesRoot(catalog, joins, edges, root, distance, oriented, previous);
      PrependWalk(oriented, t, previous, root, distance[previous]);
    }
  }

  // ----- The whole build -----------------------------------------------------------------------

  lemma {:induction false} EdgesStayInTables(catalog: Catalog, joins: seq<JoinEdge>, root: TableId, from: TableId, e: Edge)
    requires Resolves(catalog, joins) && e in EdgesLeaving(catalog, joins, from)
    ensures e.target in TablesOf(catalog, root, joins)
  {
    var front, last := joins[..|joins| - 1], joins[|joins| - 1];
    if e in EdgesLeaving(catalog, front, from) {
      EdgesStayInTables(catalog, front, root, from, e);
      if e.target != root {
        var i :| 0 <= i < |front| && (e.target == catalog.ids[front[i].leftTable] || e.target == catalog.ids[front[i].rightTable]);
        assert front[i] == joins[i];
      }
    } else {
      assert joins[|joins| - 1] == last;
    }
  }

  /** The names stand for the tables. */
  ghost predicate Named(catalog: Catalog, names: map<TableId, string>) {
    forall t :: t in names ==> names[t] in catalog.ids && catalog.ids[names[t]] == t
  }

  /** The edges and table names of the joins, or the first name that does not resolve. */
  method CollectEdges(catalog: Catalog, root: TableId, rootTable: string, joins: seq<JoinEdge>)
    returns (error: Option<BuildError>, edges: EdgeMap, tableNames: map<TableId, string>)
    ensures error.None? <==> Resolves(catalog, joins)
    ensures error.None? ==> IsUndirected(catalog, joins, edges) && tableNames.Keys == TablesOf(catalog, root, joins)
    ensures error.None? ==> FollowJoins(catalog, joins, edges) && forall i :: 0 <= i < |joins| ==> Followed(catalog, edges, joins[i])
    ensures rootTable in catalog.ids && catalog.ids[rootTable] == root ==> Named(catalog, tableNames)
    ensures error.Some? ==>
              exists i :: 0 <= i < |joins| && EdgeError(catalog, joins[i]) == error && Resolves(catalog, joins[..i])
  {
    hide FollowJoins, Followed, IsUndirected, LeftToRight, TablesOf, PushTwice;
    tableNames := map[root := rootTable];
    edges := map[];
    NothingCollected(catalog, root);
    for i := 0 to |joins|
      invariant Resolves(catalog, joins[..i])
      invariant IsUndirected(catalog, joins[..i], edges)
      invariant tableNames.Keys == TablesOf(catalog, root, joins[..i])
      invariant rootTable in catalog.ids && catalog.ids[rootTable] == root ==> Named(catalog, tableNames)
    {
      var join := joins[i];
      error := EdgeError(catalog, join);
      if error.Some? {
        return;
      }
      assert joins[..i + 1] == joins[..i] + [join];
      var left, right := catalog.ids[join.leftTable], catalog.ids[join.rightTable];
      TablesOfGrow(catalog, root, joins[..i], join);
      UndirectedGrow(catalog, joins[..i], join, edges);
      tableNames := tableNames[left := join.leftTable];
      tableNames := tableNames[right := join.rightTable];
      edges := PushTwice(edges, left, LeftToRight(catalog, join), right, LeftToRight(catalog, Flip(join)));
    }
    assert joins[..|joins|] == joins;
    UndirectedFollowsJoins(catalog, joins, edges);
    error := None;
  }

  lemma NothingCollected(catalog: Catalog, root: TableId)
    ensures IsUndirected(catalog, [], map[]) && TablesOf(catalog, root, []) == {root}
  {}

  lemma UndirectedGrow(catalog: Catalog, joins: seq<JoinEdge>, join: JoinEdge, edges: EdgeMap)
    requires Resolves(catalog, joins) && EdgeError(catalog, join).None? && IsUndirected(catalog, joins, edges)
    ensures Resolves(catalog, joins + [join]) && EdgeError(catalog, Flip(join)).None?
    ensures IsUndirected(catalog, joins + [join],
                         PushTwice(edges, catalog.ids[join.leftTable], LeftToRight(catalog, join),
                                   catalog.ids[join.rightTable], LeftToRight(catalog, Flip(join))))
  {
    var all := joins + [join];
    assert EdgeError(catalog, Flip(join)).None?;
    var left, right := catalog.ids[join.leftTable], catalog.ids[join.rightTable];
    var e, f := LeftToRight(catalog, join), LeftToRight(catalog, Flip(join));
    assert all[..|all| - 1] == joins && all[|all| - 1] == join;
    forall t
      ensures EdgesOf(PushTwice(edges, left, e, right, f), t) == EdgesLeaving(catalog, all, t)
    {
      assert EdgesOf(edges, t) == EdgesLeaving(catalog, joins, t);
      PushTwiceAt(edges, left, e, right, f, t);
    }
  }

  /** Both directions of one join, pushed on the lists of their sources. */
  function PushTwice(edges: EdgeMap, left: TableId, e: Edge, right: TableId, f: Edge): EdgeMap {
    var middle := edges[left := EdgesOf(edges, left) + [e]];
    middle[right := EdgesOf(middle, right) + [f]]
  }

  lemma PushTwiceAt(edges: EdgeMap, left: TableId, e: Edge, right: TableId, f: Edge, t: TableId)
    ensures EdgesOf(PushTwice(edges, left, e, right, f), t)
         == EdgesOf(edges, t) + (if left == t then [e] else []) + (if right == t then [f] else [])
  {
  }

  lemma EdgesInTables(catalog: Catalog, joins: seq<JoinEdge>, root: TableId, edges: EdgeMap)
    requires Resolves(catalog, joins) && IsUndirected(catalog, joins, edges)
    ensures root in TablesOf(catalog, root, joins)
    ensures forall t, u :: HasEdge(edges, t, u) ==> u in TablesOf(catalog, root, joins)
  {
    hide TablesOf, EdgesLeaving;
    RootIsNamed(catalog, joins, root);
    forall t, u | HasEdge(edges, t, u)
      ensures u in TablesOf(catalog, root, joins)
    {
      var e :| e in EdgesOf(edges, t) && e.target == u;
      EdgesStayInTables(catalog, joins, root, t, e);
    }
  }

  lemma RootIsNamed(catalog: Catalog, joins: seq<JoinEdge>, root: TableId)
    requires Resolves(catalog, joins)
    ensures root in TablesOf(catalog, root, joins)
  {}

  lemma OrientedFollowJoins(catalog: Catalog, joins: seq<JoinEdge>, edges: EdgeMap, distance: map<TableId, nat>, oriented: EdgeMap)
    requires Resolves(catalog, joins) && FollowJoins(catalog, joins, edges) && IsOriented(edges, distance, oriented)
    ensures FollowJoins(catalog, joins, oriented)
  {
    forall t, e | e in EdgesOf(oriented, t) ensures e in EdgesOf(edges, t) {
      assert EdgesOf(oriented, t) == if t in distance then Closer(EdgesOf(edges, t), distance, distance[t]) else [];
    }
    hide Along;
  }

  /** The build succeeds exactly when every name resolves and every table is connected to the root,
      and then keeps, per table, exactly the edges that shorten the distance to the root. */
  method CompileDependencyGraph(catalog: Catalog, rootTable: string, joins: seq<JoinEdge>) returns (result: BuildResult)
    ensures rootTable !in catalog.ids ==> result == Failed(TableIdNotFound(rootTable))
    ensures rootTable in catalog.ids && !Resolves(catalog, joins) ==>
              exists i :: 0 <= i < |joins| && EdgeError(catalog, joins[i]).Some?
                          && result == Failed(EdgeError(catalog, joins[i]).value) && Resolves(catalog, joins[..i])
    ensures rootTable in catalog.ids && Resolves(catalog, joins) ==>
              exists edges, distance :: BuildOutcome(catalog, catalog.ids[rootTable], joins, edges, distance, result)
  {
    if rootTable !in catalog.ids {
      return Failed(TableIdNotFound(rootTable));
    }
    var root := catalog.ids[rootTable];
    var error, edges, tableNames := CollectEdges(catalog, root, rootTable, joins);
    if error.Some? {
      return Failed(error.value);
    }
    hide IsUndirected, FollowJoins, Followed, IsOriented, ShortestDistances, Named, TablesOf, BuildOutcome, EdgeError, HasEdge;
    EdgesInTables(catalog, joins, root, edges);
    var distance := BreadthFirst(edges, root, tableNames.Keys);
    if |distance| != |tableNames| {
      result := Failed(Disconnected);
      SomeUnreached(catalog, root, joins, edges, distance, tableNames);
    } else {
      assert |distance.Keys| == |tableNames.Keys|;
      SubsetOfSameSize(distance.Keys, tableNames.Keys);
      var oriented := Orient(edges, distance);
      OrientedFollowJoins(catalog, joins, edges, distance, oriented);
      result := Built(Graph(root, tableNames, oriented));
      AllReached(catalog, root, joins, edges, distance, result);
    }
  }

  /** Over the undirected edges and the shortest distances: failure means a table the root does not
      reach; success names every table and keeps the edges towards the root. */
  ghost predicate BuildOutcome(catalog: Catalog, root: TableId, joins: seq<JoinEdge>, edges: EdgeMap,
                               distance: map<TableId, nat>, result: BuildResult)
    requires Resolves(catalog, joins)
  {
    && IsUndirected(catalog, joins, edges) && FollowJoins(catalog, joins, edges)
    && (forall i :: 0 <= i < |joins| ==> Followed(catalog, edges, joins[i]))
    && ShortestDistances(edges, root, distance)
    && (result == Failed(Disconnected) <==> exists t :: t in TablesOf(catalog, root, joins) && t !in distance)
    && (result != Failed(Disconnected) ==>
          && result.Built? && result.graph.root == root
          && result.graph.names.Keys == TablesOf(catalog, root, joins) == distance.Keys
          && Named(catalog, result.graph.names)
          && IsOriented(edges, distance, result.graph.edges)
          && FollowJoins(catalog, joins, result.graph.edges))
  }

  lemma SomeUnreached(catalog: Catalog, root: TableId, joins: seq<JoinEdge>, edges: EdgeMap, distance: map<TableId, nat>,
                      names: map<TableId, string>)
    requires Resolves(catalog, joins) && IsUndirected(catalog, joins, edges) && FollowJoins(catalog, joins, edges)
    requires forall i :: 0 <= i < |joins| ==> Followed(catalog, edges, joins[i])
    requires ShortestDistances(edges, root, distance) && names.Keys == TablesOf(catalog, root, joins)
    requires |distance| != |names| && distance.Keys <= names.Keys
    ensures BuildOutcome(catalog, root, joins, edges, distance, Failed(Disconnected))
  {
    hide IsUndirected, FollowJoins, Followed, ShortestDistances, TablesOf;
    assert distance.Keys != names.Keys;
    var t :| t in names.Keys && t !in distance.Keys;
  }

  lemma AllReached(catalog: Catalog, root: TableId, joins: seq<JoinEdge>, edges: EdgeMap, distance: map<TableId, nat>, result: BuildResult)
    requires Resolves(catalog, joins) && IsUndirected(catalog, joins, edges) && FollowJoins(catalog, joins, edges)
    requires forall i :: 0 <= i < |joins| ==> Followed(catalog, edges, joins[i])
    requires ShortestDistances(edges, root, distance)
    requires result.Built? && result.graph.root == root && Named(catalog, result.graph.names)
    requires result.graph.names.Keys == TablesOf(catalog, root, joins) == distance.Keys
    requires IsOriented(edges, distance, result.graph.edges) && FollowJoins(catalog, joins, result.graph.edges)
    ensures BuildOutcome(catalog, root, joins, edges, distance, result)
  {
    hide IsUndirected, FollowJoins, Followed, ShortestDistances, TablesOf, Named, IsOriented;
  }

  lemma TablesOfGrow(catalog: Catalog, root: TableId, joins: seq<JoinEdge>, join: JoinEdge)
    requires Resolves(catalog, joins) && EdgeError(catalog, join).None?
    ensures Resolves(catalog, joins + [join])
    ensures TablesOf(catalog, root, joins + [join])
         == TablesOf(catalog, root, joins) + {catalog.ids[join.leftTable], catalog.ids[join.rightTable]}
  {
    var all := joins + [join];
    assert all[|joins|] == join;
    forall t | t in TablesOf(catalog, root, joins)
      ensures t in TablesOf(catalog, root, all)
    {
      if t != root {
        var i :| 0 <= i < |joins| && (t == catalog.ids[joins[i].leftTable] || t == catalog.ids[joins[i].rightTable]);
        assert all[i] == joins[i];
      }
    }
    forall t | t in TablesOf(catalog, root, all)
      ensures t in TablesOf(catalog, root, joins) + {catalog.ids[join.leftTable], catalog.ids[join.rightTable]}
    {
      if t != root {
        var i :| 0 <= i < |all| && (t == catalog.ids[all[i].leftTable] || t == catalog.ids[all[i].rightTable]);
        if i < |joins| {
          assert all[i] == joins[i];
        }
      }
    }
  }

  lemma SubsetOfSameSize<T>(a: set<T>, b: set<T>)
    requires a <= b && |a| == |b|
    ensures a == b
  {
    assert |b - a| == |b| - |a|;
  }
}
