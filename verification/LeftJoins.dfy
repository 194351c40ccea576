/** Exactly which chains of joins a refresh by affected roots keeps right.

  The dependency graph keeps the edges that lead strictly closer to the root
  (crates/database/src/database.rs). The worklist follows them, and only to rows that are there. Where
  the way of a table to the root leads over a table that a left join may leave out, a change of the
  table can miss its root. */
module LeftJoins {
  import opened Options
  import opened Values
  import opened DependencyGraph
  import opened AffectedRoots
  import opened JoinRefresh

  // ----- A change that misses its root ---------------------------------------------------------

  /** More columns than any condition names. */
  function ColumnBound(catalog: Catalog, joins: seq<JoinEdge>): nat
    requires Resolves(catalog, joins)
  {
    if joins == [] then 0
    else
      var front, last := joins[..|joins| - 1], joins[|joins| - 1];
      ColumnBound(catalog, front) + |catalog.schemas[last.leftTable].columns| + |catalog.schemas[last.rightTable].columns|
  }

  function Ones(n: nat): (row: Tuple)
    ensures |row| == n && forall i :: 0 <= i < n ==> row[i] == Int64(1)
  {
    seq(n, i => Int64(1))
  }

  lemma {:induction false} TargetIsNamed(catalog: Catalog, joins: seq<JoinEdge>, t: TableId, e: Edge)
    requires Resolves(catalog, joins) && e in EdgesLeaving(catalog, joins, t)
    ensures e.targetTable in catalog.ids && catalog.ids[e.targetTable] == e.target
  {
    var front, last := joins[..|joins| - 1], joins[|joins| - 1];
    if e in EdgesLeaving(catalog, front, t) {
      TargetIsNamed(catalog, front, t, e);
    }
  }

  /** One row of ones in each of the given tables, none in the others. */
  function OneRow(tables: set<TableId>, filled: set<TableId>, row: Tuple): Database {
    map t | t in tables :: if t in filled then map[0 := row] else map[]
  }

  /** Ones meet every condition. */
  lemma OnesMeet(catalog: Catalog, step: Step, db: Database, choice: Choice, bound: nat)
    requires Resolves(catalog, step.conditions) && step.table in choice
    requires forall k :: 0 <= k < |step.conditions| ==> Within(catalog, step.conditions[k], choice.Keys, bound)
    requires forall t :: t in choice ==> Stored(db, t, choice[t]) && db[t][choice[t]] == Ones(bound)
    ensures Met(catalog, db, step, choice)
  {
    forall k | 0 <= k < |step.conditions| ensures ConditionMet(catalog, db, choice, step.conditions[k]) {
      var j := step.conditions[k];
      assert Within(catalog, j, choice.Keys, bound);
      var p, q := FindColumn(catalog.schemas[j.leftTable].columns, j.leftColumn).value,
                  FindColumn(catalog.schemas[j.rightTable].columns, j.rightColumn).value;
      assert Ones(bound)[p] == Int64(1) && Ones(bound)[q] == Int64(1);
    }
  }

  /** The condition compares two of the tables, below the bound of columns. */
  predicate Within(catalog: Catalog, join: JoinEdge, tables: set<TableId>, bound: nat)
    requires EdgeError(catalog, join).None?
  {
    && catalog.ids[join.leftTable] in tables && catalog.ids[join.rightTable] in tables
    && |catalog.schemas[join.leftTable].columns| <= bound && |catalog.schemas[join.rightTable].columns| <= bound
  }

  /** What a deletion of the one row of `table` reads and records. */
  function DeletionContext(catalog: Catalog, query: Query, names: map<TableId, string>, kept: EdgeMap,
                           after: Database, table: TableId, row: Tuple): Context {
    Context(map name | name in catalog.ids && catalog.ids[name] in after :: Store(after[catalog.ids[name]]),
            Graph(query.root, names, kept), map[table := [row]])
  }

  /** In `n` edges from `table` to `to`, without leaving `inside`, read from the end. */
  ghost predicate ReachesBack(edges: EdgeMap, inside: set<TableId>, table: TableId, to: TableId, n: nat)
    decreases n
  {
    && to in inside
    && if n == 0 then table == to
       else exists t, e :: e in EdgesOf(edges, t) && e.target == to && ReachesBack(edges, inside, table, t, n - 1)
  }

  lemma LinkInside(catalog: Catalog, query: Query, names: map<TableId, string>, kept: EdgeMap, filled: set<TableId>,
                   after: Database, table: TableId, row: Tuple, from: Node, to: Node) returns (e: Edge)
    requires forall t :: t in after && t !in filled ==> after[t] == map[]
    requires forall t, e :: e in EdgesOf(kept, t) ==> e.targetTable in catalog.ids && catalog.ids[e.targetTable] == e.target
    requires Link(DeletionContext(catalog, query, names, kept, after, table, row), from, to)
    ensures to.table in filled && e in EdgesOf(kept, from.table) && e.target == to.table
  {
    var ctx := DeletionContext(catalog, query, names, kept, after, table, row);
    e :| e in EdgesOf(kept, from.table) && e.target == to.table && LinkOver(ctx, from, e, to.row);
    assert ctx.cache[e.targetTable] == Store(after[e.target]) && to.row in after[e.target];
  }

  lemma OneBack(edges: EdgeMap, inside: set<TableId>, table: TableId, t: TableId, e: Edge, n: nat)
    requires ReachesBack(edges, inside, table, t, n) && e in EdgesOf(edges, t) && e.target in inside
    ensures ReachesBack(edges, inside, table, e.target, n + 1)
  {}

  lemma StartsAtDeleted(catalog: Catalog, query: Query, names: map<TableId, string>, kept: EdgeMap, filled: set<TableId>,
                        after: Database, table: TableId, row: Tuple, node: Node)
    requires table in filled && Changed(DeletionContext(catalog, query, names, kept, after, table, row), map[table := {0}], node)
    ensures ReachesBack(kept, filled, table, node.table, 0)
  {}

  /** Nothing leaves the filled tables. */
  lemma {:induction false} ChainStaysInside(catalog: Catalog, query: Query, names: map<TableId, string>, kept: EdgeMap,
                                            filled: set<TableId>, after: Database, table: TableId, row: Tuple, chain: seq<Node>)
    returns (n: nat)
    requires table in filled
    requires forall t :: t in after && t !in filled ==> after[t] == map[]
    requires forall t, e :: e in EdgesOf(kept, t) ==> e.targetTable in catalog.ids && catalog.ids[e.targetTable] == e.target
    requires Chain(DeletionContext(catalog, query, names, kept, after, table, row), map[table := {0}], chain)
    ensures ReachesBack(kept, filled, table, chain[|chain| - 1].table, n)
  {
    var last := |chain| - 1;
    hide Link, Changed, DeletionContext, EdgesOf, ReachesBack;
    if last == 0 {
      StartsAtDeleted(catalog, query, names, kept, filled, after, table, row, chain[0]);
      n := 0;
    } else {
      var ctx := DeletionContext(catalog, query, names, kept, after, table, row);
      var front := chain[..last];
      forall i | 0 <= i < |front| - 1 ensures Link(ctx, front[i], front[i + 1]) {
        assert Link(ctx, chain[i], chain[i + 1]);
      }
      var m := ChainStaysInside(catalog, query, names, kept, filled, after, table, row, front);
      assert Link(ctx, chain[last - 1], chain[last]);
      var e := LinkInside(catalog, query, names, kept, filled, after, table, row, chain[last - 1], chain[last]);
      OneBack(kept, filled, table, chain[last - 1].table, e, m);
      n := m + 1;
    }
  }

  /** The same way, read from the start. */
  lemma {:induction false} BackIsForth(edges: EdgeMap, inside: set<TableId>, table: TableId, to: TableId, n: nat,
                                       root: TableId, m: nat)
    requires ReachesBack(edges, inside, table, to, n) && ReachesIn(edges, inside, to, root, m)
    ensures ReachesIn(edges, inside, table, root, n + m)
    decreases n
  {
    if n > 0 {
      var t, e :| e in EdgesOf(edges, t) && e.target == to && ReachesBack(edges, inside, table, t, n - 1);
      InsideBack(edges, inside, table, t, n - 1);
      assert ReachesIn(edges, inside, t, root, m + 1);
      BackIsForth(edges, inside, table, t, n - 1, root, m + 1);
    }
  }

  lemma InsideBack(edges: EdgeMap, inside: set<TableId>, table: TableId, to: TableId, n: nat)
    requires ReachesBack(edges, inside, table, to, n)
    ensures to in inside
  {}

  // ----- The condition is needed ---------------------------------------------------------------

  /** The edges of a chain of joins, oriented towards the root. */
  ghost predicate Oriented(query: Query, catalog: Catalog, distance: map<TableId, nat>, names: map<TableId, string>, kept: EdgeMap) {
    && EdgesOfChain(query, catalog) && Named(catalog, names)
    && ShortestDistances(query.edges, query.root, distance) && IsOriented(query.edges, distance, kept)
    && query.Tables() == distance.Keys == names.Keys
  }

  lemma EdgesHaveNames(query: Query, catalog: Catalog, distance: map<TableId, nat>, kept: EdgeMap)
    requires EdgesOfChain(query, catalog) && IsOriented(query.edges, distance, kept)
    ensures forall t, e :: e in EdgesOf(query.edges, t) ==> e.targetTable in catalog.ids && catalog.ids[e.targetTable] == e.target
    ensures forall t, e :: e in EdgesOf(kept, t) ==> e.targetTable in catalog.ids && catalog.ids[e.targetTable] == e.target
  {
    hide *;
    forall t, e | e in EdgesOf(query.edges, t) ensures e.targetTable in catalog.ids && catalog.ids[e.targetTable] == e.target {
      EdgeIsLeaving(query, catalog, t);
      TargetIsNamed(catalog, Conditions(query.steps), t, e);
    }
    forall t, e | e in EdgesOf(kept, t) ensures e.targetTable in catalog.ids && catalog.ids[e.targetTable] == e.target {
      KeptIsEdge(query.edges, distance, kept, t, e);
    }
  }

  lemma EdgeIsLeaving(query: Query, catalog: Catalog, t: TableId)
    requires EdgesOfChain(query, catalog)
    ensures Resolves(catalog, Conditions(query.steps))
    ensures EdgesOf(query.edges, t) == EdgesLeaving(catalog, Conditions(query.steps), t)
  {}

  lemma KeptIsEdge(edges: EdgeMap, distance: map<TableId, nat>, kept: EdgeMap, t: TableId, e: Edge)
    requires IsOriented(edges, distance, kept) && e in EdgesOf(kept, t)
    ensures e in EdgesOf(edges, t)
  {}

  /** The deletion of the one row of `table`: everything the refresh asks for holds, no root is collected. */
  lemma DeletionMissesRoot(query: Query, catalog: Catalog, distance: map<TableId, nat>, names: map<TableId, string>, kept: EdgeMap,
                           table: TableId, before: Database, after: Database, ctx: Context, row: Tuple)
    requires Resolved(catalog, query.steps) && table in query.Tables() && table != query.root
    requires EdgesOfChain(query, catalog) && IsOriented(query.edges, distance, kept)
    requires !Leads(catalog, query, kept, table)
    requires before == OneRow(query.Tables(), Company(catalog, query, table), row) && after == before[table := map[]]
    requires ctx == DeletionContext(catalog, query, names, kept, after, table, row)
    ensures Collected(query, ctx, map[table := {0}], {})
  {
    var company := Company(catalog, query, table);
    hide *;
    CompanyHas(query, catalog, table);
    EdgesHaveNames(query, catalog, distance, kept);
    EmptyElsewhere(query, company, table, before, after, row);
    var changes := map[table := {0}];
    forall r ensures !Affected(ctx, changes, Node(query.root, r)) {
      if Affected(ctx, changes, Node(query.root, r)) {
        var chain := SomeChain(ctx, changes, Node(query.root, r));
        var n := ChainStaysInside(catalog, query, names, kept, company, after, table, row, chain);
        RootReached(kept, company, query.root);
        BackIsForth(kept, company, table, query.root, n, query.root, 0);
        LeadsIn(catalog, query, kept, table, n);
        assert false;
      }
    }
    NoneCollected(query, ctx, changes);
  }

  lemma SomeChain(ctx: Context, changes: Dirty, node: Node) returns (chain: seq<Node>)
    requires Affected(ctx, changes, node)
    ensures Chain(ctx, changes, chain) && |chain| > 0 && chain[|chain| - 1] == node
  {
    chain :| Chain(ctx, changes, chain) && chain[|chain| - 1] == node;
  }

  lemma NoneCollected(query: Query, ctx: Context, changes: Dirty)
    requires forall r :: !Affected(ctx, changes, Node(query.root, r))
    ensures Collected(query, ctx, changes, {})
  {}

  lemma EmptyElsewhere(query: Query, company: set<TableId>, table: TableId, before: Database, after: Database, row: Tuple)
    requires before == OneRow(query.Tables(), company, row) && after == before[table := map[]]
    ensures forall t :: t in after && t !in company ==> after[t] == map[]
  {}

  lemma RootReached(kept: EdgeMap, inside: set<TableId>, root: TableId)
    requires root in inside
    ensures ReachesIn(kept, inside, root, root, 0)
  {}

  lemma LeadsIn(catalog: Catalog, query: Query, kept: EdgeMap, table: TableId, n: nat)
    requires Resolved(catalog, query.steps) && ReachesIn(kept, Company(catalog, query, table), table, query.root, n)
    ensures Leads(catalog, query, kept, table)
  {}

  /** The company of a table has the table, the root and the inner tables, and is closed. */
  lemma CompanyHas(query: Query, catalog: Catalog, table: TableId)
    requires EdgesOfChain(query, catalog) && table in query.Tables()
    ensures var company := Company(catalog, query, table);
      && {table} + InnerTables(query.root, query.steps) <= company <= query.Tables()
      && query.root in company && ClosedUnder(catalog, query.steps, company)
  {
    NeededBounds(catalog, query.root, query.steps, {table} + InnerTables(query.root, query.steps));
    NeededClosed(catalog, query.root, query.steps, {table} + InnerTables(query.root, query.steps));
    InnerAreTables(query.root, query.steps);
  }

  lemma InnerAreTables(root: TableId, steps: seq<Step>)
    ensures InnerTables(root, steps) <= TablesIn(root, steps) && root in InnerTables(root, steps)
  {}

  lemma TablesClosed(query: Query, catalog: Catalog)
    requires WellJoined(catalog, query.root, query.steps) && Resolved(catalog, query.steps)
    ensures ClosedUnder(catalog, query.steps, query.Tables())
  {
    NeededBounds(catalog, query.root, query.steps, query.Tables());
    NeededClosed(catalog, query.root, query.steps, query.Tables());
  }

  lemma EdgeInTables(query: Query, catalog: Catalog, t: TableId, e: Edge)
    requires EdgesOfChain(query, catalog) && e in EdgesOf(query.edges, t)
    ensures e.target in query.Tables()
  {
    TablesClosed(query, catalog);
    EdgeIsLeaving(query, catalog, t);
    hide IsUndirected, WellJoined;
    var i := EdgeOrigin(catalog, query.root, query.steps, t, e);
    if e.target != query.steps[i].table {
      assert e in OwnEdges(catalog, query.steps[i]) && e.target in Targets(OwnEdges(catalog, query.steps[i]));
    }
  }

  lemma LastConditions(catalog: Catalog, root: TableId, steps: seq<Step>)
    requires WellJoined(catalog, root, steps) && steps != []
    ensures var front, last := steps[..|steps| - 1], steps[|steps| - 1];
      && WellJoined(catalog, root, front) && Resolved(catalog, front) && Resolves(catalog, Conditions(front))
      && Resolves(catalog, last.conditions) && Conditions(steps) == Conditions(front) + last.conditions
  {
    hide Resolved, Resolves;
    WellJoinedResolves(catalog, root, steps[..|steps| - 1]);
  }

  /** The recorded deletion meets what the results about the refresh ask for. */
  lemma DeletionIsRecorded(query: Query, catalog: Catalog, distance: map<TableId, nat>, names: map<TableId, string>, kept: EdgeMap,
                           company: set<TableId>, table: TableId, before: Database, after: Database, ctx: Context, row: Tuple)
    requires Named(catalog, names) && names.Keys == query.Tables() && table in company
    requires before == OneRow(query.Tables(), company, row) && after == before[table := map[]] && table in query.Tables()
    requires ctx == DeletionContext(catalog, query, names, kept, after, table, row)
    ensures Records(ctx, before, after, map[table := {0}])
  {
    forall t | t in ctx.graph.names ensures ctx.HasStore(t) && ctx.StoreOf(t).rows == after[t] {
      assert catalog.ids[names[t]] == t && t in after;
    }
    forall t, r | t in ctx.graph.names ensures t == table || SameRow(before, after, t, r) {
      assert t != table ==> before[t] == after[t];
    }
  }

  lemma DeletionGraph(query: Query, catalog: Catalog, distance: map<TableId, nat>, names: map<TableId, string>, kept: EdgeMap,
                      company: set<TableId>, table: TableId, before: Database, after: Database, ctx: Context, row: Tuple)
    requires Oriented(query, catalog, distance, names, kept) && table in query.Tables()
    requires before == OneRow(query.Tables(), company, row) && after == before[table := map[]]
    requires ctx == DeletionContext(catalog, query, names, kept, after, table, row)
    ensures GraphOf(query, catalog, distance, ctx)
  {
    hide EdgesOfChain, ShortestDistances, IsOriented, EdgesOf;
    EdgesHaveNames(query, catalog, distance, kept);
    forall t, e | e in EdgesOf(query.edges, t)
      ensures e.targetTable in ctx.cache && (ctx.HasStore(e.target) ==> ctx.cache[e.targetTable] == ctx.StoreOf(e.target))
    {
      EdgeInTables(query, catalog, t, e);
      StoresAgree(catalog, query, names, kept, after, table, row, e);
    }
    ContextGraph(catalog, query, names, kept, after, table, row);
    hide DeletionContext, Named, OneRow;
  }

  lemma StoresAgree(catalog: Catalog, query: Query, names: map<TableId, string>, kept: EdgeMap, after: Database,
                    table: TableId, row: Tuple, e: Edge)
    requires Named(catalog, names) && names.Keys == after.Keys && e.target in after
    requires e.targetTable in catalog.ids && catalog.ids[e.targetTable] == e.target
    ensures var ctx := DeletionContext(catalog, query, names, kept, after, table, row);
      e.targetTable in ctx.cache && ctx.HasStore(e.target) && ctx.cache[e.targetTable] == ctx.StoreOf(e.target)
  {
    assert catalog.ids[names[e.target]] == e.target;
  }

  lemma {:induction false} ConditionPlace(catalog: Catalog, root: TableId, steps: seq<Step>, i: nat, k: nat) returns (m: nat)
    requires WellJoined(catalog, root, steps) && i < |steps| && k < |steps[i].conditions|
    ensures m < |Conditions(steps)| && Conditions(steps)[m] == steps[i].conditions[k]
    ensures exists earlier ::
              && Resolves(catalog, steps[i].conditions) && steps[i].table !in earlier
              && Connects(catalog, steps[i].table, earlier, steps[i].conditions[k])
  {
    var front, last := steps[..|steps| - 1], steps[|steps| - 1];
    LastConditions(catalog, root, steps);
    if i < |front| {
      assert front[i] == steps[i];
      m := ConditionPlace(catalog, root, front, i, k);
      assert Conditions(steps)[m] == Conditions(front)[m];
    } else {
      m := |Conditions(front)| + k;
      assert Connects(catalog, last.table, TablesIn(root, front), last.conditions[k]);
    }
  }

  lemma {:induction false} BoundHolds(catalog: Catalog, joins: seq<JoinEdge>, m: nat)
    requires Resolves(catalog, joins) && m < |joins|
    ensures |catalog.schemas[joins[m].leftTable].columns| <= ColumnBound(catalog, joins)
    ensures |catalog.schemas[joins[m].rightTable].columns| <= ColumnBound(catalog, joins)
  {
    var front := joins[..|joins| - 1];
    if m < |front| {
      assert front[m] == joins[m];
      BoundHolds(catalog, front, m);
    }
  }

  /** The conditions of a table in company compare tables in company. */
  lemma CompanyWithin(query: Query, catalog: Catalog, company: set<TableId>, i: nat, k: nat)
    requires EdgesOfChain(query, catalog) && ClosedUnder(catalog, query.steps, company)
    requires i < |query.steps| && query.steps[i].table in company && k < |query.steps[i].conditions|
    ensures Within(catalog, query.steps[i].conditions[k], company, ColumnBound(catalog, Conditions(query.steps)))
  {
    var step := query.steps[i];
    var join := step.conditions[k];
    hide WellJoined, ColumnBound, IsUndirected;
    var m := ConditionPlace(catalog, query.root, query.steps, i, k);
    BoundHolds(catalog, Conditions(query.steps), m);
    JoinLeaves(catalog, step.conditions, k);
    var e := if catalog.ids[join.leftTable] == step.table then LeftToRight(catalog, join) else LeftToRight(catalog, Flip(join));
    assert e in OwnEdges(catalog, step) && e.target in Targets(OwnEdges(catalog, step));
  }

  /** One row of each table in company makes a combination. */
  lemma CompanyCombines(query: Query, catalog: Catalog, company: set<TableId>, db: Database)
    requires EdgesOfChain(query, catalog)
    requires InnerTables(query.root, query.steps) <= company <= query.Tables() && query.root in company
    requires ClosedUnder(catalog, query.steps, company)
    requires db == OneRow(query.Tables(), company, Ones(ColumnBound(catalog, Conditions(query.steps))))
    ensures IsCombination(query, catalog, db, map t | t in company :: 0)
  {
    var choice: Choice := map t | t in company :: 0;
    var bound := ColumnBound(catalog, Conditions(query.steps));
    forall i | 0 <= i < |query.steps| ensures StepHolds(catalog, db, query.steps[i], choice) {
      var step := query.steps[i];
      if step.table in company {
        assert choice.Keys == company;
        forall k | 0 <= k < |step.conditions| ensures Within(catalog, step.conditions[k], choice.Keys, bound) {
          CompanyWithin(query, catalog, company, i, k);
        }
        OnesMeet(catalog, step, db, choice, bound);
      } else {
        assert !step.left ==> step.table in InnerTables(query.root, query.steps);
        assert step.table in db && db[step.table] == map[];
      }
    }
  }

  /** A refresh of uncollected roots keeps the combination. */
  ghost predicate KeepsResult(query: Query, catalog: Catalog, distance: map<TableId, nat>, ctx: Context,
                              before: Database, after: Database, changes: Dirty, roots: set<RowId>, choice: Choice)
    requires Resolved(catalog, query.steps)
  {
    GraphOf(query, catalog, distance, ctx) && Records(ctx, before, after, changes) && Collected(query, ctx, changes, roots)
    && query.root in choice && choice[query.root] !in roots ==>
      (IsCombination(query, catalog, before, choice) <==> IsCombination(query, catalog, after, choice))
  }

  /** Where a table does not lead to the root, the deletion of one row changes a result whose root is not
      collected. */
  lemma MissedRoot(query: Query, catalog: Catalog, distance: map<TableId, nat>, names: map<TableId, string>, kept: EdgeMap,
                   table: TableId)
    returns (ctx: Context, before: Database, after: Database, choice: Choice)
    requires Resolved(catalog, query.steps) && Oriented(query, catalog, distance, names, kept)
    requires table in query.Tables() && !Leads(catalog, query, kept, table)
    ensures ctx.graph == Graph(query.root, names, kept)
    ensures !KeepsResult(query, catalog, distance, ctx, before, after, map[table := {0}], {}, choice)
  {
    hide *;
    OrientedParts(query, catalog, distance, names, kept);
    RootIsTable(query);
    RootLeads(query, catalog, kept, table);
    CompanyHas(query, catalog, table);
    var company := Company(catalog, query, table);
    var row := Ones(ColumnBound(catalog, Conditions(query.steps)));
    before := OneRow(query.Tables(), company, row);
    after := before[table := map[]];
    ctx := DeletionContext(catalog, query, names, kept, after, table, row);
    choice := map t | t in company :: 0;
    ContextGraph(catalog, query, names, kept, after, table, row);
    DeletionIsRecorded(query, catalog, distance, names, kept, company, table, before, after, ctx, row);
    DeletionGraph(query, catalog, distance, names, kept, company, table, before, after, ctx, row);
    DeletionMissesRoot(query, catalog, distance, names, kept, table, before, after, ctx, row);
    CompanyCombines(query, catalog, company, before);
    DeletedIsGone(query, catalog, after, choice, table);
    NotKept(query, catalog, distance, ctx, before, after, map[table := {0}], {}, choice);
  }

  lemma OrientedParts(query: Query, catalog: Catalog, distance: map<TableId, nat>, names: map<TableId, string>, kept: EdgeMap)
    requires Oriented(query, catalog, distance, names, kept)
    ensures EdgesOfChain(query, catalog) && Resolved(catalog, query.steps) && Resolves(catalog, Conditions(query.steps))
    ensures Named(catalog, names) && IsOriented(query.edges, distance, kept)
    ensures query.Tables() == distance.Keys == names.Keys
  {}

  lemma RootIsTable(query: Query)
    ensures query.root in query.Tables()
  {}

  lemma RootLeads(query: Query, catalog: Catalog, kept: EdgeMap, table: TableId)
    requires EdgesOfChain(query, catalog) && Resolved(catalog, query.steps)
    requires table in query.Tables() && query.root in query.Tables() && !Leads(catalog, query, kept, table)
    ensures table != query.root
  {
    hide *;
    CompanyHas(query, catalog, query.root);
    RootReached(kept, Company(catalog, query, query.root), query.root);
    LeadsIn(catalog, query, kept, query.root, 0);
  }

  lemma ContextGraph(catalog: Catalog, query: Query, names: map<TableId, string>, kept: EdgeMap, after: Database,
                     table: TableId, row: Tuple)
    ensures DeletionContext(catalog, query, names, kept, after, table, row).graph == Graph(query.root, names, kept)
  {}

  lemma DeletedIsGone(query: Query, catalog: Catalog, after: Database, choice: Choice, table: TableId)
    requires Resolved(catalog, query.steps) && table in choice && table in after && after[table] == map[]
    ensures !IsCombination(query, catalog, after, choice)
  {
    assert !Stored(after, table, choice[table]);
  }

  /** Exactly which chains of joins the refresh keeps right: whatever the data and the change, results with
      uncollected roots stay results, if and only if every table leads to the root. */
  lemma RefreshesRightlyExactly(query: Query, catalog: Catalog, distance: map<TableId, nat>, names: map<TableId, string>,
                                kept: EdgeMap)
    requires Resolved(catalog, query.steps) && Oriented(query, catalog, distance, names, kept)
    ensures (forall ctx: Context, before, after, changes, roots, choice ::
              ctx.graph == Graph(query.root, names, kept) ==>
                KeepsResult(query, catalog, distance, ctx, before, after, changes, roots, choice))
       <==> AllLead(catalog, query, kept)
  {
    hide *;
    if AllLead(catalog, query, kept) {
      forall ctx: Context, before, after, changes, roots, choice | ctx.graph == Graph(query.root, names, kept)
        ensures KeepsResult(query, catalog, distance, ctx, before, after, changes, roots, choice)
      {
        LeadingKeeps(query, catalog, distance, ctx, before, after, changes, roots, choice);
      }
    } else {
      var table := SomeMissing(query, catalog, kept);
      var ctx, before, after, choice := MissedRoot(query, catalog, distance, names, kept, table);
    }
  }

  lemma LeadingKeeps(query: Query, catalog: Catalog, distance: map<TableId, nat>, ctx: Context,
                     before: Database, after: Database, changes: Dirty, roots: set<RowId>, choice: Choice)
    requires Resolved(catalog, query.steps) && AllLead(catalog, query, ctx.graph.edges)
    ensures KeepsResult(query, catalog, distance, ctx, before, after, changes, roots, choice)
  {
    hide GraphOf, Records, Collected, AllLead, IsCombination, Resolved;
    if GraphOf(query, catalog, distance, ctx) && Records(ctx, before, after, changes) && Collected(query, ctx, changes, roots)
       && query.root in choice && choice[query.root] !in roots {
      if IsCombination(query, catalog, before, choice) {
        StaysCombination(query, catalog, distance, ctx, before, after, changes, roots, before, after, choice);
      } else if IsCombination(query, catalog, after, choice) {
        StaysCombination(query, catalog, distance, ctx, before, after, changes, roots, after, before, choice);
      }
    }
  }

  lemma SomeMissing(query: Query, catalog: Catalog, kept: EdgeMap) returns (table: TableId)
    requires Resolved(catalog, query.steps) && !AllLead(catalog, query, kept)
    ensures table in query.Tables() && !Leads(catalog, query, kept, table)
  {
    hide Leads, Resolved;
    table :| table in query.Tables() && !Leads(catalog, query, kept, table);
  }

  lemma NotKept(query: Query, catalog: Catalog, distance: map<TableId, nat>, ctx: Context,
                before: Database, after: Database, changes: Dirty, roots: set<RowId>, choice: Choice)
    requires Resolved(catalog, query.steps) && GraphOf(query, catalog, distance, ctx)
    requires Records(ctx, before, after, changes) && Collected(query, ctx, changes, roots)
    requires query.root in choice && choice[query.root] !in roots
    requires IsCombination(query, catalog, before, choice) && !IsCombination(query, catalog, after, choice)
    ensures !KeepsResult(query, catalog, distance, ctx, before, after, changes, roots, choice)
  {
    hide GraphOf, Records, Collected, IsCombination, Resolved;
  }
}
