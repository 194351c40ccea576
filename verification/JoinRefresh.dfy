/** From a change of base tables to the visible rows of a query over joined tables.

  Joins the three parts of a refresh: the dependency graph (DependencyGraph), the collected roots
  (AffectedRoots) and the patched window (SnapshotRefresh). A result row is a combination of rows, one
  per table; a left join without a match leaves its table out. Where every table leads to the root, the
  roots collected from a recorded change account for it, so the window results hold with nothing
  assumed about the collected set. Inner joins always lead there. */
module JoinRefresh {
  import opened Options
  import opened Values
  import opened DependencyGraph
  import opened AffectedRoots
  import Window = OrderedWindow
  import RowOrder
  import SnapshotRefresh

  /** The stored rows of every table. */
  type Database = map<TableId, map<RowId, Tuple>>

  /** The row ids of a combination; a table left out is padded with NULLs. */
  type Choice = map<TableId, RowId>

  // ----- Queries -------------------------------------------------------------------------------

  /** One join of the chain: the table it adds, and the equalities it is joined by. */
  datatype Step = Step(table: TableId, left: bool, conditions: seq<JoinEdge>)

  function Conditions(steps: seq<Step>): seq<JoinEdge> {
    if steps == [] then [] else Conditions(steps[..|steps| - 1]) + steps[|steps| - 1].conditions
  }

  function TablesIn(root: TableId, steps: seq<Step>): set<TableId> {
    {root} + set i | 0 <= i < |steps| :: steps[i].table
  }

  /** The tables every result has a row of, whatever the data. */
  function InnerTables(root: TableId, steps: seq<Step>): set<TableId> {
    {root} + set i | 0 <= i < |steps| && !steps[i].left :: steps[i].table
  }

  /** One side of the condition is the added table, the other one of `earlier`. */
  predicate Connects(catalog: Catalog, table: TableId, earlier: set<TableId>, join: JoinEdge)
    requires EdgeError(catalog, join).None?
  {
    var l, r := catalog.ids[join.leftTable], catalog.ids[join.rightTable];
    (l == table && r in earlier) || (r == table && l in earlier)
  }

  /** Every join adds a new table and compares it with tables before it. */
  ghost predicate WellJoined(catalog: Catalog, root: TableId, steps: seq<Step>) {
    steps != [] ==>
      var front, last := steps[..|steps| - 1], steps[|steps| - 1];
      && WellJoined(catalog, root, front)
      && last.table !in TablesIn(root, front)
      && Resolves(catalog, last.conditions)
      && forall j :: 0 <= j < |last.conditions| ==> Connects(catalog, last.table, TablesIn(root, front), last.conditions[j])
  }

  /** A chain of joins over `edges`, its conditions in both directions, under a row filter, rendered to
      output values and a version. */
  datatype Query = Query(root: TableId, steps: seq<Step>, edges: EdgeMap,
                         filter: map<TableId, Tuple> -> bool, render: map<TableId, Tuple> -> (seq<Value>, nat))
  {
    function Tables(): set<TableId> { TablesIn(root, steps) }
  }

  predicate Stored(db: Database, table: TableId, row: RowId) { table in db && row in db[table] }

  predicate Present(query: Query, db: Database, choice: Choice) {
    choice.Keys <= query.Tables() && forall t :: t in choice ==> Stored(db, t, choice[t])
  }

  function Images(query: Query, db: Database, choice: Choice): map<TableId, Tuple>
    requires Present(query, db, choice)
  {
    map t | t in choice :: db[t][choice[t]]
  }

  /** The rows hold equal values, not NULL, in the columns the condition names. */
  ghost predicate EqualIn(catalog: Catalog, join: JoinEdge, l: Tuple, r: Tuple)
    requires EdgeError(catalog, join).None?
  {
    exists p: nat, q: nat ::
      && NamesColumn(catalog.schemas[join.leftTable].columns, join.leftColumn, p)
      && NamesColumn(catalog.schemas[join.rightTable].columns, join.rightColumn, q)
      && p < |l| && q < |r| && l[p] != Null && r[q] != Null && SqlEq(l[p], r[q])
  }

  /** The rows chosen for the two tables of a condition are stored and meet it. */
  ghost predicate ConditionMet(catalog: Catalog, db: Database, choice: Choice, join: JoinEdge)
    requires EdgeError(catalog, join).None?
  {
    var l, r := catalog.ids[join.leftTable], catalog.ids[join.rightTable];
    && l in choice && r in choice && Stored(db, l, choice[l]) && Stored(db, r, choice[r])
    && EqualIn(catalog, join, db[l][choice[l]], db[r][choice[r]])
  }

  /** Both sides of an edge hold the same value, and it is not NULL. */
  predicate Joined(source: Tuple, e: Edge, target: Tuple) {
    && ColumnOf(source, e.sourceColumn) != Null
    && e.targetColumn < |target|
    && SqlEq(target[e.targetColumn], ColumnOf(source, e.sourceColumn))
  }

  /** The conditions of a join, from its table to those before it. */
  function OwnEdges(catalog: Catalog, step: Step): seq<Edge>
    requires Resolves(catalog, step.conditions)
  {
    EdgesLeaving(catalog, step.conditions, step.table)
  }

  /** The rows chosen for the two tables of an edge are stored and joined. */
  predicate JoinedOver(db: Database, choice: Choice, t: TableId, e: Edge) {
    && t in choice && e.target in choice && Stored(db, t, choice[t]) && Stored(db, e.target, choice[e.target])
    && Joined(db[t][choice[t]], e, db[e.target][choice[e.target]])
  }

  /** The chosen row of the added table meets the conditions of its join. */
  ghost predicate Met(catalog: Catalog, db: Database, step: Step, choice: Choice)
    requires Resolves(catalog, step.conditions)
  {
    && step.table in choice && Stored(db, step.table, choice[step.table])
    && forall k :: 0 <= k < |step.conditions| ==> ConditionMet(catalog, db, choice, step.conditions[k])
  }

  /** The join finds the chosen row, or it is a left join and finds none. */
  ghost predicate StepHolds(catalog: Catalog, db: Database, step: Step, choice: Choice)
    requires Resolves(catalog, step.conditions)
  {
    if step.table in choice then Met(catalog, db, step, choice)
    else step.left && forall r :: Stored(db, step.table, r) ==> !Met(catalog, db, step, choice[step.table := r])
  }

  ghost predicate Resolved(catalog: Catalog, steps: seq<Step>) {
    forall i :: 0 <= i < |steps| ==> Resolves(catalog, steps[i].conditions)
  }

  /** What the chain of joins yields. */
  ghost predicate IsCombination(query: Query, catalog: Catalog, db: Database, choice: Choice)
    requires Resolved(catalog, query.steps)
  {
    && Present(query, db, choice) && query.root in choice
    && forall i :: 0 <= i < |query.steps| ==> StepHolds(catalog, db, query.steps[i], choice)
  }

  ghost predicate Satisfies(query: Query, catalog: Catalog, db: Database, choice: Choice)
    requires Resolved(catalog, query.steps)
  {
    IsCombination(query, catalog, db, choice) && query.filter(Images(query, db, choice))
  }

  // ----- The tables of a result ----------------------------------------------------------------

  function Targets(edges: seq<Edge>): set<TableId> { set i | 0 <= i < |edges| :: edges[i].target }

  /** What must be present beside `need`: a joined table comes with those it is compared with. */
  function Needed(catalog: Catalog, steps: seq<Step>, need: set<TableId>): set<TableId>
    requires Resolved(catalog, steps)
  {
    if steps == [] then need
    else
      var front, last := steps[..|steps| - 1], steps[|steps| - 1];
      assert Resolved(catalog, front) by { FrontResolved(catalog, steps); }
      Needed(catalog, front, if last.table in need then need + Targets(OwnEdges(catalog, last)) else need)
  }

  lemma FrontResolved(catalog: Catalog, steps: seq<Step>)
    requires Resolved(catalog, steps) && steps != []
    ensures Resolved(catalog, steps[..|steps| - 1]) && Resolves(catalog, steps[|steps| - 1].conditions)
  {
    var front := steps[..|steps| - 1];
    forall i | 0 <= i < |front| ensures Resolves(catalog, front[i].conditions) {
      assert front[i] == steps[i];
    }
  }

  /** The tables present in every result that has a row of `table`. */
  function Company(catalog: Catalog, query: Query, table: TableId): set<TableId>
    requires Resolved(catalog, query.steps)
  {
    Needed(catalog, query.steps, {table} + InnerTables(query.root, query.steps))
  }

  /** In `n` edges from `table` to the root, without leaving `inside`. */
  ghost predicate ReachesIn(edges: EdgeMap, inside: set<TableId>, table: TableId, root: TableId, n: nat)
    decreases n
  {
    && table in inside
    && if n == 0 then table == root
       else exists e :: e in EdgesOf(edges, table) && ReachesIn(edges, inside, e.target, root, n - 1)
  }

  /** The kept edges lead from the table to the root over tables present in the same results. */
  ghost predicate Leads(catalog: Catalog, query: Query, kept: EdgeMap, table: TableId)
    requires Resolved(catalog, query.steps)
  {
    exists n :: ReachesIn(kept, Company(catalog, query, table), table, query.root, n)
  }

  ghost predicate AllLead(catalog: Catalog, query: Query, kept: EdgeMap)
    requires Resolved(catalog, query.steps)
  {
    forall t :: t in query.Tables() ==> Leads(catalog, query, kept, t)
  }

  ghost predicate ClosedUnder(catalog: Catalog, steps: seq<Step>, tables: set<TableId>)
    requires Resolved(catalog, steps)
  {
    forall i :: 0 <= i < |steps| && steps[i].table in tables ==> Targets(OwnEdges(catalog, steps[i])) <= tables
  }

  lemma {:induction false} WellJoinedResolves(catalog: Catalog, root: TableId, steps: seq<Step>)
    requires WellJoined(catalog, root, steps)
    ensures Resolved(catalog, steps) && Resolves(catalog, Conditions(steps))
  {
    hide EdgeError, Connects, TablesIn;
    if steps != [] {
      var front, last := steps[..|steps| - 1], steps[|steps| - 1];
      WellJoinedResolves(catalog, root, front);
      forall i | 0 <= i < |steps| ensures Resolves(catalog, steps[i].conditions) {
        assert i < |front| ==> steps[i] == front[i];
      }
      var some, more := Conditions(front), last.conditions;
      forall i | 0 <= i < |Conditions(steps)| ensures EdgeError(catalog, Conditions(steps)[i]).None? {
        assert Conditions(steps)[i] == if i < |some| then some[i] else more[i - |some|];
      }
    }
  }

  /** An edge of a join connects its table with an earlier one. */
  lemma {:induction false} StepEdge(catalog: Catalog, table: TableId, earlier: set<TableId>, joins: seq<JoinEdge>, t: TableId, e: Edge)
    requires Resolves(catalog, joins) && table !in earlier && e in EdgesLeaving(catalog, joins, t)
    requires forall j :: 0 <= j < |joins| ==> Connects(catalog, table, earlier, joins[j])
    ensures (t == table && e.target in earlier) || (e.target == table && t in earlier)
  {
    var front, last := joins[..|joins| - 1], joins[|joins| - 1];
    assert Connects(catalog, table, earlier, last);
    if e in EdgesLeaving(catalog, front, t) {
      forall j | 0 <= j < |front| ensures Connects(catalog, table, earlier, front[j]) {
        assert front[j] == joins[j];
      }
      StepEdge(catalog, table, earlier, front, t, e);
    }
  }

  lemma {:induction false} LeavingConcat(catalog: Catalog, a: seq<JoinEdge>, b: seq<JoinEdge>, t: TableId)
    requires Resolves(catalog, a) && Resolves(catalog, b) && Resolves(catalog, a + b)
    ensures EdgesLeaving(catalog, a + b, t) == EdgesLeaving(catalog, a, t) + EdgesLeaving(catalog, b, t)
  {
    hide *;
    if b == [] {
      LeavingNone(catalog, a, b, t);
    } else {
      var front, last := b[..|b| - 1], b[|b| - 1];
      assert (a + b)[..|a + b| - 1] == a + front && (a + b)[|a + b| - 1] == last;
      LeavingLast(catalog, a + b, a + front, last, t);
      LeavingLast(catalog, b, front, last, t);
      LeavingConcat(catalog, a, front, t);
      EdgesAssociate(EdgesLeaving(catalog, a, t), EdgesLeaving(catalog, front, t), LastLeaving(catalog, last, t));
    }
  }

  lemma EdgesAssociate(x: seq<Edge>, y: seq<Edge>, z: seq<Edge>)
    ensures (x + y) + z == x + (y + z)
  {}

  lemma LeavingNone(catalog: Catalog, a: seq<JoinEdge>, b: seq<JoinEdge>, t: TableId)
    requires Resolves(catalog, a) && Resolves(catalog, b) && b == []
    ensures a + b == a && EdgesLeaving(catalog, a, t) == EdgesLeaving(catalog, a, t) + EdgesLeaving(catalog, b, t)
  {}

  function LastLeaving(catalog: Catalog, last: JoinEdge, t: TableId): seq<Edge>
    requires EdgeError(catalog, last).None?
  {
    assert EdgeError(catalog, Flip(last)).None?;
    (if catalog.ids[last.leftTable] == t then [LeftToRight(catalog, last)] else [])
    + (if catalog.ids[last.rightTable] == t then [LeftToRight(catalog, Flip(last))] else [])
  }

  lemma LeavingLast(catalog: Catalog, joins: seq<JoinEdge>, front: seq<JoinEdge>, last: JoinEdge, t: TableId)
    requires Resolves(catalog, joins) && joins != [] && front == joins[..|joins| - 1] && last == joins[|joins| - 1]
    ensures Resolves(catalog, front) && EdgeError(catalog, last).None?
    ensures EdgesLeaving(catalog, joins, t) == EdgesLeaving(catalog, front, t) + LastLeaving(catalog, last, t)
  {
    assert joins[|joins| - 1] == last;
    hide EdgeError, LeftToRight;
    forall i | 0 <= i < |front| ensures EdgeError(catalog, front[i]).None? {
      assert front[i] == joins[i];
    }
  }

  /** Every condition of the chain belongs to one of its joins. */
  lemma {:induction false} EdgeOrigin(catalog: Catalog, root: TableId, steps: seq<Step>, t: TableId, e: Edge) returns (i: nat)
    requires WellJoined(catalog, root, steps) && Resolved(catalog, steps) && Resolves(catalog, Conditions(steps))
    requires e in EdgesLeaving(catalog, Conditions(steps), t)
    ensures i < |steps| && e in EdgesLeaving(catalog, steps[i].conditions, t)
    ensures t == steps[i].table || e.target == steps[i].table
  {
    var front, last := steps[..|steps| - 1], steps[|steps| - 1];
    WellJoinedResolves(catalog, root, front);
    LeavingConcat(catalog, Conditions(front), last.conditions, t);
    if e in EdgesLeaving(catalog, last.conditions, t) {
      i := |steps| - 1;
      StepEdge(catalog, last.table, TablesIn(root, front), last.conditions, t, e);
    } else {
      i := EdgeOrigin(catalog, root, front, t, e);
      assert front[i] == steps[i];
    }
  }

  lemma FrontTables(root: TableId, steps: seq<Step>)
    requires steps != []
    ensures TablesIn(root, steps) == TablesIn(root, steps[..|steps| - 1]) + {steps[|steps| - 1].table}
  {
    var front := steps[..|steps| - 1];
    forall i | 0 <= i < |steps| ensures steps[i].table in TablesIn(root, front) + {steps[|steps| - 1].table} {
      if i < |front| {
        assert front[i] == steps[i];
      }
    }
    forall i | 0 <= i < |front| ensures front[i].table in TablesIn(root, steps) {
      assert front[i] == steps[i];
    }
  }

  lemma OwnTargetsEarlier(catalog: Catalog, root: TableId, steps: seq<Step>)
    requires WellJoined(catalog, root, steps) && steps != [] && Resolves(catalog, steps[|steps| - 1].conditions)
    ensures Targets(OwnEdges(catalog, steps[|steps| - 1])) <= TablesIn(root, steps[..|steps| - 1])
    ensures steps[|steps| - 1].table !in TablesIn(root, steps[..|steps| - 1])
  {
    var front, last := steps[..|steps| - 1], steps[|steps| - 1];
    forall e | e in OwnEdges(catalog, last) ensures e.target in TablesIn(root, front) {
      StepEdge(catalog, last.table, TablesIn(root, front), last.conditions, last.table, e);
    }
  }

  lemma {:induction false} NeededBounds(catalog: Catalog, root: TableId, steps: seq<Step>, need: set<TableId>)
    requires WellJoined(catalog, root, steps) && Resolved(catalog, steps)
    ensures need <= Needed(catalog, steps, need) <= need + TablesIn(root, steps)
  {
    if steps != [] {
      var front, last := steps[..|steps| - 1], steps[|steps| - 1];
      FrontResolved(catalog, steps);
      OwnTargetsEarlier(catalog, root, steps);
      FrontTables(root, steps);
      NeededBounds(catalog, root, front, if last.table in need then need + Targets(OwnEdges(catalog, last)) else need);
    }
  }

  /** What is needed contains what it is compared with, */
  lemma {:induction false} NeededClosed(catalog: Catalog, root: TableId, steps: seq<Step>, need: set<TableId>)
    requires WellJoined(catalog, root, steps) && Resolved(catalog, steps)
    ensures ClosedUnder(catalog, steps, Needed(catalog, steps, need))
  {
    if steps != [] {
      var front, last := steps[..|steps| - 1], steps[|steps| - 1];
      FrontResolved(catalog, steps);
      OwnTargetsEarlier(catalog, root, steps);
      var more := if last.table in need then need + Targets(OwnEdges(catalog, last)) else need;
      NeededClosed(catalog, root, front, more);
      NeededBounds(catalog, root, front, more);
      var all := Needed(catalog, steps, need);
      forall i | 0 <= i < |steps| && steps[i].table in all ensures Targets(OwnEdges(catalog, steps[i])) <= all {
        assert i < |front| ==> steps[i] == front[i];
      }
    }
  }

  /** and nothing more than any set that does. */
  lemma {:induction false} NeededLeast(catalog: Catalog, steps: seq<Step>, need: set<TableId>, all: set<TableId>)
    requires Resolved(catalog, steps) && ClosedUnder(catalog, steps, all) && need <= all
    ensures Needed(catalog, steps, need) <= all
  {
    if steps != [] {
      var front, last := steps[..|steps| - 1], steps[|steps| - 1];
      FrontResolved(catalog, steps);
      assert steps[|steps| - 1] == last;
      forall i | 0 <= i < |front| && front[i].table in all ensures Targets(OwnEdges(catalog, front[i])) <= all {
        assert front[i] == steps[i];
      }
      NeededLeast(catalog, front, if last.table in need then need + Targets(OwnEdges(catalog, last)) else need, all);
    }
  }

  // ----- The rows of a result ------------------------------------------------------------------

  /** An edge along a condition that is met joins the chosen rows. */
  lemma MetIsJoined(catalog: Catalog, db: Database, choice: Choice, join: JoinEdge, t: TableId, e: Edge)
    requires EdgeError(catalog, join).None? && ConditionMet(catalog, db, choice, join) && Along(catalog, join, t, e)
    ensures JoinedOver(db, choice, t, e)
  {
    hide EdgeError, LooksUp;
  }

  /** The edges of a join that is met join the chosen rows. */
  lemma StepIsJoined(catalog: Catalog, db: Database, step: Step, choice: Choice, t: TableId, e: Edge)
    requires Resolves(catalog, step.conditions) && Met(catalog, db, step, choice)
    requires e in EdgesLeaving(catalog, step.conditions, t)
    ensures JoinedOver(db, choice, t, e)
  {
    hide ConditionMet, JoinedOver, Along, EdgesLeaving;
    var k := LeavingAlong(catalog, step.conditions, t, e);
    MetIsJoined(catalog, db, choice, step.conditions[k], t, e);
  }

  /** Every chosen row meets the conditions of its join. */
  ghost predicate MetAll(query: Query, catalog: Catalog, db: Database, choice: Choice)
    requires Resolved(catalog, query.steps)
  {
    forall i :: 0 <= i < |query.steps| && query.steps[i].table in choice ==> Met(catalog, db, query.steps[i], choice)
  }

  /** All chosen rows are joined, whichever way the conditions are read. */
  ghost predicate AllJoined(query: Query, db: Database, choice: Choice) {
    forall t, e :: t in choice && e in EdgesOf(query.edges, t) && e.target in choice ==> JoinedOver(db, choice, t, e)
  }

  ghost predicate EdgesOfChain(query: Query, catalog: Catalog) {
    && WellJoined(catalog, query.root, query.steps) && Resolved(catalog, query.steps)
    && Resolves(catalog, Conditions(query.steps)) && IsUndirected(catalog, Conditions(query.steps), query.edges)
  }

  lemma MetAllJoined(query: Query, catalog: Catalog, db: Database, choice: Choice)
    requires EdgesOfChain(query, catalog) && MetAll(query, catalog, db, choice)
    ensures AllJoined(query, db, choice)
  {
    forall t, e | t in choice && e in EdgesOf(query.edges, t) && e.target in choice ensures JoinedOver(db, choice, t, e) {
      var i := EdgeOrigin(catalog, query.root, query.steps, t, e);
      StepIsJoined(catalog, db, query.steps[i], choice, t, e);
    }
  }

  lemma MetAllClosed(query: Query, catalog: Catalog, db: Database, choice: Choice)
    requires Resolved(catalog, query.steps) && MetAll(query, catalog, db, choice)
    ensures ClosedUnder(catalog, query.steps, choice.Keys)
  {
    forall i | 0 <= i < |query.steps| && query.steps[i].table in choice.Keys
      ensures Targets(OwnEdges(catalog, query.steps[i])) <= choice.Keys
    {
      assert Met(catalog, db, query.steps[i], choice);
      var own := OwnEdges(catalog, query.steps[i]);
      forall k | 0 <= k < |own| ensures own[k].target in choice {
        StepIsJoined(catalog, db, query.steps[i], choice, query.steps[i].table, own[k]);
      }
    }
  }

  /** The company of a chosen table is chosen. */
  lemma CompanyIsChosen(query: Query, catalog: Catalog, db: Database, choice: Choice, t: TableId)
    requires Resolved(catalog, query.steps) && MetAll(query, catalog, db, choice)
    requires t in choice && InnerTables(query.root, query.steps) <= choice.Keys
    ensures Company(catalog, query, t) <= choice.Keys
  {
    MetAllClosed(query, catalog, db, choice);
    NeededLeast(catalog, query.steps, {t} + InnerTables(query.root, query.steps), choice.Keys);
  }

  lemma CombinationParts(query: Query, catalog: Catalog, db: Database, choice: Choice)
    requires Resolved(catalog, query.steps) && IsCombination(query, catalog, db, choice)
    ensures MetAll(query, catalog, db, choice) && InnerTables(query.root, query.steps) <= choice.Keys
  {
    forall i | 0 <= i < |query.steps| ensures query.steps[i].table in choice ==> Met(catalog, db, query.steps[i], choice)
      ensures !query.steps[i].left ==> query.steps[i].table in choice
    {
      assert StepHolds(catalog, db, query.steps[i], choice);
    }
  }

  // ----- What a change records -----------------------------------------------------------------

  predicate SameRow(before: Database, after: Database, table: TableId, row: RowId) {
    && (Stored(before, table, row) <==> Stored(after, table, row))
    && (Stored(before, table, row) ==> before[table][row] == after[table][row])
  }

  /** The context reads the new database, and the change records every row that differs, with the
      image it had before. */
  ghost predicate Records(ctx: Context, before: Database, after: Database, changes: Dirty) {
    && (forall t :: t in ctx.graph.names ==> t in after && ctx.HasStore(t) && ctx.StoreOf(t).rows == after[t])
    && (forall t, r :: t in ctx.graph.names && !SameRow(before, after, t, r) ==> r in RowsOf(changes, t))
    && (forall t, r :: t in ctx.graph.names && r in RowsOf(changes, t) && Stored(before, t, r) ==>
          before[t][r] in ctx.ImagesOf(t))
  }

  /** The graph is the oriented dependency graph of the query, over named tables. */
  ghost predicate GraphOf(query: Query, catalog: Catalog, distance: map<TableId, nat>, ctx: Context) {
    && EdgesOfChain(query, catalog)
    && ShortestDistances(query.edges, query.root, distance)
    && IsOriented(query.edges, distance, ctx.graph.edges)
    && ctx.graph.root == query.root
    && query.Tables() == distance.Keys == ctx.graph.names.Keys
    && (forall t, e :: e in EdgesOf(query.edges, t) ==>
          e.targetTable in ctx.cache && (ctx.HasStore(e.target) ==> ctx.cache[e.targetTable] == ctx.StoreOf(e.target)))
  }

  /** The tables of a chain are those its conditions name. */
  lemma {:induction false} TablesNamed(catalog: Catalog, root: TableId, steps: seq<Step>)
    requires WellJoined(catalog, root, steps) && Resolves(catalog, Conditions(steps))
    requires forall i :: 0 <= i < |steps| ==> steps[i].conditions != []
    ensures TablesIn(root, steps) == TablesOf(catalog, root, Conditions(steps))
    decreases |steps|
  {
    if steps == [] {
      assert TablesIn(root, steps) == {root};
    } else {
      var front, last := steps[..|steps| - 1], steps[|steps| - 1];
      var before := Conditions(front);
      assert Conditions(steps) == before + last.conditions;
      forall i | 0 <= i < |before| ensures EdgeError(catalog, before[i]).None? {
        assert Conditions(steps)[i] == before[i];
      }
      TablesNamed(catalog, root, front);
      TablesOfMore(catalog, root, before, last.conditions);
      TablesInMore(root, steps);
      assert Connects(catalog, last.table, TablesIn(root, front), last.conditions[0]);
      NamedByConditions(catalog, last.table, TablesIn(root, front), last.conditions);
    }
  }

  lemma TablesInMore(root: TableId, steps: seq<Step>)
    requires steps != []
    ensures TablesIn(root, steps) == TablesIn(root, steps[..|steps| - 1]) + {steps[|steps| - 1].table}
  {
    var front, last := steps[..|steps| - 1], steps[|steps| - 1];
    forall t ensures t in TablesIn(root, steps) <==> t in TablesIn(root, front) || t == last.table {
      if i :| 0 <= i < |steps| && steps[i].table == t {
        assert i < |front| ==> front[i].table == t;
      }
      if i :| 0 <= i < |front| && front[i].table == t {
        assert steps[i].table == t;
      }
    }
  }

  lemma TablesOfMore(catalog: Catalog, root: TableId, before: seq<JoinEdge>, more: seq<JoinEdge>)
    requires Resolves(catalog, before + more) && Resolves(catalog, before) && Resolves(catalog, more)
    ensures TablesOf(catalog, root, before + more) == TablesOf(catalog, root, before) + TablesOf(catalog, root, more)
  {
    var all := before + more;
    forall t ensures t in TablesOf(catalog, root, all) <==> t in TablesOf(catalog, root, before) || t in TablesOf(catalog, root, more) {
      if i :| 0 <= i < |all| && (catalog.ids[all[i].leftTable] == t || catalog.ids[all[i].rightTable] == t) {
        assert if i < |before| then all[i] == before[i] else all[i] == more[i - |before|];
      }
      if i :| 0 <= i < |before| && (catalog.ids[before[i].leftTable] == t || catalog.ids[before[i].rightTable] == t) {
        assert all[i] == before[i];
      }
      if i :| 0 <= i < |more| && (catalog.ids[more[i].leftTable] == t || catalog.ids[more[i].rightTable] == t) {
        assert all[|before| + i] == more[i];
      }
    }
  }

  lemma NamedByConditions(catalog: Catalog, table: TableId, earlier: set<TableId>, conditions: seq<JoinEdge>)
    requires Resolves(catalog, conditions) && conditions != []
    requires forall j :: 0 <= j < |conditions| ==> Connects(catalog, table, earlier, conditions[j])
    ensures forall root :: root in earlier ==> TablesOf(catalog, root, conditions) + earlier == earlier + {table}
  {
    assert Connects(catalog, table, earlier, conditions[0]);
    forall root, t | root in earlier && t in TablesOf(catalog, root, conditions) ensures t in earlier + {table} {
      if i :| 0 <= i < |conditions| && (catalog.ids[conditions[i].leftTable] == t || catalog.ids[conditions[i].rightTable] == t) {
        assert Connects(catalog, table, earlier, conditions[i]);
      }
    }
    forall root | root in earlier ensures table in TablesOf(catalog, root, conditions) {
      assert catalog.ids[conditions[0].leftTable] == table || catalog.ids[conditions[0].rightTable] == table;
    }
  }

  /** Different tables have different ids. */
  ghost predicate DistinctIds(catalog: Catalog) {
    forall a, b :: a in catalog.ids && b in catalog.ids && catalog.ids[a] == catalog.ids[b] ==> a == b
  }

  /** An edge carries the name its target has in the graph. */
  lemma TargetNamed(catalog: Catalog, joins: seq<JoinEdge>, edges: EdgeMap, names: map<TableId, string>, t: TableId, e: Edge)
    requires Resolves(catalog, joins) && FollowJoins(catalog, joins, edges) && e in EdgesOf(edges, t)
    requires DistinctIds(catalog) && Named(catalog, names)
    ensures e.targetTable in catalog.ids && catalog.ids[e.targetTable] == e.target
    ensures e.target in names ==> names[e.target] == e.targetTable
  {
    var i :| 0 <= i < |joins| && Along(catalog, joins[i], t, e);
  }

  /** What the graph builder yields for the conditions of a chain is its dependency graph, over a cache
      that holds the tables under their names. */
  lemma BuiltIsGraphOf(query: Query, catalog: Catalog, distance: map<TableId, nat>, ctx: Context)
    requires EdgesOfChain(query, catalog) && forall i :: 0 <= i < |query.steps| ==> query.steps[i].conditions != []
    requires BuildOutcome(catalog, query.root, Conditions(query.steps), query.edges, distance, Built(ctx.graph))
    requires DistinctIds(catalog) && forall name :: name in catalog.ids ==> name in ctx.cache
    ensures GraphOf(query, catalog, distance, ctx)
  {
    hide IsOriented, ShortestDistances, Resolves, FollowJoins, Followed, IsUndirected, WellJoined, Conditions, TablesOf,
         DistinctIds, Named;
    TablesNamed(catalog, query.root, query.steps);
    forall t, e | e in EdgesOf(query.edges, t)
      ensures e.targetTable in ctx.cache && (ctx.HasStore(e.target) ==> ctx.cache[e.targetTable] == ctx.StoreOf(e.target))
    {
      TargetNamed(catalog, Conditions(query.steps), query.edges, ctx.graph.names, t, e);
    }
  }

  /** A joined pair is a link: from a stored row, or from the old image of a changed one, to a row
      still stored. */
  lemma JoinedIsLink(ctx: Context, e: Edge, from: Node, source: Tuple, to: Node)
    requires e in EdgesOf(ctx.graph.edges, from.table) && e.target == to.table
    requires ctx.HasStore(from.table) && ctx.HasStore(to.table)
    requires e.targetTable in ctx.cache && ctx.cache[e.targetTable] == ctx.StoreOf(to.table)
    requires to.row in ctx.StoreOf(to.table).rows
    requires Joined(source, e, ctx.StoreOf(to.table).rows[to.row])
    requires source in ctx.ImagesOf(from.table)
          || (from.row in ctx.StoreOf(from.table).rows && ctx.StoreOf(from.table).rows[from.row] == source)
    ensures Link(ctx, from, to)
  {
    var value := ColumnOf(source, e.sourceColumn);
    var stored := ctx.StoreOf(to.table).rows[to.row][e.targetColumn];
    SqlEqVersusCompare(stored, value);
    assert Matches(e.lookup, stored, value);
    assert value in JoinValues(ctx.StoreOf(from.table), {from.row}, ctx.ImagesOf(from.table), e.sourceColumn);
    assert LinkOver(ctx, from, e, to.row);
  }

  /** A set of nodes that holds the changed rows and is closed under links. */
  ghost predicate Spread(ctx: Context, changes: Dirty, reached: iset<Node>) {
    && (forall node :: Changed(ctx, changes, node) ==> node in reached)
    && (forall from, to :: from in reached && Link(ctx, from, to) ==> to in reached)
  }

  /** A link between the chosen rows of two tables, when the one nearer the root did not change. */
  lemma ChosenRowsLink(ctx: Context, before: Database, after: Database, changes: Dirty,
                       db: Database, choice: Choice, t: TableId, e: Edge)
    requires Records(ctx, before, after, changes)
    requires db == before || db == after
    requires JoinedOver(db, choice, t, e)
    requires t in ctx.graph.names && e.target in ctx.graph.names && e in EdgesOf(ctx.graph.edges, t)
    requires e.targetTable in ctx.cache && ctx.cache[e.targetTable] == ctx.StoreOf(e.target)
    requires SameRow(before, after, t, choice[t]) || choice[t] in RowsOf(changes, t)
    requires SameRow(before, after, e.target, choice[e.target])
    ensures Link(ctx, Node(t, choice[t]), Node(e.target, choice[e.target]))
  {
    var source := db[t][choice[t]];
    if !(source in ctx.ImagesOf(t)) {
      assert Stored(db, t, choice[t]);
      assert choice[t] in ctx.StoreOf(t).rows && ctx.StoreOf(t).rows[choice[t]] == source;
    }
    JoinedIsLink(ctx, e, Node(t, choice[t]), source, Node(e.target, choice[e.target]));
  }

  /** The chosen rows nearer the root than `t` are unchanged. */
  ghost predicate NearRowsSame(before: Database, after: Database, distance: map<TableId, nat>, choice: Choice, t: TableId)
    requires t in distance && choice.Keys <= distance.Keys
  {
    forall u :: u in choice && distance[u] < distance[t] ==> SameRow(before, after, u, choice[u])
  }

  lemma KeptEdge(query: Query, catalog: Catalog, distance: map<TableId, nat>, ctx: Context, t: TableId, e: Edge)
    requires GraphOf(query, catalog, distance, ctx) && e in EdgesOf(ctx.graph.edges, t)
    ensures t in distance && e in EdgesOf(query.edges, t) && e.target in distance && distance[e.target] < distance[t]
    ensures query.Tables() == distance.Keys == ctx.graph.names.Keys && e.targetTable in ctx.cache
    ensures ctx.HasStore(e.target) ==> ctx.cache[e.targetTable] == ctx.StoreOf(e.target)
  {
    hide EdgesOfChain, ShortestDistances;
  }

  lemma ChainOf(query: Query, catalog: Catalog, distance: map<TableId, nat>, ctx: Context)
    requires GraphOf(query, catalog, distance, ctx)
    ensures EdgesOfChain(query, catalog) && Resolved(catalog, query.steps) && WellJoined(catalog, query.root, query.steps)
    ensures query.Tables() == distance.Keys == ctx.graph.names.Keys
  {}

  lemma RecordsStores(ctx: Context, before: Database, after: Database, changes: Dirty, t: TableId)
    requires Records(ctx, before, after, changes) && t in ctx.graph.names
    ensures ctx.HasStore(t)
  {}

  lemma SpreadOver(ctx: Context, changes: Dirty, reached: iset<Node>, from: Node, to: Node)
    requires Spread(ctx, changes, reached) && from in reached && Link(ctx, from, to)
    ensures to in reached
  {}

  /** A reached row, joined with unchanged rows on a kept path to the root, reaches the root. */
  lemma {:induction false} PathReachesRoot(query: Query, catalog: Catalog, distance: map<TableId, nat>, ctx: Context,
                                           before: Database, after: Database, changes: Dirty, reached: iset<Node>,
                                           db: Database, choice: Choice, inside: set<TableId>, t: TableId, n: nat)
    requires GraphOf(query, catalog, distance, ctx) && Records(ctx, before, after, changes) && Spread(ctx, changes, reached)
    requires db == before || db == after
    requires AllJoined(query, db, choice) && inside <= choice.Keys <= query.Tables()
    requires ReachesIn(ctx.graph.edges, inside, t, query.root, n) && Node(t, choice[t]) in reached
    requires SameRow(before, after, t, choice[t]) || choice[t] in RowsOf(changes, t)
    requires NearRowsSame(before, after, distance, choice, t)
    ensures query.root in choice && Node(query.root, choice[query.root]) in reached
    decreases n
  {
    hide GraphOf, Records, Spread, SameRow, JoinedOver, Link, EdgesOf;
    if n > 0 {
      var e :| e in EdgesOf(ctx.graph.edges, t) && ReachesIn(ctx.graph.edges, inside, e.target, query.root, n - 1);
      KeptEdge(query, catalog, distance, ctx, t, e);
      RecordsStores(ctx, before, after, changes, e.target);
      assert JoinedOver(db, choice, t, e);
      assert SameRow(before, after, e.target, choice[e.target]);
      ChosenRowsLink(ctx, before, after, changes, db, choice, t, e);
      SpreadOver(ctx, changes, reached, Node(t, choice[t]), Node(e.target, choice[e.target]));
      PathReachesRoot(query, catalog, distance, ctx, before, after, changes, reached, db, choice, inside, e.target, n - 1);
    }
  }

  lemma ChangedRowIsRecorded(ctx: Context, before: Database, after: Database, changes: Dirty, table: TableId, row: RowId)
    requires Records(ctx, before, after, changes) && table in ctx.graph.names && !SameRow(before, after, table, row)
    ensures Changed(ctx, changes, Node(table, row))
  {
  }

  /** Chosen rows that meet their joins, with those every result has, over a database before or after. */
  ghost predicate Linked(query: Query, catalog: Catalog, db: Database, choice: Choice)
    requires Resolved(catalog, query.steps)
  {
    && choice.Keys <= query.Tables() && InnerTables(query.root, query.steps) <= choice.Keys
    && MetAll(query, catalog, db, choice)
  }

  lemma TableLeads(catalog: Catalog, query: Query, kept: EdgeMap, t: TableId)
    requires Resolved(catalog, query.steps) && AllLead(catalog, query, kept) && t in query.Tables()
    ensures Leads(catalog, query, kept, t)
  {}

  /** A changed row among them reaches the root when the tables lead there. */
  lemma {:induction false} ChangedReachesRoot(query: Query, catalog: Catalog, distance: map<TableId, nat>, ctx: Context,
                                              before: Database, after: Database, changes: Dirty, reached: iset<Node>,
                                              db: Database, choice: Choice, t: TableId)
    requires GraphOf(query, catalog, distance, ctx) && Records(ctx, before, after, changes) && Spread(ctx, changes, reached)
    requires AllLead(catalog, query, ctx.graph.edges)
    requires db == before || db == after
    requires Linked(query, catalog, db, choice) && t in choice && !SameRow(before, after, t, choice[t])
    ensures query.root in choice && Node(query.root, choice[query.root]) in reached
    decreases distance[t]
  {
    ChainOf(query, catalog, distance, ctx);
    hide GraphOf, Records, Spread, SameRow, AllLead, EdgesOfChain, WellJoined, Resolved, MetAll, Company;
    if u :| u in choice && distance[u] < distance[t] && !SameRow(before, after, u, choice[u]) {
      ChangedReachesRoot(query, catalog, distance, ctx, before, after, changes, reached, db, choice, u);
    } else {
      ChangedRowIsRecorded(ctx, before, after, changes, t, choice[t]);
      MetAllJoined(query, catalog, db, choice);
      CompanyIsChosen(query, catalog, db, choice, t);
      TableLeads(catalog, query, ctx.graph.edges, t);
      var n: nat :| ReachesIn(ctx.graph.edges, Company(catalog, query, t), t, query.root, n);
      PathReachesRoot(query, catalog, distance, ctx, before, after, changes, reached, db, choice,
                      Company(catalog, query, t), t, n);
    }
  }

  ghost function AffectedNodes(ctx: Context, changes: Dirty): iset<Node> {
    iset node: Node | Affected(ctx, changes, node)
  }

  lemma AffectedSpreads(ctx: Context, changes: Dirty)
    ensures Spread(ctx, changes, AffectedNodes(ctx, changes))
  {
    forall node | Changed(ctx, changes, node)
      ensures node in AffectedNodes(ctx, changes)
    {
      assert Chain(ctx, changes, [node]);
    }
    forall from, to | from in AffectedNodes(ctx, changes) && Link(ctx, from, to)
      ensures to in AffectedNodes(ctx, changes)
    {
      AffectedStep(ctx, changes, from, to);
    }
  }

  /** The collected roots: exactly the affected rows of the root table. */
  ghost predicate Collected(query: Query, ctx: Context, changes: Dirty, roots: set<RowId>) {
    forall row :: row in roots <==> Affected(ctx, changes, Node(query.root, row))
  }

  /** A linked choice with an uncollected root is made of unchanged rows. */
  lemma UncollectedChoiceIsSame(query: Query, catalog: Catalog, distance: map<TableId, nat>, ctx: Context,
                                before: Database, after: Database, changes: Dirty, roots: set<RowId>,
                                db: Database, choice: Choice)
    requires GraphOf(query, catalog, distance, ctx) && Records(ctx, before, after, changes)
    requires AllLead(catalog, query, ctx.graph.edges) && Collected(query, ctx, changes, roots)
    requires db == before || db == after
    requires Linked(query, catalog, db, choice) && query.root in choice && choice[query.root] !in roots
    ensures forall t :: t in choice ==> SameRow(before, after, t, choice[t])
  {
    forall t | t in choice
      ensures SameRow(before, after, t, choice[t])
    {
      if !SameRow(before, after, t, choice[t]) {
        AffectedSpreads(ctx, changes);
        ChangedReachesRoot(query, catalog, distance, ctx, before, after, changes, AffectedNodes(ctx, changes), db, choice, t);
        assert false;
      }
    }
  }

  lemma SameRowsMet(catalog: Catalog, db: Database, db': Database, step: Step, choice: Choice)
    requires Resolves(catalog, step.conditions) && Met(catalog, db, step, choice)
    requires forall t :: t in choice ==> SameRow(db, db', t, choice[t])
    ensures Met(catalog, db', step, choice)
  {
    forall k | 0 <= k < |step.conditions| ensures ConditionMet(catalog, db', choice, step.conditions[k]) {
      assert ConditionMet(catalog, db, choice, step.conditions[k]);
    }
  }

  /** A row that starts to match a left join changed, and so did the result's root collect. */
  lemma NoNewMatch(query: Query, catalog: Catalog, distance: map<TableId, nat>, ctx: Context,
                   before: Database, after: Database, changes: Dirty, roots: set<RowId>,
                   db: Database, db': Database, choice: Choice, i: nat, r: RowId)
    requires GraphOf(query, catalog, distance, ctx) && Records(ctx, before, after, changes)
    requires AllLead(catalog, query, ctx.graph.edges) && Collected(query, ctx, changes, roots)
    requires (db == before && db' == after) || (db == after && db' == before)
    requires IsCombination(query, catalog, db, choice) && choice[query.root] !in roots
    requires forall t :: t in choice ==> SameRow(db, db', t, choice[t])
    requires i < |query.steps| && query.steps[i].table !in choice && Stored(db', query.steps[i].table, r)
    ensures !Met(catalog, db', query.steps[i], choice[query.steps[i].table := r])
  {
    hide *;
    ChainOf(query, catalog, distance, ctx);
    RootIsChosen(query, catalog, db, choice);
    var step := query.steps[i];
    var longer := choice[step.table := r];
    if Met(catalog, db', step, longer) {
      OldMatch(query, catalog, db, db', choice, i, r);
      LongerIsLinked(query, catalog, db, db', choice, i, r);
      StillMissed(query, choice, i);
      SameRowFlips(db, db', step.table, r);
      UncollectedChoiceIsSame(query, catalog, distance, ctx, before, after, changes, roots, db', longer);
      PickSame(before, after, longer, step.table);
      assert false;
    }
  }

  lemma PickSame(before: Database, after: Database, choice: Choice, t: TableId)
    requires t in choice && forall u :: u in choice ==> SameRow(before, after, u, choice[u])
    ensures SameRow(before, after, t, choice[t])
  {}

  lemma RootIsChosen(query: Query, catalog: Catalog, db: Database, choice: Choice)
    requires Resolved(catalog, query.steps) && IsCombination(query, catalog, db, choice)
    ensures query.root in choice
  {}

  lemma SameRowFlips(before: Database, after: Database, table: TableId, row: RowId)
    ensures SameRow(before, after, table, row) <==> SameRow(after, before, table, row)
  {}

  lemma StillMissed(query: Query, choice: Choice, i: nat)
    requires i < |query.steps| && query.steps[i].table !in choice && query.root in choice
    ensures query.steps[i].table != query.root && query.steps[i].table in query.Tables()
  {}

  /** A row that matches now and did not match before is another row. */
  lemma OldMatch(query: Query, catalog: Catalog, db: Database, db': Database, choice: Choice, i: nat, r: RowId)
    requires Resolved(catalog, query.steps) && IsCombination(query, catalog, db, choice)
    requires forall t :: t in choice ==> SameRow(db, db', t, choice[t])
    requires i < |query.steps| && query.steps[i].table !in choice && Stored(db', query.steps[i].table, r)
    requires Met(catalog, db', query.steps[i], choice[query.steps[i].table := r])
    ensures !SameRow(db, db', query.steps[i].table, r)
  {
    var step := query.steps[i];
    var longer := choice[step.table := r];
    assert StepHolds(catalog, db, step, choice);
    hide IsCombination, Met;
    if SameRow(db, db', step.table, r) {
      SameRowsMet(catalog, db', db, step, longer);
      assert false;
    }
  }

  lemma LongerIsLinked(query: Query, catalog: Catalog, db: Database, db': Database, choice: Choice, i: nat, r: RowId)
    requires EdgesOfChain(query, catalog) && IsCombination(query, catalog, db, choice)
    requires forall t :: t in choice ==> SameRow(db, db', t, choice[t])
    requires i < |query.steps| && query.steps[i].table !in choice
    requires Met(catalog, db', query.steps[i], choice[query.steps[i].table := r])
    ensures Linked(query, catalog, db', choice[query.steps[i].table := r])
  {
    var step := query.steps[i];
    var longer := choice[step.table := r];
    CombinationParts(query, catalog, db, choice);
    forall k | 0 <= k < |query.steps| && query.steps[k].table in longer ensures Met(catalog, db', query.steps[k], longer) {
      if query.steps[k].table in choice {
        var other := query.steps[k];
        assert Met(catalog, db, other, choice);
        SameRowsMet(catalog, db, db', other, choice);
        forall j | 0 <= j < |other.conditions| ensures ConditionMet(catalog, db', longer, other.conditions[j]) {
          assert ConditionMet(catalog, db', choice, other.conditions[j]);
        }
      } else {
        DistinctTables(catalog, query.root, query.steps, i, k);
      }
    }
  }

  lemma {:induction false} DistinctTables(catalog: Catalog, root: TableId, steps: seq<Step>, i: nat, k: nat)
    requires WellJoined(catalog, root, steps) && i < |steps| && k < |steps| && steps[i].table == steps[k].table
    ensures i == k
  {
    var front, last := steps[..|steps| - 1], steps[|steps| - 1];
    assert i < |front| ==> front[i] == steps[i] && front[i].table in TablesIn(root, front);
    assert k < |front| ==> front[k] == steps[k] && front[k].table in TablesIn(root, front);
    if i < |front| && k < |front| {
      DistinctTables(catalog, root, front, i, k);
    }
  }

  /** A combination of unchanged rows stays one unless a new row matches. */
  lemma StaysCombination(query: Query, catalog: Catalog, distance: map<TableId, nat>, ctx: Context,
                         before: Database, after: Database, changes: Dirty, roots: set<RowId>,
                         db: Database, db': Database, choice: Choice)
    requires GraphOf(query, catalog, distance, ctx) && Records(ctx, before, after, changes)
    requires AllLead(catalog, query, ctx.graph.edges) && Collected(query, ctx, changes, roots)
    requires (db == before && db' == after) || (db == after && db' == before)
    requires IsCombination(query, catalog, db, choice) && choice[query.root] !in roots
    ensures IsCombination(query, catalog, db', choice) && Images(query, db, choice) == Images(query, db', choice)
  {
    ChainOf(query, catalog, distance, ctx);
    hide GraphOf, Records, AllLead, Collected, EdgesOfChain, WellJoined, Met, MetAll;
    CombinationParts(query, catalog, db, choice);
    UncollectedChoiceIsSame(query, catalog, distance, ctx, before, after, changes, roots, db, choice);
    assert forall t :: t in choice ==> SameRow(db, db', t, choice[t]);
    hide SameRow;
    forall i | 0 <= i < |query.steps| ensures StepHolds(catalog, db', query.steps[i], choice) {
      var step := query.steps[i];
      assert StepHolds(catalog, db, step, choice);
      if step.table in choice {
        SameRowsMet(catalog, db, db', step, choice);
      } else {
        forall r | Stored(db', step.table, r) ensures !Met(catalog, db', step, choice[step.table := r]) {
          NoNewMatch(query, catalog, distance, ctx, before, after, changes, roots, db, db', choice, i, r);
        }
      }
    }
    SameImagesOf(query, db, db', choice);
  }

  lemma SameImagesOf(query: Query, db: Database, db': Database, choice: Choice)
    requires Present(query, db, choice) && forall t :: t in choice ==> SameRow(db, db', t, choice[t])
    ensures Present(query, db', choice) && Images(query, db, choice) == Images(query, db', choice)
  {}

  /** Main result: where the tables lead to the root, a combination whose root was not collected is a
      result before exactly when it is one after, made of the same rows. */
  lemma UncollectedRootsKeepTheirResults(query: Query, catalog: Catalog, distance: map<TableId, nat>, ctx: Context,
                                         before: Database, after: Database, changes: Dirty,
                                         roots: set<RowId>, choice: Choice)
    requires GraphOf(query, catalog, distance, ctx) && Records(ctx, before, after, changes)
    requires AllLead(catalog, query, ctx.graph.edges) && Collected(query, ctx, changes, roots)
    requires query.root in choice && choice[query.root] !in roots
    ensures Satisfies(query, catalog, before, choice) <==> Satisfies(query, catalog, after, choice)
    ensures Satisfies(query, catalog, before, choice) ==> Images(query, before, choice) == Images(query, after, choice)
  {
    ChainOf(query, catalog, distance, ctx);
    hide GraphOf, Records, AllLead, Collected, IsCombination, WellJoined, EdgesOfChain;
    if IsCombination(query, catalog, before, choice) {
      StaysCombination(query, catalog, distance, ctx, before, after, changes, roots, before, after, choice);
    } else if IsCombination(query, catalog, after, choice) {
      StaysCombination(query, catalog, distance, ctx, before, after, changes, roots, after, before, choice);
    }
  }

  // ----- Inner joins lead to the root ----------------------------------------------------------

  /** The next table on the way to the root, over an edge the graph keeps. */
  lemma EdgeTowardsRoot(query: Query, catalog: Catalog, distance: map<TableId, nat>, kept: EdgeMap, t: TableId)
    returns (e: Edge)
    requires EdgesOfChain(query, catalog) && ShortestDistances(query.edges, query.root, distance)
    requires IsOriented(query.edges, distance, kept) && t in distance && distance[t] > 0
    ensures e in EdgesOf(kept, t) && e.target in distance && distance[e.target] < distance[t]
  {
    var u := CloserNeighbour(query.edges, query.root, distance, t);
    UndirectedSymmetric(catalog, Conditions(query.steps), query.edges, u, t);
    e :| e in EdgesOf(query.edges, t) && e.target == u;
  }

  lemma {:induction false} ReachesInside(query: Query, catalog: Catalog, distance: map<TableId, nat>, kept: EdgeMap,
                                         inside: set<TableId>, t: TableId) returns (n: nat)
    requires EdgesOfChain(query, catalog) && ShortestDistances(query.edges, query.root, distance)
    requires IsOriented(query.edges, distance, kept) && t in distance && distance.Keys <= inside
    ensures ReachesIn(kept, inside, t, query.root, n)
    decreases distance[t]
  {
    hide *;
    if distance[t] == 0 {
      n := 0;
      AtRoot(query, distance, kept, inside, t);
    } else {
      var e := EdgeTowardsRoot(query, catalog, distance, kept, t);
      var rest := ReachesInside(query, catalog, distance, kept, inside, e.target);
      n := rest + 1;
      OneFurther(kept, inside, t, e, query.root, rest);
    }
  }

  lemma AtRoot(query: Query, distance: map<TableId, nat>, kept: EdgeMap, inside: set<TableId>, t: TableId)
    requires ShortestDistances(query.edges, query.root, distance) && t in distance && distance[t] == 0 && t in inside
    ensures ReachesIn(kept, inside, t, query.root, 0)
  {
    assert WalkOfLength(query.edges, query.root, t, 0);
  }

  lemma OneFurther(kept: EdgeMap, inside: set<TableId>, t: TableId, e: Edge, root: TableId, n: nat)
    requires t in inside && e in EdgesOf(kept, t) && ReachesIn(kept, inside, e.target, root, n)
    ensures ReachesIn(kept, inside, t, root, n + 1)
  {}

  /** With inner joins only, every table leads to the root. */
  lemma InnerJoinsLead(query: Query, catalog: Catalog, distance: map<TableId, nat>, kept: EdgeMap)
    requires EdgesOfChain(query, catalog) && ShortestDistances(query.edges, query.root, distance)
    requires IsOriented(query.edges, distance, kept) && query.Tables() == distance.Keys
    requires forall i :: 0 <= i < |query.steps| ==> !query.steps[i].left
    ensures AllLead(catalog, query, kept)
  {
    forall t | t in query.Tables() ensures Leads(catalog, query, kept, t) {
      NeededBounds(catalog, query.root, query.steps, {t} + InnerTables(query.root, query.steps));
      var n := ReachesInside(query, catalog, distance, kept, Company(catalog, query, t), t);
    }
  }

  // ----- Result rows ---------------------------------------------------------------------------

  function Map<A, B>(f: A -> B, s: seq<A>): seq<B> {
    seq(|s|, i requires 0 <= i < |s| => f(s[i]))
  }

  ghost predicate Distinct<A(!new)>(s: seq<A>) {
    forall i, j :: 0 <= i < j < |s| ==> s[i] != s[j]
  }

  /** How a choice shows up in the result; only results are ever rendered. */
  function Render(query: Query, db: Database): Choice -> RowOrder.Row {
    (choice: Choice) =>
      if Present(query, db, choice) && query.root in choice then
        var (values, version) := query.render(Images(query, db, choice));
        RowOrder.Row(values, version, choice[query.root])
      else RowOrder.Row([], 0, 0)
  }

  /** The rows the plan yields before ordering: every satisfying choice once, in any order. */
  ghost predicate IsOutput(query: Query, catalog: Catalog, db: Database, choices: seq<Choice>, rows: seq<RowOrder.Row>)
    requires Resolved(catalog, query.steps)
  {
    && Distinct(choices)
    && (forall choice :: choice in choices <==> Satisfies(query, catalog, db, choice))
    && rows == Map(Render(query, db), choices)
  }

  lemma {:induction false} DistinctCounts<A(!new)>(s: seq<A>, a: A)
    requires Distinct(s)
    ensures multiset(s)[a] == if a in s then 1 else 0
  {
    if s != [] {
      assert s == [s[0]] + s[1..];
      DistinctCounts(s[1..], a);
    }
  }

  lemma SameMembers<A(!new)>(s: seq<A>, t: seq<A>)
    requires Distinct(s) && Distinct(t) && forall a :: a in s <==> a in t
    ensures multiset(s) == multiset(t)
  {
    forall a
      ensures multiset(s)[a] == multiset(t)[a]
    {
      DistinctCounts(s, a);
      DistinctCounts(t, a);
    }
  }

  lemma MapRemove<A, B>(f: A -> B, s: seq<A>, k: nat)
    requires k < |s|
    ensures multiset(Map(f, s)) == multiset(Map(f, s[..k] + s[k + 1..])) + multiset{f(s[k])}
  {
    var image := Map(f, s);
    assert image == image[..k] + [f(s[k])] + image[k + 1..];
    assert Map(f, s[..k] + s[k + 1..]) == image[..k] + image[k + 1..];
  }

  lemma FindAndRemove<A>(s: seq<A>, t: seq<A>) returns (k: nat)
    requires s != [] && multiset(s) == multiset(t)
    ensures k < |t| && t[k] == s[0] && multiset(s[1..]) == multiset(t[..k] + t[k + 1..])
  {
    assert s[0] in multiset(t);
    k :| 0 <= k < |t| && t[k] == s[0];
    RemoveOne(s, 0);
    RemoveOne(t, k);
    assert s[..0] + s[1..] == s[1..];
  }

  lemma RemoveOne<A>(s: seq<A>, k: nat)
    requires k < |s|
    ensures multiset(s[..k] + s[k + 1..]) == multiset(s) - multiset{s[k]}
  {
    assert s == s[..k] + [s[k]] + s[k + 1..];
  }

  /** Rearrangements have rearranged images. */
  lemma {:induction false} MapRearranged<A, B>(f: A -> B, s: seq<A>, t: seq<A>)
    requires multiset(s) == multiset(t)
    ensures multiset(Map(f, s)) == multiset(Map(f, t))
  {
    assert |s| == |multiset(s)| && |t| == |multiset(t)|;
    if s != [] {
      var k := FindAndRemove(s, t);
      MapRearranged(f, s[1..], t[..k] + t[k + 1..]);
      MapRemove(f, s, 0);
      MapRemove(f, t, k);
      assert s[..0] + s[1..] == s[1..];
    }
  }

  lemma {:induction false} KeepOfMap<A, B>(f: A -> B, s: seq<A>, p: B -> bool, q: A -> bool)
    requires forall a :: a in s ==> p(f(a)) == q(a)
    ensures Window.Keep(Map(f, s), p) == Map(f, Window.Keep(s, q))
  {
    if s != [] {
      KeepOfMap(f, s[1..], p, q);
      assert Map(f, s)[1..] == Map(f, s[1..]);
    }
  }

  lemma {:induction false} KeepDistinct<A(!new)>(s: seq<A>, q: A -> bool)
    requires Distinct(s)
    ensures Distinct(Window.Keep(s, q))
    ensures forall a :: a in Window.Keep(s, q) <==> a in s && q(a)
  {
    if s != [] {
      KeepDistinct(s[1..], q);
      assert s == [s[0]] + s[1..];
    }
  }

  function RootOutside(query: Query, roots: set<RowId>): Choice -> bool {
    (choice: Choice) => query.root in choice && choice[query.root] !in roots
  }

  lemma KeepOutput(query: Query, catalog: Catalog, db: Database, choices: seq<Choice>, rows: seq<RowOrder.Row>, roots: set<RowId>)
    requires Resolved(catalog, query.steps) && IsOutput(query, catalog, db, choices, rows)
    ensures var outside := Window.Keep(choices, RootOutside(query, roots));
            && Window.Keep(rows, SnapshotRefresh.Outside(roots)) == Map(Render(query, db), outside)
            && Distinct(outside)
            && forall c :: c in outside <==> Satisfies(query, catalog, db, c) && RootOutside(query, roots)(c)
  {
    forall choice | choice in choices
      ensures SnapshotRefresh.Outside(roots)(Render(query, db)(choice)) == RootOutside(query, roots)(choice)
    {
      assert Satisfies(query, catalog, db, choice);
    }
    KeepOfMap(Render(query, db), choices, SnapshotRefresh.Outside(roots), RootOutside(query, roots));
    KeepDistinct(choices, RootOutside(query, roots));
  }

  /** Main result: the roots collected from a recorded change account for every row of the result
      that differs. */
  lemma CollectedRootsCover(query: Query, catalog: Catalog, distance: map<TableId, nat>,
                            ctx: Context, before: Database, after: Database, changes: Dirty, roots: set<RowId>,
                            choices: seq<Choice>, rows: seq<RowOrder.Row>, choices': seq<Choice>, rows': seq<RowOrder.Row>)
    requires GraphOf(query, catalog, distance, ctx) && Records(ctx, before, after, changes)
    requires AllLead(catalog, query, ctx.graph.edges) && Collected(query, ctx, changes, roots)
    requires IsOutput(query, catalog, before, choices, rows) && IsOutput(query, catalog, after, choices', rows')
    ensures SnapshotRefresh.Covers(rows, roots, rows')
  {
    ChainOf(query, catalog, distance, ctx);
    hide GraphOf, Records, AllLead, Collected, IsCombination, WellJoined, EdgesOfChain, Resolved;
    var p := RootOutside(query, roots);
    var outside, outside' := Window.Keep(choices, p), Window.Keep(choices', p);
    KeepOutput(query, catalog, before, choices, rows, roots);
    KeepOutput(query, catalog, after, choices', rows', roots);
    forall c | p(c)
      ensures Satisfies(query, catalog, before, c) <==> Satisfies(query, catalog, after, c)
      ensures Satisfies(query, catalog, before, c) ==> Render(query, before)(c) == Render(query, after)(c)
    {
      UncollectedRootsKeepTheirResults(query, catalog, distance, ctx, before, after, changes, roots, c);
      SameRender(query, catalog, before, after, c);
    }
    hide Satisfies, Render, IsOutput;
    SameImages(Render(query, before), Render(query, after), outside, outside');
  }

  lemma SameRender(query: Query, catalog: Catalog, before: Database, after: Database, choice: Choice)
    requires Resolved(catalog, query.steps)
    ensures Satisfies(query, catalog, before, choice) && Satisfies(query, catalog, after, choice) &&
            Images(query, before, choice) == Images(query, after, choice) ==>
              Render(query, before)(choice) == Render(query, after)(choice)
  {}

  lemma SameImages<A(!new), B>(f: A -> B, g: A -> B, s: seq<A>, t: seq<A>)
    requires Distinct(s) && Distinct(t) && (forall a :: a in s <==> a in t)
    requires forall a :: a in s ==> f(a) == g(a)
    ensures multiset(Map(f, s)) == multiset(Map(g, t))
  {
    SameMembers(s, t);
    MapRearranged(g, s, t);
    assert Map(f, s) == Map(g, s);
  }

  // ----- Runs of recorded changes --------------------------------------------------------------

  /** One notification: what the collection read and returned, and the database after it. */
  datatype Recorded = Recorded(ctx: Context, changes: Dirty, roots: Option<set<RowId>>,
                               db: Database, choices: seq<Choice>, rows: seq<RowOrder.Row>)

  ghost predicate RecordedRun(query: Query, catalog: Catalog, distance: map<TableId, nat>,
                              ok: RowOrder.Row -> bool, start: Recorded, steps: seq<Recorded>)
    requires Resolved(catalog, query.steps)
  {
    if steps == [] then IsOutput(query, catalog, start.db, start.choices, start.rows) && Window.All(start.rows, ok)
    else
      var last := steps[|steps| - 1];
      && RecordedRun(query, catalog, distance, ok, start, steps[..|steps| - 1])
      && GraphOf(query, catalog, distance, last.ctx)
      && Records(last.ctx, Latest(start, steps[..|steps| - 1]).db, last.db, last.changes)
      && IsOutput(query, catalog, last.db, last.choices, last.rows) && Window.All(last.rows, ok)
      && (last.roots.Some? ==> Collected(query, last.ctx, last.changes, last.roots.value))
  }

  function Latest(start: Recorded, steps: seq<Recorded>): Recorded {
    if steps == [] then start else steps[|steps| - 1]
  }

  function Changes(steps: seq<Recorded>): seq<SnapshotRefresh.Change> {
    if steps == [] then []
    else
      var last := steps[|steps| - 1];
      Changes(steps[..|steps| - 1]) + [SnapshotRefresh.Change(last.roots, last.rows)]
  }

  /** In every notification the tables lead to the root. */
  ghost predicate RunLeads(query: Query, catalog: Catalog, steps: seq<Recorded>)
    requires Resolved(catalog, query.steps)
  {
    forall i :: 0 <= i < |steps| ==> AllLead(catalog, query, steps[i].ctx.graph.edges)
  }

  /** The last notification of a run and what came before it. */
  lemma LastRecorded(query: Query, catalog: Catalog, distance: map<TableId, nat>, ok: RowOrder.Row -> bool,
                     start: Recorded, steps: seq<Recorded>)
    requires Resolved(catalog, query.steps) && RecordedRun(query, catalog, distance, ok, start, steps) && steps != []
    ensures var front, last := steps[..|steps| - 1], steps[|steps| - 1];
      && RecordedRun(query, catalog, distance, ok, start, front) && GraphOf(query, catalog, distance, last.ctx)
      && Records(last.ctx, Latest(start, front).db, last.db, last.changes)
      && IsOutput(query, catalog, last.db, last.choices, last.rows) && Window.All(last.rows, ok)
      && (last.roots.Some? ==> Collected(query, last.ctx, last.changes, last.roots.value))
  {
    hide GraphOf, Records, Collected, IsOutput, Window.All, Resolved;
  }

  /** The last step of a run, on the rows alone. */
  lemma GoodRunStep(ok: RowOrder.Row -> bool, db: seq<RowOrder.Row>, front: seq<SnapshotRefresh.Change>, last: SnapshotRefresh.Change)
    requires SnapshotRefresh.GoodRun(ok, db, front) && Window.All(last.db, ok)
    requires last.affected.Some? ==> SnapshotRefresh.Covers(SnapshotRefresh.DbAfter(db, front), last.affected.value, last.db)
    ensures SnapshotRefresh.GoodRun(ok, db, front + [last])
    ensures SnapshotRefresh.DbAfter(db, front + [last]) == last.db
  {
    var run := front + [last];
    assert run[..|run| - 1] == front && run[|run| - 1] == last;
  }

  lemma {:induction false} RecordedRunIsGood(query: Query, catalog: Catalog, distance: map<TableId, nat>,
                                             ok: RowOrder.Row -> bool, start: Recorded, steps: seq<Recorded>)
    requires Resolved(catalog, query.steps) && RecordedRun(query, catalog, distance, ok, start, steps)
    requires RunLeads(query, catalog, steps)
    ensures SnapshotRefresh.GoodRun(ok, start.rows, Changes(steps))
    ensures SnapshotRefresh.DbAfter(start.rows, Changes(steps)) == Latest(start, steps).rows
    ensures IsOutput(query, catalog, Latest(start, steps).db, Latest(start, steps).choices, Latest(start, steps).rows)
  {
    hide *;
    if steps == [] {
      FirstRecorded(query, catalog, distance, ok, start, steps);
    } else {
      var front, last := steps[..|steps| - 1], steps[|steps| - 1];
      var previous := Latest(start, front);
      LastRecorded(query, catalog, distance, ok, start, steps);
      LastLeads(query, catalog, start, steps);
      RecordedRunIsGood(query, catalog, distance, ok, start, front);
      if last.roots.Some? {
        CollectedRootsCover(query, catalog, distance, last.ctx, previous.db, last.db, last.changes, last.roots.value,
                            previous.choices, previous.rows, last.choices, last.rows);
      }
      GoodRunStep(ok, start.rows, Changes(front), SnapshotRefresh.Change(last.roots, last.rows));
    }
  }

  lemma FirstRecorded(query: Query, catalog: Catalog, distance: map<TableId, nat>, ok: RowOrder.Row -> bool,
                      start: Recorded, steps: seq<Recorded>)
    requires Resolved(catalog, query.steps) && RecordedRun(query, catalog, distance, ok, start, steps) && steps == []
    ensures SnapshotRefresh.GoodRun(ok, start.rows, Changes(steps)) && Latest(start, steps) == start
    ensures SnapshotRefresh.DbAfter(start.rows, Changes(steps)) == start.rows
    ensures IsOutput(query, catalog, start.db, start.choices, start.rows)
  {
    hide IsOutput, Resolved;
  }

  lemma LastLeads(query: Query, catalog: Catalog, start: Recorded, steps: seq<Recorded>)
    requires Resolved(catalog, query.steps) && RunLeads(query, catalog, steps) && steps != []
    ensures var front, last := steps[..|steps| - 1], steps[|steps| - 1];
      && RunLeads(query, catalog, front) && AllLead(catalog, query, last.ctx.graph.edges) && Latest(start, steps) == last
      && Changes(steps) == Changes(front) + [SnapshotRefresh.Change(last.roots, last.rows)]
  {
    hide AllLead, Resolved;
    var front := steps[..|steps| - 1];
    assert forall i :: 0 <= i < |front| ==> front[i] == steps[i];
  }

  lemma {:induction false} InnerRunLeads(query: Query, catalog: Catalog, distance: map<TableId, nat>,
                                         ok: RowOrder.Row -> bool, start: Recorded, steps: seq<Recorded>)
    requires Resolved(catalog, query.steps) && RecordedRun(query, catalog, distance, ok, start, steps)
    requires forall i :: 0 <= i < |query.steps| ==> !query.steps[i].left
    ensures RunLeads(query, catalog, steps)
  {
    hide *;
    if steps != [] {
      var front, last := steps[..|steps| - 1], steps[|steps| - 1];
      LastRecorded(query, catalog, distance, ok, start, steps);
      InnerRunLeads(query, catalog, distance, ok, start, front);
      InnerGraphLeads(query, catalog, distance, last.ctx);
    }
    LeadsStepwise(query, catalog, steps);
  }

  lemma LeadsStepwise(query: Query, catalog: Catalog, steps: seq<Recorded>)
    requires Resolved(catalog, query.steps)
    requires steps != [] ==>
      RunLeads(query, catalog, steps[..|steps| - 1]) && AllLead(catalog, query, steps[|steps| - 1].ctx.graph.edges)
    ensures RunLeads(query, catalog, steps)
  {
    hide AllLead, Resolved;
    forall i | 0 <= i < |steps| - 1 ensures AllLead(catalog, query, steps[i].ctx.graph.edges) {
      assert steps[..|steps| - 1][i] == steps[i];
    }
  }

  lemma InnerGraphLeads(query: Query, catalog: Catalog, distance: map<TableId, nat>, ctx: Context)
    requires GraphOf(query, catalog, distance, ctx) && Resolved(catalog, query.steps)
    requires forall i :: 0 <= i < |query.steps| ==> !query.steps[i].left
    ensures AllLead(catalog, query, ctx.graph.edges)
  {
    hide EdgesOfChain, ShortestDistances, IsOriented, AllLead;
    InnerJoinsLead(query, catalog, distance, ctx.graph.edges);
  }

  /** The live query end to end: over any run of recorded base-table changes, the visible rows are
      those of the query on the current tables, as long as the window has candidates to spare, or the
      recomputed rows sort no later than its last kept candidate. The joins are inner joins, or the
      tables lead to the root. */
  lemma LiveQueryStaysVisible(query: Query, catalog: Catalog, distance: map<TableId, nat>,
                              types: seq<int>, keys: seq<RowOrder.OrderKey>, meta: SnapshotRefresh.Metadata,
                              start: Recorded, steps: seq<Recorded>)
    requires meta.order == RowOrder.NotAfter(keys) && Resolved(catalog, query.steps)
    requires RecordedRun(query, catalog, distance, RowOrder.Typed(types), start, steps)
    requires (forall i :: 0 <= i < |query.steps| ==> !query.steps[i].left) || RunLeads(query, catalog, steps)
    requires
      || SnapshotRefresh.Spent(meta, start.rows, Changes(steps)) <= meta.candidateLimit - (meta.offset + meta.limit)
      || (SnapshotRefresh.SettledRun(meta, start.rows, Changes(steps)) && meta.MinShadowWindow() <= meta.candidateLimit)
    ensures SnapshotRefresh.Visible(meta, SnapshotRefresh.WindowAfter(meta, start.rows, Changes(steps)))
         == SnapshotRefresh.Answer(meta, Latest(start, steps).rows)
  {
    if forall i :: 0 <= i < |query.steps| ==> !query.steps[i].left {
      InnerRunLeads(query, catalog, distance, RowOrder.Typed(types), start, steps);
    }
    RecordedRunIsGood(query, catalog, distance, RowOrder.Typed(types), start, steps);
    SnapshotRefresh.TypedRowsStayVisible(types, keys, meta, start.rows, Changes(steps));
  }
}
