/** A chain of joins that the refresh gets wrong.

  A left join offers a table a shorter way to the root than the inner joins that connect it. The
  dependency graph (crates/database/src/database.rs) keeps the shorter way only, and where the left join
  finds no row it leads nowhere. */
module ShortcutJoin {
  import opened Options
  import opened Values
  import opened DependencyGraph
  import opened AffectedRoots
  import opened JoinRefresh
  import opened LeftJoins

  const TWO_COLUMNS: Schema := Schema(["x", "y"], [], [])

  function FiveTables(): Catalog {
    Catalog(map["a" := 0, "b" := 1, "c" := 2, "d" := 3, "e" := 4],
            map["a" := TWO_COLUMNS, "b" := TWO_COLUMNS, "c" := TWO_COLUMNS, "d" := TWO_COLUMNS, "e" := TWO_COLUMNS])
  }

  /** `a JOIN b ON b.x = a.x JOIN c ON c.x = b.x JOIN d ON d.x = c.x LEFT JOIN e ON e.x = d.x AND e.y = a.y` */
  const SHORTCUT: seq<Step> := [Step(1, false, [JoinEdge("b", "x", "a", "x")]), Step(2, false, [JoinEdge("c", "x", "b", "x")]),
                                Step(3, false, [JoinEdge("d", "x", "c", "x")]),
                                Step(4, true, [JoinEdge("e", "x", "d", "x"), JoinEdge("e", "y", "a", "y")])]

  const SHORTCUT_EDGES: seq<JoinEdge> := [JoinEdge("b", "x", "a", "x"), JoinEdge("c", "x", "b", "x"), JoinEdge("d", "x", "c", "x"),
                                          JoinEdge("e", "x", "d", "x"), JoinEdge("e", "y", "a", "y")]

  /** From `d` it is two joins to `a` over the left-joined `e`, three over the others. */
  const SHORTCUT_DISTANCES: map<TableId, nat> := map[0 := 0, 1 := 1, 2 := 2, 3 := 2, 4 := 1]

  predicate Adjacent(t: TableId, u: TableId) {
    (t, u) in {(0, 1), (1, 0), (1, 2), (2, 1), (2, 3), (3, 2), (3, 4), (4, 3), (0, 4), (4, 0)}
  }

  lemma ShortcutConditions()
    ensures Conditions(SHORTCUT) == SHORTCUT_EDGES
  {
    var s := SHORTCUT;
    assert s[..4] == s && s[..4][..3] == s[..3] && s[..3][..2] == s[..2] && s[..2][..1] == s[..1] && s[..1][..0] == [];
    assert Conditions(s[..1]) == s[0].conditions;
    assert Conditions(s[..2]) == s[0].conditions + s[1].conditions;
    assert Conditions(s[..3]) == s[0].conditions + s[1].conditions + s[2].conditions;
  }

  lemma ShortcutResolves()
    ensures Resolves(FiveTables(), SHORTCUT_EDGES) && Resolved(FiveTables(), SHORTCUT)
  {
    assert FindColumn(["x", "y"], "x").Some? && FindColumn(["x", "y"], "y").Some? by {
      assert FindColumn(["x", "y"][1..], "y").Some?;
    }
  }

  lemma Fronts()
    ensures var s := SHORTCUT; s[..4] == s && s[..3][..2] == s[..2] && s[..2][..1] == s[..1] && s[..1][..0] == [] == s[..0]
    ensures SHORTCUT[..4][..3] == SHORTCUT[..3] == SHORTCUT[..|SHORTCUT| - 1]
  {}

  lemma ShortcutIsWellJoined()
    ensures Resolved(FiveTables(), SHORTCUT) && WellJoined(FiveTables(), 0, SHORTCUT)
  {
    ShortcutResolves();
    Fronts();
    WellJoinedTo(1);
    WellJoinedTo(2);
    WellJoinedTo(3);
    WellJoinedTo(4);
  }

  lemma WellJoinedTo(n: nat)
    requires 0 < n <= 4 && (n > 1 ==> WellJoined(FiveTables(), 0, SHORTCUT[..n - 1]))
    ensures WellJoined(FiveTables(), 0, SHORTCUT[..n])
  {
    ShortcutResolves();
    ShortcutTables(n - 1);
    var s, c := SHORTCUT[..n], FiveTables();
    assert s[..|s| - 1] == SHORTCUT[..n - 1] && s[|s| - 1] == SHORTCUT[n - 1];
    assert WellJoined(c, 0, SHORTCUT[..n - 1]) by {
      if n == 1 {
        assert SHORTCUT[..0] == [];
      }
    }
    var last, earlier := SHORTCUT[n - 1], TablesIn(0, SHORTCUT[..n - 1]);
    StepConnects(n - 1, earlier);
    hide EdgeError, TablesIn, Connects;
  }

  lemma StepConnects(i: nat, earlier: set<TableId>)
    requires i < 4 && earlier == UpTo(i)
    ensures Resolves(FiveTables(), SHORTCUT[i].conditions) && SHORTCUT[i].table !in earlier
    ensures forall j :: 0 <= j < |SHORTCUT[i].conditions| ==>
              Connects(FiveTables(), SHORTCUT[i].table, earlier, SHORTCUT[i].conditions[j])
  {
    ShortcutResolves();
    hide EdgeError;
  }

  function UpTo(i: nat): (tables: set<TableId>)
    ensures forall t: TableId :: t in tables <==> t <= i
  {
    if i == 0 then {0} else UpTo(i - 1) + {i}
  }

  lemma ShortcutTables(n: nat)
    requires n <= 4
    ensures TablesIn(0, SHORTCUT[..n]) == UpTo(n)
  {
    if n == 0 {
      assert SHORTCUT[..0] == [];
    } else {
      ShortcutTables(n - 1);
      FrontTables(0, SHORTCUT[..n]);
      assert SHORTCUT[..n][..n - 1] == SHORTCUT[..n - 1] && SHORTCUT[n - 1].table == n;
      hide TablesIn;
    }
  }

  /** The edges that leave a table, one by one. */
  lemma {:induction false} LeavingExactly(catalog: Catalog, joins: seq<JoinEdge>, t: TableId, e: Edge)
    requires Resolves(catalog, joins)
    ensures e in EdgesLeaving(catalog, joins, t) <==> exists i :: 0 <= i < |joins| && e in LastLeaving(catalog, joins[i], t)
  {
    hide EdgesLeaving, LastLeaving, EdgeError;
    if joins == [] {
      NoneLeave(catalog, t);
    } else {
      var front, last := joins[..|joins| - 1], joins[|joins| - 1];
      LeavingLast(catalog, joins, front, last, t);
      LeavingExactly(catalog, front, t, e);
      forall i | 0 <= i < |front| ensures front[i] == joins[i] {}
    }
  }

  lemma NoneLeave(catalog: Catalog, t: TableId)
    ensures EdgesLeaving(catalog, [], t) == []
  {}

  /** The tables of a condition are neighbours. */
  lemma ConditionsConnect(i: nat, t: TableId, e: Edge)
    requires i < |SHORTCUT_EDGES| && EdgeError(FiveTables(), SHORTCUT_EDGES[i]).None?
    requires e in LastLeaving(FiveTables(), SHORTCUT_EDGES[i], t)
    ensures Adjacent(t, e.target)
  {
    var j := SHORTCUT_EDGES[i];
    assert e == LeftToRight(FiveTables(), j) || e == LeftToRight(FiveTables(), Flip(j));
  }

  lemma EdgesConnect(t: TableId, e: Edge)
    requires Resolves(FiveTables(), SHORTCUT_EDGES) && e in EdgesLeaving(FiveTables(), SHORTCUT_EDGES, t)
    ensures Adjacent(t, e.target)
  {
    LeavingExactly(FiveTables(), SHORTCUT_EDGES, t, e);
    var i :| 0 <= i < |SHORTCUT_EDGES| && e in LastLeaving(FiveTables(), SHORTCUT_EDGES[i], t);
    ConditionsConnect(i, t, e);
  }

  /** Each condition is an edge both ways. */
  lemma ConditionIsEdge(edges: EdgeMap, i: nat)
    requires Resolves(FiveTables(), SHORTCUT_EDGES) && IsUndirected(FiveTables(), SHORTCUT_EDGES, edges)
    requires i < |SHORTCUT_EDGES|
    ensures var j, ids := SHORTCUT_EDGES[i], FiveTables().ids;
      HasEdge(edges, ids[j.leftTable], ids[j.rightTable]) && HasEdge(edges, ids[j.rightTable], ids[j.leftTable])
  {
    var c, j := FiveTables(), SHORTCUT_EDGES[i];
    var l, r := c.ids[j.leftTable], c.ids[j.rightTable];
    assert EdgeError(c, j).None?;
    var e, back := LeftToRight(c, j), LeftToRight(c, Flip(j));
    assert e in LastLeaving(c, j, l) && back in LastLeaving(c, j, r);
    LeavingExactly(c, SHORTCUT_EDGES, l, e);
    LeavingExactly(c, SHORTCUT_EDGES, r, back);
    assert EdgesOf(edges, l) == EdgesLeaving(c, SHORTCUT_EDGES, l) && EdgesOf(edges, r) == EdgesLeaving(c, SHORTCUT_EDGES, r);
  }

  lemma ShortcutDistances(edges: EdgeMap)
    requires Resolves(FiveTables(), SHORTCUT_EDGES) && IsUndirected(FiveTables(), SHORTCUT_EDGES, edges)
    ensures ShortestDistances(edges, 0, SHORTCUT_DISTANCES)
  {
    hide IsUndirected, Resolves, HasEdge, WalkOfLength;
    WalkToItself(edges, 0);
    ShortcutNeighbours(edges);
    ExtendWalk(edges, 0, 0, 0, 1);
    ExtendWalk(edges, 0, 1, 1, 2);
    ExtendWalk(edges, 0, 0, 0, 4);
    ExtendWalk(edges, 0, 4, 1, 3);
    ShortcutExpanded(edges);
    hide Expanded;
    SearchedIsShortest(edges, 0, SHORTCUT_DISTANCES);
  }

  lemma ShortcutExpanded(edges: EdgeMap)
    requires forall t, u :: HasEdge(edges, t, u) ==> Adjacent(t, u)
    ensures forall t :: t in SHORTCUT_DISTANCES ==> Expanded(edges, SHORTCUT_DISTANCES, t)
  {
    hide HasEdge;
  }

  lemma ShortcutNeighbours(edges: EdgeMap)
    requires Resolves(FiveTables(), SHORTCUT_EDGES) && IsUndirected(FiveTables(), SHORTCUT_EDGES, edges)
    ensures HasEdge(edges, 0, 1) && HasEdge(edges, 1, 2) && HasEdge(edges, 0, 4) && HasEdge(edges, 4, 3)
    ensures forall t, u :: HasEdge(edges, t, u) ==> Adjacent(t, u)
  {
    hide IsUndirected, Resolves, HasEdge, Adjacent;
    forall t, u | HasEdge(edges, t, u) ensures Adjacent(t, u) {
      EdgeConnects(edges, t, u);
    }
    ConditionIsEdge(edges, 0);
    ConditionIsEdge(edges, 1);
    ConditionIsEdge(edges, 3);
    ConditionIsEdge(edges, 4);
  }

  lemma EdgeConnects(edges: EdgeMap, t: TableId, u: TableId)
    requires Resolves(FiveTables(), SHORTCUT_EDGES) && IsUndirected(FiveTables(), SHORTCUT_EDGES, edges)
    requires HasEdge(edges, t, u)
    ensures Adjacent(t, u)
  {
    var e :| e in EdgesOf(edges, t) && e.target == u;
    assert e in EdgesLeaving(FiveTables(), SHORTCUT_EDGES, t);
    hide *;
    EdgesConnect(t, e);
  }

  lemma WalkToItself(edges: EdgeMap, t: TableId)
    ensures WalkOfLength(edges, t, t, 0)
  {
    assert Walk(edges, [t], t, t);
  }

  /** The chain with its edges, distances and kept edges. */
  lemma ShortcutIsOriented() returns (query: Query, names: map<TableId, string>, kept: EdgeMap)
    ensures query.root == 0 && query.steps == SHORTCUT && Resolved(FiveTables(), SHORTCUT)
    ensures Oriented(query, FiveTables(), SHORTCUT_DISTANCES, names, kept)
  {
    ShortcutIsWellJoined();
    ShortcutConditions();
    ShortcutResolves();
    ShortcutTables(4);
    Fronts();
    hide *;
    var edges := UndirectedEdges();
    ShortcutDistances(edges);
    kept := KeptEdges(edges);
    names := map[0 := "a", 1 := "b", 2 := "c", 3 := "d", 4 := "e"];
    query := Query(0, SHORTCUT, edges, (images: map<TableId, Tuple>) => true, (images: map<TableId, Tuple>) => ([], 0));
    ShortcutParts(query, names, kept);
  }

  lemma UndirectedEdges() returns (edges: EdgeMap)
    requires Resolves(FiveTables(), SHORTCUT_EDGES)
    ensures IsUndirected(FiveTables(), SHORTCUT_EDGES, edges)
  {
    var c := FiveTables();
    edges := map t: TableId | 0 <= t <= 4 :: EdgesLeaving(c, SHORTCUT_EDGES, t);
    hide EdgesLeaving, Resolves;
    forall t | t > 4 ensures EdgesLeaving(c, SHORTCUT_EDGES, t) == [] {
      if EdgesLeaving(c, SHORTCUT_EDGES, t) != [] {
        EdgesConnect(t, EdgesLeaving(c, SHORTCUT_EDGES, t)[0]);
      }
    }
  }

  lemma KeptEdges(edges: EdgeMap) returns (kept: EdgeMap)
    ensures IsOriented(edges, SHORTCUT_DISTANCES, kept)
  {
    kept := map t | t in SHORTCUT_DISTANCES :: Closer(EdgesOf(edges, t), SHORTCUT_DISTANCES, SHORTCUT_DISTANCES[t]);
    hide Closer;
  }

  lemma ShortcutParts(query: Query, names: map<TableId, string>, kept: EdgeMap)
    requires query.root == 0 && query.steps == SHORTCUT && Conditions(SHORTCUT) == SHORTCUT_EDGES
    requires Resolved(FiveTables(), SHORTCUT) && WellJoined(FiveTables(), 0, SHORTCUT) && Resolves(FiveTables(), SHORTCUT_EDGES)
    requires IsUndirected(FiveTables(), SHORTCUT_EDGES, query.edges) && ShortestDistances(query.edges, 0, SHORTCUT_DISTANCES)
    requires IsOriented(query.edges, SHORTCUT_DISTANCES, kept) && TablesIn(0, SHORTCUT[..4]) == UpTo(4)
    requires names == map[0 := "a", 1 := "b", 2 := "c", 3 := "d", 4 := "e"]
    ensures Oriented(query, FiveTables(), SHORTCUT_DISTANCES, names, kept)
  {
    hide WellJoined, Resolved, Resolves, ShortestDistances, IsUndirected, IsOriented, TablesIn;
    Fronts();
    assert query.Tables() == SHORTCUT_DISTANCES.Keys == names.Keys;
  }

  /** Without `e`, table `d` has no way to the root. */
  lemma ShortcutDoesNotLead(query: Query, names: map<TableId, string>, kept: EdgeMap)
    requires query.root == 0 && query.steps == SHORTCUT && Resolved(FiveTables(), SHORTCUT)
    requires Oriented(query, FiveTables(), SHORTCUT_DISTANCES, names, kept)
    ensures 3 in query.Tables() && !Leads(FiveTables(), query, kept, 3)
  {
    hide *;
    ShortcutCompany(query);
    ShortcutConditions();
    var company := Company(FiveTables(), query, 3);
    forall e | e in EdgesOf(kept, 3) ensures e.target !in company {
      KeptIsCloser(query, names, kept, 3, e);
      EdgesConnect(3, e);
      FartherOrOutside(e.target);
    }
    forall n: nat ensures !ReachesIn(kept, company, 3, 0, n) {
      NoWayOut(kept, company, 3, n);
    }
    NothingLeads(FiveTables(), query, kept, 3);
  }

  lemma FartherOrOutside(t: TableId)
    requires Adjacent(3, t) && t in SHORTCUT_DISTANCES && SHORTCUT_DISTANCES[t] < SHORTCUT_DISTANCES[3]
    ensures t == 4
  {}

  lemma NothingLeads(catalog: Catalog, query: Query, kept: EdgeMap, t: TableId)
    requires Resolved(catalog, query.steps)
    requires forall n: nat :: !ReachesIn(kept, Company(catalog, query, t), t, query.root, n)
    ensures !Leads(catalog, query, kept, t)
  {}

  lemma NoWayOut(kept: EdgeMap, company: set<TableId>, t: TableId, n: nat)
    requires t != 0 && forall e :: e in EdgesOf(kept, t) ==> e.target !in company
    ensures !ReachesIn(kept, company, t, 0, n)
  {}

  lemma KeptIsCloser(query: Query, names: map<TableId, string>, kept: EdgeMap, t: TableId, e: Edge)
    requires query.root == 0 && query.steps == SHORTCUT && Conditions(SHORTCUT) == SHORTCUT_EDGES
    requires Oriented(query, FiveTables(), SHORTCUT_DISTANCES, names, kept) && e in EdgesOf(kept, t)
    ensures Resolves(FiveTables(), SHORTCUT_EDGES) && e in EdgesLeaving(FiveTables(), SHORTCUT_EDGES, t)
    ensures t in SHORTCUT_DISTANCES && e.target in SHORTCUT_DISTANCES && SHORTCUT_DISTANCES[e.target] < SHORTCUT_DISTANCES[t]
  {
    hide WellJoined, Resolved, ShortestDistances;
    EdgeIsLeaving(query, FiveTables(), t);
  }

  lemma ShortcutCompany(query: Query)
    requires query.root == 0 && query.steps == SHORTCUT && Resolved(FiveTables(), SHORTCUT)
    ensures Company(FiveTables(), query, 3) <= {0, 1, 2, 3} && 3 in query.Tables()
  {
    var c, all := FiveTables(), {0, 1, 2, 3};
    forall i | 0 <= i < |SHORTCUT| && SHORTCUT[i].table in all ensures Targets(OwnEdges(c, SHORTCUT[i])) <= all {
      OneOwnEdge(i);
    }
    assert InnerTables(0, SHORTCUT) <= all;
    hide OwnEdges, Targets, Resolved;
    NeededLeast(c, SHORTCUT, {3} + InnerTables(0, SHORTCUT), all);
    assert SHORTCUT[2].table == 3;
  }

  lemma OneOwnEdge(i: nat)
    requires i < 3 && Resolves(FiveTables(), SHORTCUT[i].conditions)
    ensures Targets(OwnEdges(FiveTables(), SHORTCUT[i])) <= {0, 1, 2, 3}
  {
    hide LastLeaving, FiveTables, EdgesLeaving;
    assert SHORTCUT[i].conditions == [SHORTCUT_EDGES[i]];
    forall e | e in OwnEdges(FiveTables(), SHORTCUT[i]) ensures e.target in {0, 1, 2, 3} {
      LeavingExactly(FiveTables(), [SHORTCUT_EDGES[i]], SHORTCUT[i].table, e);
      FrontStays(i, SHORTCUT[i].table, e);
    }
  }

  /** The first three conditions stay among the first four tables. */
  lemma FrontStays(i: nat, t: TableId, e: Edge)
    requires i < 3 && EdgeError(FiveTables(), SHORTCUT_EDGES[i]).None?
    requires e in LastLeaving(FiveTables(), SHORTCUT_EDGES[i], t)
    ensures e.target in {0, 1, 2, 3}
  {
    var j := SHORTCUT_EDGES[i];
    assert e == LeftToRight(FiveTables(), j) || e == LeftToRight(FiveTables(), Flip(j));
  }

  /** The failing input: on this chain some deletion leaves a result standing that is none any more. */
  lemma ShortcutMissesRoot()
    returns (query: Query, names: map<TableId, string>, kept: EdgeMap, ctx: Context, before: Database, after: Database, choice: Choice)
    ensures query.steps == SHORTCUT && Resolved(FiveTables(), SHORTCUT) && ctx.graph == Graph(0, names, kept)
    ensures Oriented(query, FiveTables(), SHORTCUT_DISTANCES, names, kept)
    ensures !KeepsResult(query, FiveTables(), SHORTCUT_DISTANCES, ctx, before, after, map[3 := {0}], {}, choice)
  {
    query, names, kept := ShortcutIsOriented();
    hide *;
    ShortcutDoesNotLead(query, names, kept);
    ctx, before, after, choice := MissedRoot(query, FiveTables(), SHORTCUT_DISTANCES, names, kept, 3);
  }
}
