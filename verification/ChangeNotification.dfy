/** From the row changes of a mutation to the pending deltas of the registry
  (crates/database/src/database.rs). */
module ChangeNotification {
  import opened Values
  import Registry = LiveRegistry
  import AffectedRoots
  import JoinRefresh

  type RowId = nat
  type TableId = nat
  type Tuple = seq<Value>
  type Table = map<RowId, Tuple>

  datatype StoredRow = StoredRow(id: RowId, values: Tuple)

  datatype RowChange = Insert(row: StoredRow) | Update(was: StoredRow, now: StoredRow) | Delete(row: StoredRow)

  datatype TableChange = TableChange(table: string, rowChanges: seq<RowChange>)

  // ----- What a change reports -----------------------------------------------------------------

  function DeltasFor(c: RowChange): seq<Registry.Delta> {
    match c
    case Insert(row) => [Registry.Delta(row.values, 1)]
    case Update(was, now) => [Registry.Delta(was.values, -1), Registry.Delta(now.values, 1)]
    case Delete(row) => [Registry.Delta(row.values, -1)]
  }

  /** An update reports the id the row had. */
  function ReportedId(c: RowChange): RowId {
    match c
    case Insert(row) => row.id
    case Update(was, _) => was.id
    case Delete(row) => row.id
  }

  function AllDeltas(changes: seq<RowChange>): seq<Registry.Delta> {
    if changes == [] then [] else DeltasFor(changes[0]) + AllDeltas(changes[1..])
  }

  function AllIds(changes: seq<RowChange>): set<RowId> { set c | c in changes :: ReportedId(c) }

  /** The changes of one table, in the order of the mutation. */
  function ChangesOf(changes: seq<TableChange>, table: string): seq<RowChange> {
    if changes == [] then []
    else
      var last := changes[|changes| - 1];
      ChangesOf(changes[..|changes| - 1], table) + (if last.table == table then last.rowChanges else [])
  }

  function Names(changes: seq<TableChange>): set<string> { set c | c in changes :: c.table }

  type Reports = map<string, (seq<Registry.Delta>, set<RowId>)>

  function ReportOf(changes: seq<RowChange>): (seq<Registry.Delta>, set<RowId>) { (AllDeltas(changes), AllIds(changes)) }

  lemma {:induction false} DeltasConcat(a: seq<RowChange>, b: seq<RowChange>)
    ensures AllDeltas(a + b) == AllDeltas(a) + AllDeltas(b)
  {
    if a == [] {
      assert a + b == b;
    } else {
      DeltasConcat(a[1..], b);
      assert (a + b)[1..] == a[1..] + b;
      Registry.Append(DeltasFor(a[0]), AllDeltas(a[1..]), AllDeltas(b));
    }
  }

  lemma ReportOneMore(changes: seq<RowChange>, c: RowChange)
    ensures AllDeltas(changes + [c]) == AllDeltas(changes) + DeltasFor(c)
    ensures AllIds(changes + [c]) == AllIds(changes) + {ReportedId(c)}
  {
    DeltasConcat(changes, [c]);
    assert [c][1..] == [] && AllDeltas([c]) == DeltasFor(c) + [];
    assert forall d :: d in changes + [c] <==> d in changes || d == c;
  }

  // ----- Aggregation ---------------------------------------------------------------------------

  ghost predicate Aggregated(aggregated: Reports, changes: seq<TableChange>) {
    && aggregated.Keys == Names(changes)
    && forall name :: name in aggregated ==> aggregated[name] == ReportOf(ChangesOf(changes, name))
  }

  /** Every table with a change gets one report: its deltas in order and its ids. */
  method Aggregate(changes: seq<TableChange>) returns (aggregated: Reports)
    ensures Aggregated(aggregated, changes)
  {
    hide ReportOf, ChangesOf, Aggregated;
    aggregated := map[];
    NoneAggregated();
    assert changes[..0] == [];
    for i := 0 to |changes|
      invariant Aggregated(aggregated, changes[..i])
    {
      var change := changes[i];
      KnownReport(aggregated, changes[..i], change.table);
      var entry := if change.table in aggregated then aggregated[change.table] else ([], {});
      entry := AddRowChanges(entry, change.rowChanges, ChangesOf(changes[..i], change.table));
      AggregatedOneMore(aggregated, changes[..i], change);
      aggregated := aggregated[change.table := entry];
      assert changes[..i + 1] == changes[..i] + [change];
    }
    assert changes[..|changes|] == changes;
  }

  lemma NoneAggregated()
    ensures Aggregated(map[], [])
  {}

  lemma KnownReport(aggregated: Reports, changes: seq<TableChange>, table: string)
    requires Aggregated(aggregated, changes)
    ensures (if table in aggregated then aggregated[table] else ([], {})) == ReportOf(ChangesOf(changes, table))
  {
    NoChanges(changes, table);
    assert AllIds([]) == {} && ReportOf([]) == ([], {});
  }

  lemma AggregatedOneMore(aggregated: Reports, changes: seq<TableChange>, change: TableChange)
    requires Aggregated(aggregated, changes)
    ensures var report := ReportOf(ChangesOf(changes, change.table) + change.rowChanges);
      Aggregated(aggregated[change.table := report], changes + [change])
  {
    hide ReportOf, ChangesOf, Names;
    NamesOneMore(changes, change);
    forall name ensures ChangesOf(changes + [change], name)
                     == if name == change.table then ChangesOf(changes, name) + change.rowChanges else ChangesOf(changes, name)
    {
      ChangesOneMore(changes, change, name);
    }
  }

  lemma NamesOneMore(changes: seq<TableChange>, change: TableChange)
    ensures Names(changes + [change]) == Names(changes) + {change.table}
  {
    assert forall c :: c in changes + [change] <==> c in changes || c == change;
  }

  lemma ChangesOneMore(changes: seq<TableChange>, change: TableChange, name: string)
    ensures ChangesOf(changes + [change], name)
         == if change.table == name then ChangesOf(changes, name) + change.rowChanges else ChangesOf(changes, name)
  {
    assert (changes + [change])[..|changes|] == changes;
  }

  lemma {:induction false} NoChanges(changes: seq<TableChange>, table: string)
    ensures table !in Names(changes) ==> ChangesOf(changes, table) == []
  {
    if changes != [] {
      NoChanges(changes[..|changes| - 1], table);
      assert changes[|changes| - 1] in changes;
    }
  }

  method AddRowChanges(entry: (seq<Registry.Delta>, set<RowId>), rowChanges: seq<RowChange>, ghost before: seq<RowChange>)
    returns (added: (seq<Registry.Delta>, set<RowId>))
    requires entry == ReportOf(before)
    ensures added == ReportOf(before + rowChanges)
  {
    hide ReportOf;
    added := entry;
    ghost var done := before;
    for j := 0 to |rowChanges|
      invariant done == before + rowChanges[..j] && added == ReportOf(done)
    {
      added := AddRowChange(added, rowChanges[j], done);
      done := done + [rowChanges[j]];
    }
    assert rowChanges[..|rowChanges|] == rowChanges;
  }

  method AddRowChange(entry: (seq<Registry.Delta>, set<RowId>), c: RowChange, ghost done: seq<RowChange>)
    returns (added: (seq<Registry.Delta>, set<RowId>))
    requires entry == ReportOf(done)
    ensures added == ReportOf(done + [c])
  {
    ReportOneMore(done, c);
    hide AllDeltas, AllIds;
    var (deltas, ids) := entry;
    match c
    case Insert(row) =>
      added := (deltas + [Registry.Delta(row.values, 1)], ids + {row.id});
    case Update(was, now) =>
      deltas := deltas + [Registry.Delta(was.values, -1)];
      deltas := deltas + [Registry.Delta(now.values, 1)];
      assert deltas == entry.0 + DeltasFor(c);
      added := (deltas, ids + {was.id});
    case Delete(row) =>
      added := (deltas + [Registry.Delta(row.values, -1)], ids + {row.id});
  }

  /** Different tables have different ids. */
  ghost predicate Injective(tableIds: map<string, TableId>) {
    forall a, b :: a in tableIds && b in tableIds && tableIds[a] == tableIds[b] ==> a == b
  }

  /** The pending deltas and ids of the tables named in `done` have grown by their reports. */
  ghost predicate Notified(before: Registry.Registry, after: Registry.Registry, tableIds: map<string, TableId>,
                           changes: seq<TableChange>, done: set<string>) {
    && after == before.(pendingDeltas := after.pendingDeltas, pendingChanges := after.pendingChanges)
    && (forall name :: name in tableIds ==> GrownBy(before, after, tableIds[name], if name in done then ChangesOf(changes, name) else []))
    && (forall t :: t !in tableIds.Values ==> GrownBy(before, after, t, []))
  }

  ghost predicate GrownBy(before: Registry.Registry, after: Registry.Registry, t: TableId, changes: seq<RowChange>) {
    && Registry.DeltasOf(after.pendingDeltas, t) == Registry.DeltasOf(before.pendingDeltas, t) + AllDeltas(changes)
    && Registry.IdsOf(after.pendingChanges, t) == Registry.IdsOf(before.pendingChanges, t) + AllIds(changes)
  }

  /** The step of one report. */
  ghost predicate ReportedOnce(before: Registry.Registry, after: Registry.Registry, t: TableId, changes: seq<RowChange>) {
    && GrownBy(before, after, t, changes)
    && after == before.(pendingDeltas := after.pendingDeltas, pendingChanges := after.pendingChanges)
    && forall u :: u != t ==> GrownBy(before, after, u, [])
  }

  lemma NotifiedOneMore(start: Registry.Registry, before: Registry.Registry, after: Registry.Registry,
                        tableIds: map<string, TableId>, changes: seq<TableChange>, done: set<string>, name: string)
    requires Injective(tableIds) && Notified(start, before, tableIds, changes, done) && name !in done
    requires if name in tableIds then ReportedOnce(before, after, tableIds[name], ChangesOf(changes, name)) else after == before
    ensures Notified(start, after, tableIds, changes, done + {name})
  {
    hide ChangesOf, AllDeltas, AllIds, GrownBy;
    if name in tableIds {
      forall other | other in tableIds
        ensures GrownBy(start, after, tableIds[other], if other in done + {name} then ChangesOf(changes, other) else [])
      {
        if other == name {
          GrownTwice(start, before, after, tableIds[name], [], ChangesOf(changes, name));
        } else {
          GrownTwice(start, before, after, tableIds[other], if other in done then ChangesOf(changes, other) else [], []);
        }
      }
      forall t | t !in tableIds.Values ensures GrownBy(start, after, t, []) {
        GrownTwice(start, before, after, t, [], []);
      }
    }
  }

  lemma GrownTwice(start: Registry.Registry, before: Registry.Registry, after: Registry.Registry, t: TableId,
                   first: seq<RowChange>, second: seq<RowChange>)
    requires GrownBy(start, before, t, first) && GrownBy(before, after, t, second)
    requires first == [] || second == []
    ensures GrownBy(start, after, t, if second == [] then first else second)
  {}

  /** Reports one table, unless it is unknown. */
  method NotifyTable(registry: Registry.LiveRegistry, tableIds: map<string, TableId>, name: string,
                     report: (seq<Registry.Delta>, set<RowId>), ghost changes: seq<RowChange>)
    requires report == ReportOf(changes)
    modifies registry
    ensures if name in tableIds then ReportedOnce(old(registry.State()), registry.State(), tableIds[name], changes)
            else registry.State() == old(registry.State())
  {
    hide AllDeltas, AllIds;
    if name in tableIds {
      registry.OnTableChangeDelta(tableIds[name], report.0, report.1);
      StepReports(registry.build, old(registry.State()), registry.State(), tableIds[name], changes);
    }
  }

  lemma StepReports(build: Registry.Build, before: Registry.Registry, after: Registry.Registry, t: TableId, changes: seq<RowChange>)
    requires Registry.Step(build, before, Registry.TableChangeDelta(t, AllDeltas(changes), AllIds(changes)), after)
    ensures ReportedOnce(before, after, t, changes)
  {}

  /** Every known table with changes is reported once; unknown tables are skipped. */
  method NotifyGraphqlChanges(registry: Registry.LiveRegistry, tableIds: map<string, TableId>, changes: seq<TableChange>)
    requires Injective(tableIds)
    modifies registry
    ensures Notified(old(registry.State()), registry.State(), tableIds, changes, Names(changes))
  {
    var aggregated := Aggregate(changes);
    hide Notified, GrownBy, ReportedOnce, ReportOf, ChangesOf, Names, Injective;
    var rest := aggregated.Keys;
    NoneNotified(registry.State(), tableIds, changes);
    assert aggregated.Keys - rest == {};
    while rest != {}
      invariant rest <= aggregated.Keys
      invariant Notified(old(registry.State()), registry.State(), tableIds, changes, aggregated.Keys - rest)
      decreases rest
    {
      var name :| name in rest;
      ghost var before, done := registry.State(), aggregated.Keys - rest;
      NotifyTable(registry, tableIds, name, aggregated[name], ChangesOf(changes, name));
      NotifiedOneMore(old(registry.State()), before, registry.State(), tableIds, changes, done, name);
      rest := rest - {name};
      assert aggregated.Keys - rest == done + {name};
    }
    assert aggregated.Keys - rest == Names(changes);
  }

  lemma NoneNotified(r: Registry.Registry, tableIds: map<string, TableId>, changes: seq<TableChange>)
    ensures Notified(r, r, tableIds, changes, {})
  {}

  // ----- Changes of a table --------------------------------------------------------------------

  /** The change starts from what the table holds. */
  predicate Fits(table: Table, c: RowChange) {
    match c
    case Insert(row) => row.id !in table
    case Update(was, now) =>
      was.id in table && table[was.id] == was.values && (now.id == was.id || now.id !in table)
    case Delete(row) => row.id in table && table[row.id] == row.values
  }

  function Apply(table: Table, c: RowChange): Table {
    match c
    case Insert(row) => table[row.id := row.values]
    case Update(was, now) => (table - {was.id})[now.id := now.values]
    case Delete(row) => table - {row.id}
  }

  predicate FitsAll(table: Table, changes: seq<RowChange>)
    decreases |changes|
  {
    changes != [] ==> Fits(table, changes[0]) && FitsAll(Apply(table, changes[0]), changes[1..])
  }

  function ApplyAll(table: Table, changes: seq<RowChange>): Table
    decreases |changes|
  {
    if changes == [] then table else ApplyAll(Apply(table, changes[0]), changes[1..])
  }

  // ----- Deltas are the difference -------------------------------------------------------------

  function Holding(table: Table, v: Tuple): set<RowId> { set r | r in table && table[r] == v }

  function Net(deltas: seq<Registry.Delta>, v: Tuple): int {
    if deltas == [] then 0 else (if deltas[0].row == v then deltas[0].diff else 0) + Net(deltas[1..], v)
  }

  lemma {:induction false} NetConcat(a: seq<Registry.Delta>, b: seq<Registry.Delta>, v: Tuple)
    ensures Net(a + b, v) == Net(a, v) + Net(b, v)
  {
    if a == [] {
      assert a + b == b;
    } else {
      NetConcat(a[1..], b, v);
      assert (a + b)[1..] == a[1..] + b;
    }
  }

  lemma OneChange(table: Table, c: RowChange, v: Tuple)
    requires Fits(table, c)
    ensures |Holding(Apply(table, c), v)| == |Holding(table, v)| + Net(DeltasFor(c), v)
  {
    match c
    case Insert(row) => Added(table, row, v);
    case Delete(row) => Removed(table, row, v);
    case Update(was, now) =>
      Removed(table, was, v);
      Added(table - {was.id}, now, v);
      assert DeltasFor(c) == [Registry.Delta(was.values, -1)] + [Registry.Delta(now.values, 1)];
      NetConcat([Registry.Delta(was.values, -1)], [Registry.Delta(now.values, 1)], v);
  }

  lemma Added(table: Table, row: StoredRow, v: Tuple)
    requires row.id !in table
    ensures |Holding(table[row.id := row.values], v)| == |Holding(table, v)| + Net([Registry.Delta(row.values, 1)], v)
  {
    assert Holding(table[row.id := row.values], v) == Holding(table, v) + if row.values == v then {row.id} else {};
    OneDelta(row.values, 1, v);
  }

  lemma Removed(table: Table, row: StoredRow, v: Tuple)
    requires row.id in table && table[row.id] == row.values
    ensures |Holding(table - {row.id}, v)| == |Holding(table, v)| + Net([Registry.Delta(row.values, -1)], v)
  {
    assert Holding(table, v) == Holding(table - {row.id}, v) + if row.values == v then {row.id} else {};
    OneDelta(row.values, -1, v);
  }

  lemma OneDelta(values: Tuple, diff: int, v: Tuple)
    ensures Net([Registry.Delta(values, diff)], v) == if values == v then diff else 0
  {
    assert [Registry.Delta(values, diff)][1..] == [];
  }

  /** The reported deltas are the difference between the table after the changes and before. */
  lemma {:induction false} DeltasAreTheDifference(table: Table, changes: seq<RowChange>, v: Tuple)
    requires FitsAll(table, changes)
    ensures |Holding(ApplyAll(table, changes), v)| == |Holding(table, v)| + Net(AllDeltas(changes), v)
    decreases |changes|
  {
    if changes != [] {
      OneChange(table, changes[0], v);
      DeltasAreTheDifference(Apply(table, changes[0]), changes[1..], v);
      NetConcat(DeltasFor(changes[0]), AllDeltas(changes[1..]), v);
    }
  }

  // ----- Ids and images are recorded -----------------------------------------------------------

  predicate Same(before: Table, after: Table, r: RowId) {
    (r in before <==> r in after) && (r in before ==> before[r] == after[r])
  }

  predicate KeepsId(c: RowChange) { c.Update? ==> c.was.id == c.now.id }

  /** The reported id is the only row that differs if and only if the change is no update that moves
      the row to another id. */
  lemma ReportsExactly(table: Table, c: RowChange)
    requires Fits(table, c)
    ensures (forall r :: !Same(table, Apply(table, c), r) ==> r == ReportedId(c)) <==> KeepsId(c)
  {
    if !KeepsId(c) {
      assert !Same(table, Apply(table, c), c.now.id);
    }
  }

  /** The failing input: a row moved from id 1 to id 2 is reported as a change of row 1 only. */
  lemma MovedRowIsMissed(values: Tuple)
    ensures var table: Table, c := map[1 := values], Update(StoredRow(1, values), StoredRow(2, values));
      && Fits(table, c) && AllIds([c]) == {1}
      && 2 !in table && 2 in Apply(table, c)
  {
    var c := Update(StoredRow(1, values), StoredRow(2, values));
    assert c in [c];
  }

  lemma {:induction false} UnreportedIsSame(table: Table, changes: seq<RowChange>, r: RowId)
    requires FitsAll(table, changes) && (forall c :: c in changes ==> KeepsId(c)) && r !in AllIds(changes)
    ensures Same(table, ApplyAll(table, changes), r)
    decreases |changes|
  {
    if changes != [] {
      ReportsExactly(table, changes[0]);
      assert ReportedId(changes[0]) in AllIds(changes);
      assert AllIds(changes[1..]) <= AllIds(changes);
      UnreportedIsSame(Apply(table, changes[0]), changes[1..], r);
    }
  }

  function Images(deltas: seq<Registry.Delta>): (images: seq<Tuple>)
    ensures |images| == |deltas|
  {
    seq(|deltas|, i requires 0 <= i < |deltas| => deltas[i].row)
  }

  /** A reported row that was there before left its image. */
  lemma {:induction false} ReportedHasImage(table: Table, changes: seq<RowChange>, r: RowId)
    requires FitsAll(table, changes) && (forall c :: c in changes ==> KeepsId(c))
    requires r in AllIds(changes) && r in table
    ensures table[r] in Images(AllDeltas(changes))
    decreases |changes|
  {
    var first, rest := DeltasFor(changes[0]), AllDeltas(changes[1..]);
    if ReportedId(changes[0]) == r {
      assert Images(first + rest)[0] == table[r];
    } else {
      ReportsExactly(table, changes[0]);
      var next := Apply(table, changes[0]);
      assert Same(table, next, r);
      ReportedHasImage(next, changes[1..], r);
      var i :| 0 <= i < |rest| && Images(rest)[i] == table[r];
      assert Images(first + rest)[|first| + i] == table[r];
    }
  }

  /** What was reported of a mutation is all that collecting the affected roots needs. */
  lemma ReportedChangeIsRecorded(ctx: AffectedRoots.Context, before: JoinRefresh.Database, after: JoinRefresh.Database,
                                 changes: AffectedRoots.Dirty, batch: map<TableId, seq<RowChange>>)
    requires forall t :: t in ctx.graph.names ==>
               && t in before && t in after && t in batch
               && ctx.HasStore(t) && ctx.StoreOf(t).rows == after[t]
               && FitsAll(before[t], batch[t]) && after[t] == ApplyAll(before[t], batch[t])
               && (forall c :: c in batch[t] ==> KeepsId(c))
               && AffectedRoots.RowsOf(changes, t) == AllIds(batch[t])
               && ctx.ImagesOf(t) == Images(AllDeltas(batch[t]))
    ensures JoinRefresh.Records(ctx, before, after, changes)
  {
    forall t, r | t in ctx.graph.names && !JoinRefresh.SameRow(before, after, t, r)
      ensures r in AffectedRoots.RowsOf(changes, t)
    {
      if r !in AllIds(batch[t]) {
        UnreportedIsSame(before[t], batch[t], r);
      }
    }
    forall t, r | t in ctx.graph.names && r in AffectedRoots.RowsOf(changes, t) && JoinRefresh.Stored(before, t, r)
      ensures before[t][r] in ctx.ImagesOf(t)
    {
      ReportedHasImage(before[t], batch[t], r);
    }
  }
}
