/** The live-query registry (crates/database/src/live_runtime.rs): changes pile up per table and a
  flush hands them to the registered queries, deltas first and snapshots after. */
module LiveRegistry {
  import opened Values

  type TableId = nat
  type RowId = nat

  /** A registered query; row queries and GraphQL queries are merged separately. */
  datatype Query = Rows(id: nat) | Graphql(id: nat)

  datatype Delta = Delta(row: seq<Value>, diff: int)

  /** The two builds of the delta lane. */
  datatype Build = Benchmark | Release

  /** One notification of a snapshot query. */
  datatype Call = Call(changes: map<TableId, set<RowId>>, deltas: map<TableId, seq<Delta>>)

  type Queries = map<TableId, seq<Query>>
  type Inbox = map<(Query, TableId), seq<Delta>>

  function QueriesOf(queries: Queries, table: TableId): seq<Query> {
    if table in queries then queries[table] else []
  }

  function DeltasOf(deltas: map<TableId, seq<Delta>>, table: TableId): seq<Delta> {
    if table in deltas then deltas[table] else []
  }

  function IdsOf(changes: map<TableId, set<RowId>>, table: TableId): set<RowId> {
    if table in changes then changes[table] else {}
  }

  function Received(inbox: Inbox, query: Query, table: TableId): seq<Delta> {
    if (query, table) in inbox then inbox[(query, table)] else []
  }

  function Only(queries: seq<Query>, active: set<Query>): (kept: seq<Query>)
    ensures forall q :: q in kept <==> q in queries && q in active
    ensures Distinct(queries) ==> Distinct(kept)
    ensures |kept| <= |queries|
  {
    if queries == [] then []
    else
      var rest := Only(queries[1..], active);
      if queries[0] in active then [queries[0]] + rest else rest
  }

  ghost predicate Distinct(queries: seq<Query>) {
    forall i, j :: 0 <= i < j < |queries| ==> queries[i] != queries[j]
  }

  function CallsIn(calls: map<Query, seq<Call>>, query: Query): seq<Call> {
    if query in calls then calls[query] else []
  }

  /** The registry's maps, the queries with a subscriber, and what the queries were handed. */
  datatype Registry = Registry(
    snapshotQueries: Queries,
    deltaQueries: Queries,
    pendingChanges: map<TableId, set<RowId>>,
    pendingDeltas: map<TableId, seq<Delta>>,
    active: set<Query>,
    inbox: Inbox,
    calls: map<Query, seq<Call>>) {

    predicate HasActiveSnapshot(table: TableId) { Only(QueriesOf(snapshotQueries, table), active) != [] }

    function ActiveDelta(table: TableId): seq<Query> { Only(QueriesOf(deltaQueries, table), active) }

    function CallsOf(query: Query): seq<Call> { CallsIn(calls, query) }
  }

  // ----- The delta lane ------------------------------------------------------------------------

  function Repeat(deltas: seq<Delta>, copies: nat): seq<Delta> {
    if copies == 0 then [] else Repeat(deltas, copies - 1) + deltas
  }

  /** How often the lane hands the deltas of one table to `query`, given the active queries of that
      table in order. The release build starts its loop after the first query and ends by serving
      the last one again. */
  function Copies(build: Build, active: seq<Query>, snapshotActive: bool, query: Query): nat {
    if query !in active then 0
    else if build == Benchmark || snapshotActive || |active| == 1 then 1
    else if query == active[|active| - 1] then 2
    else if query == active[0] then 0
    else 1
  }

  /** Exactly when the release lane serves every active query once. */
  lemma ReleaseServesOnce(active: seq<Query>, snapshotActive: bool)
    requires Distinct(active)
    ensures (forall q :: q in active ==> Copies(Release, active, snapshotActive, q) == 1)
       <==> snapshotActive || |active| <= 1
  {
    if !snapshotActive && |active| > 1 {
      assert active[|active| - 1] in active;
    }
  }

  /** The deltas still there for the snapshot lane: those of tables with an active snapshot query or
      without an active delta query. */
  function Retained(r: Registry): (kept: map<TableId, seq<Delta>>) {
    map t | t in r.pendingDeltas && (r.HasActiveSnapshot(t) || r.ActiveDelta(t) == []) :: r.pendingDeltas[t]
  }

  /** What the flush of the delta lane adds to an inbox. */
  function Handed(build: Build, r: Registry, query: Query, table: TableId): seq<Delta> {
    if table in r.pendingDeltas then
      Repeat(r.pendingDeltas[table], Copies(build, r.ActiveDelta(table), r.HasActiveSnapshot(table), query))
    else []
  }

  /** The inbox after `deltas` of `table` went once to each of `queries`. */
  ghost predicate Delivered(before: Inbox, after: Inbox, table: TableId, deltas: seq<Delta>, queries: seq<Query>) {
    forall q, t :: Received(after, q, t) == Received(before, q, t) + (if t == table && q in queries then deltas else [])
  }

  /** The inbox after one table of the lane was served. */
  ghost predicate Served(build: Build, before: Inbox, after: Inbox, table: TableId, deltas: seq<Delta>,
                         queries: seq<Query>, snapshotActive: bool) {
    && (forall q, t :: t != table ==> Received(after, q, t) == Received(before, q, t))
    && (forall q :: Received(after, q, table)
                 == Received(before, q, table) + Repeat(deltas, Copies(build, queries, snapshotActive, q)))
  }

  function WithDeltas(inbox: Inbox, query: Query, table: TableId, deltas: seq<Delta>): Inbox {
    inbox[(query, table) := Received(inbox, query, table) + deltas]
  }

  lemma DeliveredOneMore(before: Inbox, mid: Inbox, table: TableId, deltas: seq<Delta>, queries: seq<Query>, q: Query)
    requires Delivered(before, mid, table, deltas, queries) && q !in queries
    ensures Delivered(before, WithDeltas(mid, q, table, deltas), table, deltas, queries + [q])
  {
    hide Received, WithDeltas;
    forall q', t
      ensures Received(WithDeltas(mid, q, table, deltas), q', t)
           == Received(before, q', t) + (if t == table && q' in queries + [q] then deltas else [])
    {
      assert Received(mid, q', t) == Received(before, q', t) + (if t == table && q' in queries then deltas else []);
      assert q' in queries + [q] <==> q' in queries || q' == q;
      WithDeltasReceived(mid, q, table, deltas, q', t);
      AppendNone(Received(before, q', t));
    }
  }

  lemma WithDeltasReceived(inbox: Inbox, q: Query, table: TableId, deltas: seq<Delta>, q': Query, t: TableId)
    ensures Received(WithDeltas(inbox, q, table, deltas), q', t)
         == if q' == q && t == table then Received(inbox, q', t) + deltas else Received(inbox, q', t)
  {}

  lemma AppendNone(deltas: seq<Delta>)
    ensures deltas + [] == deltas
  {}

  lemma NextIsNew(queries: seq<Query>, first: nat, i: nat)
    requires first <= i < |queries| && Distinct(queries)
    ensures queries[i] !in queries[first..i] && queries[first..i + 1] == queries[first..i] + [queries[i]]
  {
    forall j | 0 <= j < i - first ensures queries[first..i][j] != queries[i] {
      assert queries[first..i][j] == queries[first + j];
    }
  }

  lemma DeliveredIsServed(build: Build, before: Inbox, after: Inbox, table: TableId, deltas: seq<Delta>,
                          queries: seq<Query>, snapshotActive: bool)
    requires Delivered(before, after, table, deltas, queries)
    requires build == Benchmark || snapshotActive
    ensures Served(build, before, after, table, deltas, queries, snapshotActive)
  {
    assert Repeat(deltas, 1) == deltas;
  }

  lemma DeliveredThenLast(before: Inbox, mid: Inbox, table: TableId, deltas: seq<Delta>, queries: seq<Query>, last: Query)
    requires queries != [] && queries[0] !in queries[1..] && last == queries[|queries| - 1]
    requires Delivered(before, mid, table, deltas, queries[1..])
    ensures Served(Release, before, WithDeltas(mid, last, table, deltas), table, deltas, queries, false)
  {
    var after := WithDeltas(mid, last, table, deltas);
    forall q
      ensures Received(after, q, table)
           == Received(before, q, table) + Repeat(deltas, Copies(Release, queries, false, q))
    {
      var part := if q in queries[1..] then deltas else [];
      assert Received(mid, q, table) == Received(before, q, table) + part;
      LastServed(queries, q);
      TwoParts(Received(before, q, table), deltas, q in queries[1..], q == last);
    }
    forall q, t | t != table ensures Received(after, q, t) == Received(before, q, t) {
      assert Received(mid, q, t) == Received(before, q, t) + [];
    }
  }

  lemma TwoParts(before: seq<Delta>, deltas: seq<Delta>, first: bool, second: bool)
    ensures (before + (if first then deltas else [])) + (if second then deltas else [])
         == before + Repeat(deltas, (if first then 1 else 0) + (if second then 1 else 0))
  {
    RepeatFew(deltas);
  }

  lemma RepeatFew(deltas: seq<Delta>)
    ensures Repeat(deltas, 0) == [] && Repeat(deltas, 1) == deltas && Repeat(deltas, 2) == deltas + deltas
  {
    assert Repeat(deltas, 2) == Repeat(deltas, 1) + deltas;
  }

  /** The release copies are one for each query after the first and one more for the last. */
  lemma LastServed(queries: seq<Query>, q: Query)
    requires queries != [] && queries[0] !in queries[1..]
    ensures Copies(Release, queries, false, q)
         == (if q in queries[1..] then 1 else 0) + (if q == queries[|queries| - 1] then 1 else 0)
  {
    assert queries == [queries[0]] + queries[1..];
    if |queries| > 1 {
      assert queries[|queries| - 1] == queries[1..][|queries| - 2];
    }
  }

  /** The inbox once the pending deltas of `tables` were handed out. */
  ghost predicate ServedTables(build: Build, r: Registry, tables: set<TableId>, inbox: Inbox) {
    forall q, t {:trigger Received(inbox, q, t)} ::
      Received(inbox, q, t) == Received(r.inbox, q, t) + (if t in tables then Handed(build, r, q, t) else [])
  }

  lemma ServedOneMore(build: Build, r: Registry, tables: set<TableId>, before: Inbox, after: Inbox, table: TableId)
    requires ServedTables(build, r, tables, before) && table in r.pendingDeltas && table !in tables
    requires Served(build, before, after, table, r.pendingDeltas[table], r.ActiveDelta(table), r.HasActiveSnapshot(table))
    ensures ServedTables(build, r, tables + {table}, after)
  {
    hide Received, Handed, Repeat, Copies;
    forall q, t {:trigger Received(after, q, t)}
      ensures Received(after, q, t)
           == Received(r.inbox, q, t) + (if t in tables + {table} then Handed(build, r, q, t) else [])
    {
      assert Received(before, q, t) == Received(r.inbox, q, t) + (if t in tables then Handed(build, r, q, t) else []);
      HandedPending(build, r, q, table);
      AppendNone(Received(r.inbox, q, t));
    }
  }

  lemma HandedPending(build: Build, r: Registry, q: Query, table: TableId)
    requires table in r.pendingDeltas
    ensures Handed(build, r, q, table)
         == Repeat(r.pendingDeltas[table], Copies(build, r.ActiveDelta(table), r.HasActiveSnapshot(table), q))
  {}

  lemma ServedAll(build: Build, r: Registry, inbox: Inbox)
    requires ServedTables(build, r, r.pendingDeltas.Keys, inbox)
    ensures forall q, t :: Received(inbox, q, t) == Received(r.inbox, q, t) + Handed(build, r, q, t)
  {
    forall q, t ensures Received(inbox, q, t) == Received(r.inbox, q, t) + Handed(build, r, q, t) {
      assert t !in r.pendingDeltas ==> Handed(build, r, q, t) == [];
    }
  }

  lemma ServedNone(build: Build, r: Registry, tables: set<TableId>, inbox: Inbox, table: TableId)
    requires ServedTables(build, r, tables, inbox) && r.ActiveDelta(table) == []
    ensures ServedTables(build, r, tables + {table}, inbox)
  {
    assert forall q :: Handed(build, r, q, table) == [];
  }

  // ----- The snapshot lane ---------------------------------------------------------------------

  /** The changes of the tables `query` is registered on. */
  function ChangesFor(queries: Queries, changes: map<TableId, set<RowId>>, query: Query): map<TableId, set<RowId>> {
    map t | t in changes && query in QueriesOf(queries, t) :: changes[t]
  }

  function CallFor(changes: map<TableId, set<RowId>>, deltas: map<TableId, seq<Delta>>): seq<Call> {
    if changes != map[] then [Call(changes, deltas)] else []
  }

  function CallsAfter(r: Registry, query: Query): seq<Call> {
    r.CallsOf(query) + CallFor(ChangesFor(r.snapshotQueries, r.pendingChanges, query), Retained(r))
  }

  type Merged = map<Query, map<TableId, set<RowId>>>

  function ChangesIn(merged: Merged, query: Query): map<TableId, set<RowId>> {
    if query in merged then merged[query] else map[]
  }

  function Restricted(changes: map<TableId, set<RowId>>, tables: set<TableId>): map<TableId, set<RowId>> {
    map t | t in changes && t in tables :: changes[t]
  }

  /** One changed table entered for each of `queries`. */
  ghost predicate MergedTable(merged: Merged, after: Merged, table: TableId, ids: set<RowId>, queries: seq<Query>) {
    && (forall q :: (ChangesIn(after, q) == if q in queries then ChangesIn(merged, q)[table := ids] else ChangesIn(merged, q)))
    && (forall q :: q in after <==> q in merged || q in queries)
  }

  lemma MergedOneMore(merged: Merged, after: Merged, queries: Queries, changes: map<TableId, set<RowId>>,
                      tables: set<TableId>, table: TableId)
    requires MergedOver(merged, queries, changes, tables) && table in changes
    requires MergedTable(merged, after, table, changes[table], QueriesOf(queries, table))
    ensures MergedOver(after, queries, changes, tables + {table})
  {
    forall q ensures ChangesIn(after, q) == ChangesFor(queries, Restricted(changes, tables + {table}), q) {
      assert ChangesIn(merged, q) == ChangesFor(queries, Restricted(changes, tables), q);
      OneMoreTable(queries, changes, tables, table, q);
    }
    forall q | q in after ensures after[q] != map[] {
      assert ChangesIn(after, q) == after[q];
      if q in QueriesOf(queries, table) {
        assert table in after[q];
      } else {
        assert after[q] == ChangesIn(merged, q) == merged[q];
      }
    }
  }

  lemma OneMoreTable(queries: Queries, changes: map<TableId, set<RowId>>, tables: set<TableId>, table: TableId, q: Query)
    requires table in changes
    ensures ChangesFor(queries, Restricted(changes, tables + {table}), q)
         == var c := ChangesFor(queries, Restricted(changes, tables), q);
            if q in QueriesOf(queries, table) then c[table := changes[table]] else c
  {}

  /** The merged entries once the changes of `tables` are in. */
  ghost predicate MergedOver(merged: Merged, queries: Queries, changes: map<TableId, set<RowId>>, tables: set<TableId>) {
    && (forall q :: ChangesIn(merged, q) == ChangesFor(queries, Restricted(changes, tables), q))
    && (forall q :: q in merged ==> merged[q] != map[])
  }

  // ----- Steps ---------------------------------------------------------------------------------

  datatype Event =
    | RegisterSnapshot(query: Query, tables: set<TableId>)
    | RegisterDelta(query: Query, tables: set<TableId>)
    | Subscribe(query: Query)
    | Unsubscribe(query: Query)
    | TableChange(table: TableId, ids: set<RowId>)
    | TableChangeDelta(table: TableId, deltas: seq<Delta>, ids: set<RowId>)
    | Flush

  ghost predicate Registered(before: Queries, query: Query, tables: set<TableId>, after: Queries) {
    forall t :: QueriesOf(after, t) == QueriesOf(before, t) + if t in tables then [query] else []
  }

  /** Queries without a subscriber are dropped, and so are empty lists. */
  ghost predicate Collected(before: Queries, active: set<Query>, after: Queries) {
    && (forall t :: QueriesOf(after, t) == Only(QueriesOf(before, t), active))
    && (forall t :: t in after ==> after[t] != [])
  }

  ghost predicate Step(build: Build, r: Registry, event: Event, r': Registry) {
    match event
    case RegisterSnapshot(q, tables) =>
      Registered(r.snapshotQueries, q, tables, r'.snapshotQueries) && r' == r.(snapshotQueries := r'.snapshotQueries)
    case RegisterDelta(q, tables) =>
      Registered(r.deltaQueries, q, tables, r'.deltaQueries) && r' == r.(deltaQueries := r'.deltaQueries)
    case Subscribe(q) => r' == r.(active := r.active + {q})
    case Unsubscribe(q) => r' == r.(active := r.active - {q})
    case TableChange(t, ids) =>
      r' == r.(pendingChanges := r.pendingChanges[t := IdsOf(r.pendingChanges, t) + ids])
    case TableChangeDelta(t, deltas, ids) =>
      r' == r.(pendingChanges := r.pendingChanges[t := IdsOf(r.pendingChanges, t) + ids],
               pendingDeltas := r.pendingDeltas[t := DeltasOf(r.pendingDeltas, t) + deltas])
    case Flush =>
      && r'.pendingChanges == map[] && r'.pendingDeltas == map[] && r'.active == r.active
      && (forall q, t :: Received(r'.inbox, q, t) == Received(r.inbox, q, t) + Handed(build, r, q, t))
      && (forall q :: r'.CallsOf(q) == CallsAfter(r, q))
      && Collected(r.snapshotQueries, r.active, r'.snapshotQueries)
      && Collected(r.deltaQueries, r.active, r'.deltaQueries)
  }

  /** Every query list is free of repetitions. */
  ghost predicate Valid(r: Registry) {
    && (forall t :: Distinct(QueriesOf(r.snapshotQueries, t)))
    && (forall t :: Distinct(QueriesOf(r.deltaQueries, t)))
  }

  // ----- Runs ----------------------------------------------------------------------------------

  ghost predicate Run(build: Build, states: seq<Registry>, events: seq<Event>) {
    && |states| == |events| + 1
    && forall i :: 0 <= i < |events| ==> Step(build, states[i], events[i], states[i + 1])
  }

  /** All deltas reported for `table` in order. */
  function Queued(events: seq<Event>, table: TableId): seq<Delta> {
    if events == [] then []
    else Queued(events[..|events| - 1], table) + Reported(events[|events| - 1], table)
  }

  /** The deltas and ids reported for each table since the last flush. */
  function DeltasSinceFlush(events: seq<Event>): map<TableId, seq<Delta>> {
    if events == [] then map[]
    else DeltasAfter(DeltasSinceFlush(events[..|events| - 1]), events[|events| - 1])
  }

  function IdsSinceFlush(events: seq<Event>): map<TableId, set<RowId>> {
    if events == [] then map[]
    else IdsAfter(IdsSinceFlush(events[..|events| - 1]), events[|events| - 1])
  }

  function DeltasAfter(before: map<TableId, seq<Delta>>, event: Event): map<TableId, seq<Delta>> {
    match event
    case Flush => map[]
    case TableChangeDelta(t, deltas, _) => before[t := DeltasOf(before, t) + deltas]
    case _ => before
  }

  function IdsAfter(before: map<TableId, set<RowId>>, event: Event): map<TableId, set<RowId>> {
    match event
    case Flush => map[]
    case TableChange(t, ids) => before[t := IdsOf(before, t) + ids]
    case TableChangeDelta(t, _, ids) => before[t := IdsOf(before, t) + ids]
    case _ => before
  }

  lemma PendingStep(build: Build, r: Registry, event: Event, r': Registry)
    requires Step(build, r, event, r')
    ensures r'.pendingChanges == IdsAfter(r.pendingChanges, event)
    ensures r'.pendingDeltas == DeltasAfter(r.pendingDeltas, event)
  {}

  lemma {:induction false} PendingIsSinceFlush(build: Build, states: seq<Registry>, events: seq<Event>)
    requires Run(build, states, events) && states[0].pendingChanges == map[] && states[0].pendingDeltas == map[]
    ensures states[|events|].pendingChanges == IdsSinceFlush(events)
    ensures states[|events|].pendingDeltas == DeltasSinceFlush(events)
  {
    if events != [] {
      var n := |events| - 1;
      RunPrefix(build, states, events);
      PendingIsSinceFlush(build, states[..n + 1], events[..n]);
      PendingStep(build, states[n], events[n], states[n + 1]);
    }
  }

  lemma RunPrefix(build: Build, states: seq<Registry>, events: seq<Event>)
    requires Run(build, states, events) && events != []
    ensures var n := |events| - 1;
      Run(build, states[..n + 1], events[..n]) && Step(build, states[n], events[n], states[n + 1])
  {
    var n := |events| - 1;
    forall i | 0 <= i < n ensures Step(build, states[..n + 1][i], events[..n][i], states[..n + 1][i + 1]) {
      assert Step(build, states[i], events[i], states[i + 1]);
    }
  }

  /** A registration never repeats a query on one table. */
  ghost predicate RegistersOnce(r: Registry, event: Event) {
    match event
    case RegisterSnapshot(q, tables) => forall t :: t in tables ==> q !in QueriesOf(r.snapshotQueries, t)
    case RegisterDelta(q, tables) => forall t :: t in tables ==> q !in QueriesOf(r.deltaQueries, t)
    case _ => true
  }

  lemma {:induction false} RunStaysValid(build: Build, states: seq<Registry>, events: seq<Event>)
    requires Run(build, states, events) && Valid(states[0])
    requires forall i :: 0 <= i < |events| ==> RegistersOnce(states[i], events[i])
    ensures Valid(states[|events|])
  {
    if events != [] {
      var n := |events| - 1;
      RunPrefix(build, states, events);
      assert RegistersOnce(states[n], events[n]);
      hide Step, RegistersOnce, Valid;
      RunStaysValid(build, states[..n + 1], events[..n]);
      StepStaysValid(build, states[n], events[n], states[n + 1]);
    }
  }

  lemma StepStaysValid(build: Build, r: Registry, event: Event, r': Registry)
    requires Step(build, r, event, r') && Valid(r) && RegistersOnce(r, event)
    ensures Valid(r')
  {}

  /** When one flush hands the pending deltas of `table` exactly once to its active delta queries: always in the
      benchmark build, in the release build unless several queries share deltas no snapshot query needs. */
  ghost predicate ServesOnce(build: Build, r: Registry, table: TableId) {
    || build == Benchmark
    || DeltasOf(r.pendingDeltas, table) == []
    || r.HasActiveSnapshot(table)
    || |r.ActiveDelta(table)| <= 1
  }

  ghost predicate ReceivesPending(r: Registry, r': Registry, query: Query, table: TableId) {
    Received(r'.inbox, query, table) == Received(r.inbox, query, table) + DeltasOf(r.pendingDeltas, table)
  }

  /** The condition is exact: a flush hands every active delta query of the table the pending deltas
      once if and only if it holds. */
  lemma FlushServesExactly(build: Build, r: Registry, r': Registry, table: TableId)
    requires Valid(r) && Step(build, r, Flush, r')
    ensures (forall q :: q in r.ActiveDelta(table) ==> ReceivesPending(r, r', q, table)) <==> ServesOnce(build, r, table)
  {
    var active := r.ActiveDelta(table);
    if ServesOnce(build, r, table) {
      forall q | q in active ensures ReceivesPending(r, r', q, table) {
        ReceivesExactly(build, r, r', q, table);
        OneOfOne(active, q);
      }
    } else {
      var last := active[|active| - 1];
      assert last in active;
      ReceivesExactly(build, r, r', last, table);
    }
  }

  lemma OneOfOne(queries: seq<Query>, q: Query)
    requires q in queries
    ensures |queries| <= 1 ==> queries == [q]
  {}

  /** One query gets the pending deltas once exactly when the lane copies them to it once, or there are none. */
  lemma ReceivesExactly(build: Build, r: Registry, r': Registry, query: Query, table: TableId)
    requires Step(build, r, Flush, r') && query in r.ActiveDelta(table)
    ensures ReceivesPending(r, r', query, table) <==>
              || Copies(build, r.ActiveDelta(table), r.HasActiveSnapshot(table), query) == 1
              || DeltasOf(r.pendingDeltas, table) == []
  {
    HandedByFlush(build, r, r', query, table);
    var copies := Copies(build, r.ActiveDelta(table), r.HasActiveSnapshot(table), query);
    RepeatNone(copies);
    RepeatLength(DeltasOf(r.pendingDeltas, table), copies);
    RepeatFew(DeltasOf(r.pendingDeltas, table));
  }

  lemma HandedByFlush(build: Build, r: Registry, r': Registry, query: Query, table: TableId)
    requires Step(build, r, Flush, r')
    ensures Received(r'.inbox, query, table) == Received(r.inbox, query, table)
              + Repeat(DeltasOf(r.pendingDeltas, table),
                       Copies(build, r.ActiveDelta(table), r.HasActiveSnapshot(table), query))
  {
    RepeatNone(Copies(build, r.ActiveDelta(table), r.HasActiveSnapshot(table), query));
    assert Received(r'.inbox, query, table) == Received(r.inbox, query, table) + Handed(build, r, query, table);
  }

  lemma {:induction false} RepeatNone(copies: nat)
    ensures Repeat([], copies) == []
  {
    if copies > 0 {
      RepeatNone(copies - 1);
    }
  }

  lemma {:induction false} RepeatLength(deltas: seq<Delta>, copies: nat)
    ensures |Repeat(deltas, copies)| == copies * |deltas|
  {
    if copies > 0 {
      RepeatLength(deltas, copies - 1);
    }
  }

  /** Two active delta queries on table 0, one pending delta, no snapshot query. */
  function SharedDelta(delta: Delta): Registry {
    Registry(map[], map[0 := [Rows(1), Rows(2)]], map[], map[0 := [delta]], {Rows(1), Rows(2)}, map[], map[])
  }

  /** The failing input of the release build: the first query gets nothing, the last gets everything twice. */
  lemma ReleaseSkipsFirst(delta: Delta, r': Registry)
    requires Step(Release, SharedDelta(delta), Flush, r')
    ensures Valid(SharedDelta(delta))
    ensures Received(r'.inbox, Rows(1), 0) == [] && Received(r'.inbox, Rows(2), 0) == [delta, delta]
  {
    hide *;
    var r := SharedDelta(delta);
    SharedDeltaValid(delta);
    SharedDeltaActive(delta);
    SharedDeltaCopies();
    HandedByFlush(Release, r, r', Rows(1), 0);
    HandedByFlush(Release, r, r', Rows(2), 0);
    RepeatFew([delta]);
    AppendNone([]);
    assert [] + ([delta] + [delta]) == [delta, delta];
  }

  lemma SharedDeltaValid(delta: Delta)
    ensures Valid(SharedDelta(delta))
  {}

  lemma SharedDeltaCopies()
    ensures Copies(Release, [Rows(1), Rows(2)], false, Rows(1)) == 0
    ensures Copies(Release, [Rows(1), Rows(2)], false, Rows(2)) == 2
  {}

  lemma SharedDeltaActive(delta: Delta)
    ensures SharedDelta(delta).ActiveDelta(0) == [Rows(1), Rows(2)] && !SharedDelta(delta).HasActiveSnapshot(0)
    ensures DeltasOf(SharedDelta(delta).pendingDeltas, 0) == [delta]
    ensures forall q, t :: Received(SharedDelta(delta).inbox, q, t) == []
  {
    assert [Rows(1), Rows(2)][1..] == [Rows(2)] && [Rows(2)][1..] == [];
  }

  /** What one event adds to the deltas reported for `table`. */
  function Reported(event: Event, table: TableId): seq<Delta> {
    if event.TableChangeDelta? && event.table == table then event.deltas else []
  }

  /** What `query` has been handed for `table`, followed by what it is still to be handed. */
  function Ledger(r: Registry, query: Query, table: TableId): seq<Delta> {
    Received(r.inbox, query, table) + DeltasOf(r.pendingDeltas, table)
  }

  lemma ConservedByStep(build: Build, r: Registry, event: Event, r': Registry, query: Query, table: TableId)
    requires Step(build, r, event, r') && Valid(r) && query in r.ActiveDelta(table)
    requires event != Unsubscribe(query) && (event == Flush ==> ServesOnce(build, r, table))
    ensures query in r'.ActiveDelta(table)
    ensures Ledger(r', query, table) == Ledger(r, query, table) + Reported(event, table)
  {
    PendingStep(build, r, event, r');
    if event == Flush {
      FlushServesExactly(build, r, r', table);
      assert ReceivesPending(r, r', query, table);
    } else {
      assert r'.inbox == r.inbox;
    }
    StaysActive(build, r, event, r', query, table);
  }

  lemma StaysActive(build: Build, r: Registry, event: Event, r': Registry, query: Query, table: TableId)
    requires Step(build, r, event, r') && event != Unsubscribe(query) && query in r.ActiveDelta(table)
    ensures query in r'.ActiveDelta(table)
  {
    assert query in QueriesOf(r.deltaQueries, table) && query in r'.active;
    assert query in QueriesOf(r'.deltaQueries, table);
  }

  /** Every flush of the run serves the deltas of `table` once and nobody unsubscribes `query`. */
  ghost predicate ServedRun(build: Build, states: seq<Registry>, events: seq<Event>, query: Query, table: TableId) {
    && Run(build, states, events)
    && (forall i {:trigger events[i]} :: 0 <= i < |events| ==>
          && Valid(states[i])
          && events[i] != Unsubscribe(query)
          && (events[i] == Flush ==> ServesOnce(build, states[i], table)))
  }

  lemma RunLength(build: Build, states: seq<Registry>, events: seq<Event>, query: Query, table: TableId)
    requires ServedRun(build, states, events, query, table)
    ensures |states| == |events| + 1
  {}

  lemma NothingQueued(events: seq<Event>, table: TableId)
    ensures Queued(events[..0], table) == []
  {}

  lemma QueuedOneMore(events: seq<Event>, k: nat, table: TableId)
    requires k < |events|
    ensures Queued(events[..k + 1], table) == Queued(events[..k], table) + Reported(events[k], table)
  {
    assert events[..k + 1][..k] == events[..k] && events[..k + 1][k] == events[k];
  }

  lemma Append(a: seq<Delta>, b: seq<Delta>, c: seq<Delta>)
    ensures (a + b) + c == a + (b + c)
  {}

  /** Over any run, a delta query subscribed throughout has received, per table, exactly the deltas
      reported up to the last flush, in order; the rest is still pending. This holds after every event. */
  lemma {:induction false} DeltasAreConserved(build: Build, states: seq<Registry>, events: seq<Event>,
                                              query: Query, table: TableId, k: nat)
    requires ServedRun(build, states, events, query, table) && query in states[0].ActiveDelta(table)
    requires k <= |events|
    ensures query in states[k].ActiveDelta(table)
    ensures Ledger(states[k], query, table) == Ledger(states[0], query, table) + Queued(events[..k], table)
  {
    hide *;
    RunLength(build, states, events, query, table);
    if k == 0 {
      NothingQueued(events, table);
      AppendNone(Ledger(states[0], query, table));
    } else {
      DeltasAreConserved(build, states, events, query, table, k - 1);
      ConservedNext(build, states, events, query, table, k - 1);
      QueuedOneMore(events, k - 1, table);
      Append(Ledger(states[0], query, table), Queued(events[..k - 1], table), Reported(events[k - 1], table));
    }
  }

  lemma ConservedNext(build: Build, states: seq<Registry>, events: seq<Event>, query: Query, table: TableId, k: nat)
    requires ServedRun(build, states, events, query, table) && k < |events| && query in states[k].ActiveDelta(table)
    ensures query in states[k + 1].ActiveDelta(table)
    ensures Ledger(states[k + 1], query, table) == Ledger(states[k], query, table) + Reported(events[k], table)
  {
    assert events[k] != Unsubscribe(query) && Step(build, states[k], events[k], states[k + 1]);
    ConservedByStep(build, states[k], events[k], states[k + 1], query, table);
  }

  // ----- What snapshot queries are called with ---------------------------------------------------

  /** The event reports a change of the table, */
  predicate Touches(event: Event, table: TableId) {
    (event.TableChange? || event.TableChangeDelta?) && event.table == table
  }

  /** and among its ids `id`. */
  predicate Reports(event: Event, table: TableId, id: RowId) { Touches(event, table) && id in event.ids }

  ghost predicate TouchedIn(events: seq<Event>, from: nat, to: nat, table: TableId)
    requires to <= |events|
  {
    exists i :: from <= i < to && Touches(events[i], table)
  }

  ghost predicate ReportedIn(events: seq<Event>, from: nat, to: nat, table: TableId, id: RowId)
    requires to <= |events|
  {
    exists i :: from <= i < to && Reports(events[i], table, id)
  }

  /** Between two flushes, what is pending is what the events in between reported. */
  ghost predicate PendingIsReported(r: Registry, events: seq<Event>, from: nat, to: nat)
    requires from <= to <= |events|
  {
    && (forall t :: t in r.pendingChanges <==> TouchedIn(events, from, to, t))
    && (forall t, id :: id in IdsOf(r.pendingChanges, t) <==> ReportedIn(events, from, to, t, id))
    && (forall t :: DeltasOf(r.pendingDeltas, t) == Queued(events[from..to], t))
  }

  lemma {:induction false} PendingSince(build: Build, states: seq<Registry>, events: seq<Event>, from: nat, to: nat)
    requires Run(build, states, events) && from <= to <= |events|
    requires states[from].pendingChanges == map[] && states[from].pendingDeltas == map[]
    requires forall i :: from <= i < to ==> events[i] != Flush
    ensures PendingIsReported(states[to], events, from, to)
  {
    hide Step;
    if from < to {
      hide PendingIsReported;
      PendingSince(build, states, events, from, to - 1);
      PendingStep(build, states[to - 1], events[to - 1], states[to]);
      PendingOneMore(states[to - 1], states[to], events, from, to - 1);
    }
  }

  lemma PendingOneMore(r: Registry, r': Registry, events: seq<Event>, from: nat, to: nat)
    requires from <= to < |events| && events[to] != Flush && PendingIsReported(r, events, from, to)
    requires r'.pendingChanges == IdsAfter(r.pendingChanges, events[to])
    requires r'.pendingDeltas == DeltasAfter(r.pendingDeltas, events[to])
    ensures PendingIsReported(r', events, from, to + 1)
  {
    hide TouchedIn, ReportedIn, Touches, Reports, Queued, IdsAfter, DeltasAfter, IdsOf, DeltasOf;
    forall t ensures t in r'.pendingChanges <==> TouchedIn(events, from, to + 1, t) {
      OneMoreTouch(r.pendingChanges, events, from, to, t);
    }
    forall t, id ensures id in IdsOf(r'.pendingChanges, t) <==> ReportedIn(events, from, to + 1, t, id) {
      OneMoreReport(r.pendingChanges, events, from, to, t, id);
    }
    forall t ensures DeltasOf(r'.pendingDeltas, t) == Queued(events[from..to + 1], t) {
      OneMoreDelta(r.pendingDeltas, events[to], t);
      assert events[from..to + 1][..to - from] == events[from..to] && events[from..to + 1][to - from] == events[to];
      QueuedLast(events[from..to + 1], t);
    }
  }

  lemma OneMoreTouch(changes: map<TableId, set<RowId>>, events: seq<Event>, from: nat, to: nat, t: TableId)
    requires from <= to < |events| && events[to] != Flush && (t in changes <==> TouchedIn(events, from, to, t))
    ensures t in IdsAfter(changes, events[to]) <==> TouchedIn(events, from, to + 1, t)
  {}

  lemma OneMoreReport(changes: map<TableId, set<RowId>>, events: seq<Event>, from: nat, to: nat, t: TableId, id: RowId)
    requires from <= to < |events| && events[to] != Flush && (id in IdsOf(changes, t) <==> ReportedIn(events, from, to, t, id))
    ensures id in IdsOf(IdsAfter(changes, events[to]), t) <==> ReportedIn(events, from, to + 1, t, id)
  {}

  lemma OneMoreDelta(deltas: map<TableId, seq<Delta>>, event: Event, t: TableId)
    requires event != Flush
    ensures DeltasOf(DeltasAfter(deltas, event), t) == DeltasOf(deltas, t) + Reported(event, t)
  {}

  lemma QueuedLast(events: seq<Event>, t: TableId)
    requires events != []
    ensures Queued(events, t) == Queued(events[..|events| - 1], t) + Reported(events[|events| - 1], t)
  {}

  /** The flush before a position of a run; a run starts with nothing pending. */
  ghost predicate FlushedAt(events: seq<Event>, from: nat, to: nat) {
    && from <= to <= |events| && (from > 0 ==> events[from - 1] == Flush)
    && forall i :: from <= i < to ==> events[i] != Flush
  }

  /** The one call of a snapshot query: exactly its touched tables, each with exactly the reported ids, and for
      a query with a subscriber all deltas of its tables. */
  ghost predicate CalledWith(call: Call, r: Registry, events: seq<Event>, from: nat, to: nat, query: Query)
    requires from <= to <= |events|
  {
    && (forall t :: t in call.changes <==> query in QueriesOf(r.snapshotQueries, t) && TouchedIn(events, from, to, t))
    && (forall t, id :: t in call.changes ==> (id in call.changes[t] <==> ReportedIn(events, from, to, t, id)))
    && (query in r.active ==>
          forall t :: query in QueriesOf(r.snapshotQueries, t) ==> DeltasOf(call.deltas, t) == Queued(events[from..to], t))
  }

  /** At any flush of a run a snapshot query gets exactly one call if one of its tables was touched since the
      flush before, and none otherwise. */
  lemma SnapshotCallAtFlush(build: Build, states: seq<Registry>, events: seq<Event>, from: nat, n: nat, query: Query)
    requires Run(build, states, events) && states[0].pendingChanges == map[] && states[0].pendingDeltas == map[]
    requires n < |events| && events[n] == Flush && FlushedAt(events, from, n)
    ensures var r, before, after := states[n], states[n].CallsOf(query), states[n + 1].CallsOf(query);
      if exists t :: query in QueriesOf(r.snapshotQueries, t) && TouchedIn(events, from, n, t) then
        && |after| == |before| + 1 && after[..|before|] == before
        && CalledWith(after[|before|], r, events, from, n, query)
      else after == before
  {
    var r := states[n];
    assert Step(build, r, Flush, states[n + 1]);
    assert states[n + 1].CallsOf(query) == CallsAfter(r, query);
    if from > 0 {
      assert Step(build, states[from - 1], Flush, states[from]);
    }
    PendingSince(build, states, events, from, n);
    hide Step, Run, TouchedIn, ReportedIn;
    OneCall(r, events, from, n, query);
  }

  lemma OneCall(r: Registry, events: seq<Event>, from: nat, n: nat, query: Query)
    requires from <= n <= |events| && PendingIsReported(r, events, from, n)
    ensures var before, after := r.CallsOf(query), CallsAfter(r, query);
      if exists t :: query in QueriesOf(r.snapshotQueries, t) && TouchedIn(events, from, n, t) then
        && |after| == |before| + 1 && after[..|before|] == before
        && CalledWith(after[|before|], r, events, from, n, query)
      else after == before
  {
    hide TouchedIn, ReportedIn, Queued, Retained;
    var changes := ChangesFor(r.snapshotQueries, r.pendingChanges, query);
    if t :| query in QueriesOf(r.snapshotQueries, t) && TouchedIn(events, from, n, t) {
      assert t in changes;
      var call := Call(changes, Retained(r));
      assert CallsAfter(r, query) == r.CallsOf(query) + [call];
      forall t, id | t in changes ensures id in changes[t] <==> ReportedIn(events, from, n, t, id) {
        assert changes[t] == IdsOf(r.pendingChanges, t);
      }
      forall t | query in QueriesOf(r.snapshotQueries, t) && query in r.active
        ensures DeltasOf(Retained(r), t) == Queued(events[from..n], t)
      {
        KeptForSnapshot(r, query, t);
      }
    } else {
      assert forall t :: t !in changes;
      assert changes == map[];
    }
  }

  lemma KeptForSnapshot(r: Registry, query: Query, t: TableId)
    requires query in QueriesOf(r.snapshotQueries, t) && query in r.active
    ensures DeltasOf(Retained(r), t) == DeltasOf(r.pendingDeltas, t)
  {
    assert query in Only(QueriesOf(r.snapshotQueries, t), r.active);
  }

  // ----- Who is registered -----------------------------------------------------------------------

  predicate RegistersOn(event: Event, query: Query, table: TableId) {
    event.RegisterSnapshot? && event.query == query && table in event.tables
  }

  /** The event throws the query out: a flush while it has no subscriber. */
  predicate Drops(r: Registry, event: Event, query: Query) { event == Flush && query !in r.active }

  lemma RegisteredStep(build: Build, r: Registry, event: Event, r': Registry, query: Query, table: TableId)
    requires Step(build, r, event, r')
    ensures query in QueriesOf(r'.snapshotQueries, table) <==>
              RegistersOn(event, query, table) || (query in QueriesOf(r.snapshotQueries, table) && !Drops(r, event, query))
  {
    hide CallsAfter, Handed;
  }

  /** Some event registered the query, and no flush since found it without a subscriber. */
  ghost predicate RegisteredBefore(states: seq<Registry>, events: seq<Event>, n: nat, query: Query, table: TableId)
    requires n <= |events| < |states|
  {
    exists i :: 0 <= i < n && RegistersOn(events[i], query, table) && KeptBetween(states, events, i, n, query)
  }

  ghost predicate KeptBetween(states: seq<Registry>, events: seq<Event>, i: nat, n: nat, query: Query)
    requires n <= |events| < |states|
  {
    forall j :: i < j < n ==> !Drops(states[j], events[j], query)
  }

  lemma RegisteredOneMore(states: seq<Registry>, events: seq<Event>, n: nat, query: Query, table: TableId)
    requires n < |events| < |states|
    ensures RegisteredBefore(states, events, n + 1, query, table) <==>
              || RegistersOn(events[n], query, table)
              || (RegisteredBefore(states, events, n, query, table) && !Drops(states[n], events[n], query))
  {
    hide RegistersOn, Drops;
    if RegisteredBefore(states, events, n, query, table) && !Drops(states[n], events[n], query) {
      var i :| 0 <= i < n && RegistersOn(events[i], query, table) && KeptBetween(states, events, i, n, query);
      assert KeptBetween(states, events, i, n + 1, query);
    } else if RegistersOn(events[n], query, table) {
      assert KeptBetween(states, events, n, n + 1, query);
    }
  }

  /** A snapshot query is registered on a table exactly when some event registered it there and no flush since
      found it without a subscriber. */
  lemma {:induction false} RegisteredExactly(build: Build, states: seq<Registry>, events: seq<Event>, n: nat, query: Query, table: TableId)
    requires Run(build, states, events) && n <= |events| && states[0].snapshotQueries == map[]
    ensures query in QueriesOf(states[n].snapshotQueries, table) <==> RegisteredBefore(states, events, n, query, table)
  {
    hide RegisteredBefore, Step;
    if n == 0 {
      assert !RegisteredBefore(states, events, 0, query, table) by {
        NoneRegistered(states, events, query, table);
      }
    } else {
      RegisteredExactly(build, states, events, n - 1, query, table);
      RegisteredStep(build, states[n - 1], events[n - 1], states[n], query, table);
      RegisteredOneMore(states, events, n - 1, query, table);
    }
  }

  lemma NoneRegistered(states: seq<Registry>, events: seq<Event>, query: Query, table: TableId)
    requires |events| < |states|
    ensures !RegisteredBefore(states, events, 0, query, table)
  {}

  /** Subscribed, and not unsubscribed since. */
  ghost predicate SubscribedBefore(events: seq<Event>, n: nat, query: Query)
    requires n <= |events|
  {
    exists i :: 0 <= i < n && events[i] == Subscribe(query) && forall j :: i < j < n ==> events[j] != Unsubscribe(query)
  }

  lemma SubscribedOneMore(events: seq<Event>, n: nat, query: Query)
    requires n < |events|
    ensures SubscribedBefore(events, n + 1, query) <==>
              events[n] == Subscribe(query) || (SubscribedBefore(events, n, query) && events[n] != Unsubscribe(query))
  {
    if SubscribedBefore(events, n, query) && events[n] != Unsubscribe(query) {
      var i :| 0 <= i < n && events[i] == Subscribe(query) && forall j :: i < j < n ==> events[j] != Unsubscribe(query);
      assert forall j :: i < j < n + 1 ==> events[j] != Unsubscribe(query);
    }
  }

  lemma ActiveStep(build: Build, r: Registry, event: Event, r': Registry, query: Query)
    requires Step(build, r, event, r')
    ensures query in r'.active <==> event == Subscribe(query) || (query in r.active && event != Unsubscribe(query))
  {}

  /** A query has a subscriber exactly when it was subscribed and not unsubscribed since. */
  lemma {:induction false} ActiveExactly(build: Build, states: seq<Registry>, events: seq<Event>, n: nat, query: Query)
    requires Run(build, states, events) && n <= |events| && states[0].active == {}
    ensures query in states[n].active <==> SubscribedBefore(events, n, query)
  {
    if n > 0 {
      hide SubscribedBefore, Step;
      ActiveExactly(build, states, events, n - 1, query);
      ActiveStep(build, states[n - 1], events[n - 1], states[n], query);
      SubscribedOneMore(events, n - 1, query);
    }
  }

  class LiveRegistry {
    const build: Build
    var snapshotQueries: Queries
    var deltaQueries: Queries
    var pendingChanges: map<TableId, set<RowId>>
    var pendingDeltas: map<TableId, seq<Delta>>
    var active: set<Query>
    var inbox: Inbox
    var calls: map<Query, seq<Call>>

    function State(): Registry
      reads this
    {
      Registry(snapshotQueries, deltaQueries, pendingChanges, pendingDeltas, active, inbox, calls)
    }

    constructor (build: Build)
      ensures this.build == build
      ensures State() == Registry(map[], map[], map[], map[], {}, map[], map[])
    {
      this.build := build;
      snapshotQueries, deltaQueries, pendingChanges, pendingDeltas := map[], map[], map[], map[];
      active, inbox, calls := {}, map[], map[];
    }

    method RegisterSnapshotQuery(query: Query, tables: set<TableId>)
      modifies this`snapshotQueries
      ensures Step(build, old(State()), RegisterSnapshot(query, tables), State())
    {
      snapshotQueries := PushOn(snapshotQueries, query, tables);
    }

    method RegisterDeltaQuery(query: Query, tables: set<TableId>)
      modifies this`deltaQueries
      ensures Step(build, old(State()), RegisterDelta(query, tables), State())
    {
      deltaQueries := PushOn(deltaQueries, query, tables);
    }

    method OnTableChange(table: TableId, ids: set<RowId>)
      modifies this`pendingChanges
      ensures Step(build, old(State()), TableChange(table, ids), State())
    {
      pendingChanges := pendingChanges[table := IdsOf(pendingChanges, table) + ids];
    }

    method OnTableChangeDelta(table: TableId, deltas: seq<Delta>, ids: set<RowId>)
      modifies this`pendingChanges, this`pendingDeltas
      ensures Step(build, old(State()), TableChangeDelta(table, deltas, ids), State())
    {
      pendingDeltas := pendingDeltas[table := DeltasOf(pendingDeltas, table) + deltas];
      pendingChanges := pendingChanges[table := IdsOf(pendingChanges, table) + ids];
    }

    /** A query's own handler: it appends what it is handed. */
    method Deliver(query: Query, table: TableId, deltas: seq<Delta>)
      modifies this`inbox
      ensures inbox == WithDeltas(old(inbox), query, table, deltas)
    {
      inbox := inbox[(query, table) := Received(inbox, query, table) + deltas];
    }

    /** One table of the benchmark lane: without an active snapshot query the last delta query gets
        the moved deltas, the others a copy. */
    method DispatchBenchmark(table: TableId, queries: seq<Query>, deltas: seq<Delta>, snapshotActive: bool)
      requires queries != [] && Distinct(queries)
      modifies this`inbox
      ensures Served(Benchmark, old(inbox), inbox, table, deltas, queries, snapshotActive)
    {
      var owned := deltas;
      for i := 0 to |queries|
        invariant i < |queries| ==> owned == deltas
        invariant Delivered(old(inbox), inbox, table, deltas, queries[..i])
      {
        var queryDeltas := owned;
        if !snapshotActive && i == |queries| - 1 {
          owned := [];
        }
        NextIsNew(queries, 0, i);
        assert queries[0..i] == queries[..i];
        DeliveredOneMore(old(inbox), inbox, table, deltas, queries[..i], queries[i]);
        Deliver(queries[i], table, queryDeltas);
      }
      assert queries[..|queries|] == queries;
      DeliveredIsServed(Benchmark, old(inbox), inbox, table, deltas, queries, snapshotActive);
    }

    /** One table of the release lane: without an active snapshot query the loop runs over the
        queries after the first, and the moved deltas then go to the last one. */
    method DispatchRelease(table: TableId, queries: seq<Query>, deltas: seq<Delta>, snapshotActive: bool)
      requires queries != [] && Distinct(queries)
      modifies this`inbox
      ensures Served(Release, old(inbox), inbox, table, deltas, queries, snapshotActive)
    {
      if snapshotActive {
        ToEach(table, queries, deltas);
        DeliveredIsServed(Release, old(inbox), inbox, table, deltas, queries, snapshotActive);
      } else {
        var lastQuery := queries[0];
        assert queries[1..1] == [];
        for i := 1 to |queries|
          invariant lastQuery == queries[i - 1]
          invariant Delivered(old(inbox), inbox, table, deltas, queries[1..i])
        {
          NextIsNew(queries, 1, i);
          DeliveredOneMore(old(inbox), inbox, table, deltas, queries[1..i], queries[i]);
          Deliver(queries[i], table, deltas);
          lastQuery := queries[i];
        }
        assert queries[1..|queries|] == queries[1..];
        DeliveredThenLast(old(inbox), inbox, table, deltas, queries, lastQuery);
        Deliver(lastQuery, table, deltas);
      }
    }

    method ToEach(table: TableId, queries: seq<Query>, deltas: seq<Delta>)
      requires Distinct(queries)
      modifies this`inbox
      ensures Delivered(old(inbox), inbox, table, deltas, queries)
    {
      for i := 0 to |queries|
        invariant Delivered(old(inbox), inbox, table, deltas, queries[..i])
      {
        NextIsNew(queries, 0, i);
        assert queries[0..i] == queries[..i] && queries[0..i + 1] == queries[..i + 1];
        DeliveredOneMore(old(inbox), inbox, table, deltas, queries[..i], queries[i]);
        Deliver(queries[i], table, deltas);
      }
      assert queries[..|queries|] == queries;
    }

    method DispatchTable(table: TableId, queries: seq<Query>, deltas: seq<Delta>, snapshotActive: bool)
      requires queries != [] && Distinct(queries)
      modifies this`inbox
      ensures Served(build, old(inbox), inbox, table, deltas, queries, snapshotActive)
    {
      if build == Benchmark {
        DispatchBenchmark(table, queries, deltas, snapshotActive);
      } else {
        DispatchRelease(table, queries, deltas, snapshotActive);
      }
    }

    method FlushDeltaLane(pending: map<TableId, seq<Delta>>) returns (deltaChanges: map<TableId, seq<Delta>>)
      requires Valid(State())
      modifies this`inbox
      ensures ServedTables(build, old(State()).(pendingDeltas := pending), pending.Keys, inbox)
      ensures deltaChanges == Retained(old(State()).(pendingDeltas := pending))
    {
      deltaChanges := pending;
      ghost var r := State().(pendingDeltas := pending);
      var tableIds := pending.Keys;
      while tableIds != {}
        invariant tableIds <= pending.Keys
        invariant State().(pendingDeltas := pending) == r.(inbox := inbox)
        invariant ServedTables(build, r, pending.Keys - tableIds, inbox)
        invariant forall t :: t in deltaChanges <==>
                    t in pending && (t in tableIds || r.HasActiveSnapshot(t) || r.ActiveDelta(t) == [])
        invariant forall t :: t in deltaChanges ==> deltaChanges[t] == pending[t]
        decreases tableIds
      {
        var tableId :| tableId in tableIds;
        ghost var done, before := pending.Keys - tableIds, inbox;
        tableIds := tableIds - {tableId};
        assert pending.Keys - tableIds == done + {tableId};
        var queries := Only(QueriesOf(deltaQueries, tableId), active);
        assert queries == r.ActiveDelta(tableId);
        if queries == [] {
          ServedNone(build, r, done, before, tableId);
          continue;
        }
        var snapshotActive := Only(QueriesOf(snapshotQueries, tableId), active) != [];
        var deltas := pending[tableId];
        if !snapshotActive {
          deltaChanges := deltaChanges - {tableId};
        }
        DispatchTable(tableId, queries, deltas, snapshotActive);
        ServedOneMore(build, r, done, before, inbox, tableId);
      }
      assert pending.Keys - tableIds == pending.Keys;
    }

    /** Every query registered on a changed table is called once, with all its changed tables. */
    method FlushSnapshotLane(changes: map<TableId, set<RowId>>, deltas: map<TableId, seq<Delta>>)
      modifies this`calls
      ensures forall q :: (CallsIn(calls, q)
           == CallsIn(old(calls), q) + CallFor(ChangesFor(snapshotQueries, changes, q), deltas))
    {
      var merged := map[];
      var tableIds := changes.Keys;
      while tableIds != {}
        invariant tableIds <= changes.Keys && calls == old(calls)
        invariant MergedOver(merged, snapshotQueries, changes, changes.Keys - tableIds)
        decreases tableIds
      {
        var tableId :| tableId in tableIds;
        ghost var before, done := merged, changes.Keys - tableIds;
        assert forall q :: tableId !in ChangesIn(merged, q);
        merged := MergeTable(merged, tableId, changes[tableId], QueriesOf(snapshotQueries, tableId));
        MergedOneMore(before, merged, snapshotQueries, changes, done, tableId);
        tableIds := tableIds - {tableId};
        assert changes.Keys - tableIds == done + {tableId};
      }
      assert changes.Keys - tableIds == changes.Keys;
      assert Restricted(changes, changes.Keys) == changes;
      var rest := merged.Keys;
      while rest != {}
        invariant rest <= merged.Keys
        invariant forall q :: q in rest || q !in merged ==> CallsIn(calls, q) == CallsIn(old(calls), q)
        invariant forall q :: q in merged && q !in rest ==>
                    CallsIn(calls, q) == CallsIn(old(calls), q) + [Call(merged[q], deltas)]
        decreases rest
      {
        var query :| query in rest;
        rest := rest - {query};
        calls := calls[query := CallsIn(calls, query) + [Call(merged[query], deltas)]];
      }
      forall q
        ensures CallsIn(calls, q) == CallsIn(old(calls), q) + CallFor(ChangesFor(snapshotQueries, changes, q), deltas)
      {
        assert ChangesIn(merged, q) == ChangesFor(snapshotQueries, changes, q);
      }
    }

    method GcDeadQueries()
      modifies this`snapshotQueries, this`deltaQueries
      ensures Collected(old(snapshotQueries), active, snapshotQueries)
      ensures Collected(old(deltaQueries), active, deltaQueries)
    {
      snapshotQueries := Retain(snapshotQueries, active);
      deltaQueries := Retain(deltaQueries, active);
    }

    method FlushPending()
      requires Valid(State())
      modifies this
      ensures Step(build, old(State()), Flush, State())
    {
      var deltaChanges := pendingDeltas;
      pendingDeltas := map[];
      ghost var r := old(State());
      deltaChanges := FlushDeltaLane(deltaChanges);
      ServedAll(build, r, inbox);
      var changes := pendingChanges;
      pendingChanges := map[];
      FlushSnapshotLane(changes, deltaChanges);
      GcDeadQueries();
    }
  }

  // ----- Loops over the registry's maps ---------------------------------------------------------

  /** Appends `query` to the list of each of its tables. */
  method PushOn(queries: Queries, query: Query, tables: set<TableId>) returns (pushed: Queries)
    ensures Registered(queries, query, tables, pushed)
  {
    pushed := queries;
    var rest := tables;
    while rest != {}
      invariant rest <= tables
      invariant forall t :: QueriesOf(pushed, t) == QueriesOf(queries, t) + if t in tables - rest then [query] else []
      decreases rest
    {
      var table :| table in rest;
      rest := rest - {table};
      pushed := pushed[table := QueriesOf(pushed, table) + [query]];
    }
  }

  /** Drops the queries without a subscriber, then the tables without a query. */
  method Retain(queries: Queries, active: set<Query>) returns (kept: Queries)
    ensures Collected(queries, active, kept)
  {
    kept := queries;
    var rest := queries.Keys;
    while rest != {}
      invariant rest <= queries.Keys && rest <= kept.Keys && kept.Keys <= queries.Keys
      invariant forall t :: (QueriesOf(kept, t)
             == if t in rest then QueriesOf(queries, t) else Only(QueriesOf(queries, t), active))
      invariant forall t :: t in kept && t !in rest ==> kept[t] != []
      decreases rest
    {
      var table :| table in rest;
      rest := rest - {table};
      var live := Only(kept[table], active);
      kept := if live == [] then kept - {table} else kept[table := live];
    }
  }

  /** Adds one changed table to the entry of each of `queries`: row queries union the ids, GraphQL
      queries overwrite them. */
  method MergeTable(merged: Merged, table: TableId, ids: set<RowId>, queries: seq<Query>) returns (after: Merged)
    requires forall q :: table !in ChangesIn(merged, q)
    ensures MergedTable(merged, after, table, ids, queries)
  {
    after := merged;
    for i := 0 to |queries|
      invariant MergedTable(merged, after, table, ids, queries[..i])
    {
      var query := queries[i];
      var entry := ChangesIn(after, query);
      assert table !in ChangesIn(merged, query);
      assert IdsOf(entry, table) + ids == ids;
      after := after[query := match query
                              case Rows(_) => entry[table := IdsOf(entry, table) + ids]
                              case Graphql(_) => entry[table := ids]];
      assert queries[..i + 1] == queries[..i] + [query];
    }
    assert queries[..|queries|] == queries;
  }
}
