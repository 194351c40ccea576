/** Live ORDER BY / LIMIT queries kept as a candidate window and patched from the affected root
  rows (crates/database/src/reactive_bridge.rs).

  The database is the sequence of rows the plan yields before ordering; each row names its root.
  A full query sorts all of them and keeps `candidateLimit`; a subset query does so for the rows of
  the given roots. The window patched from the affected roots has to show what a full query
  shows. */
module SnapshotRefresh {
  import opened Options
  import opened OrderedWindow
  import opened RowOrder
  import Values

  /** `order(a, b)` says that `a` may stand before `b`: the comparator of the ORDER BY keys. */
  datatype Metadata = Metadata(order: (Row, Row) -> bool, offset: nat, limit: nat, overscan: nat, candidateLimit: nat) {
    /** The window length below which a shrunken window is rebuilt. */
    function MinShadowWindow(): nat { offset + limit + overscan }
  }

  function Inside(roots: set<nat>): Row -> bool { (row: Row) => row.root in roots }

  function Outside(roots: set<nat>): Row -> bool { (row: Row) => row.root !in roots }

  function Visible(meta: Metadata, rows: seq<Row>): seq<Row> {
    Take(if meta.offset <= |rows| then rows[meta.offset..] else [], meta.limit)
  }

  /** The visible rows are those from position `offset` on, `limit` of them or as many as there are. */
  lemma VisibleIsSlice(meta: Metadata, rows: seq<Row>)
    ensures var left := if meta.offset <= |rows| then |rows| - meta.offset else 0;
      |Visible(meta, rows)| == if meta.limit <= left then meta.limit else left
    ensures forall i :: 0 <= i < |Visible(meta, rows)| ==> Visible(meta, rows)[i] == rows[meta.offset + i]
  {}

  function FullQuery(meta: Metadata, db: seq<Row>): seq<Row> {
    Take(Sort(meta.order, db), meta.candidateLimit)
  }

  function SubsetQuery(meta: Metadata, db: seq<Row>, roots: set<nat>): seq<Row> {
    FullQuery(meta, Keep(db, Inside(roots)))
  }

  /** What the query means: the visible slice of all rows in order. */
  function Answer(meta: Metadata, db: seq<Row>): seq<Row> {
    Visible(meta, Sort(meta.order, db))
  }

  /** The column holds the primary key of the root table, which names the root row. */
  predicate KeyNamesRoot(rows: seq<Row>, column: nat) {
    && (forall a :: a in rows ==> column < |a.values|)
    && (forall a, b :: a in rows && b in rows ==> (a.values[column] == b.values[column] <==> a.root == b.root))
  }

  // ----- One refresh -----------------------------------------------------------------------

  function AffectedCandidates(window: seq<Row>, roots: set<nat>): nat {
    |Keep(window, Inside(roots))|
  }

  /** Unaffected candidates and recomputed rows, in order, before the window is cut to size. */
  function Merged(meta: Metadata, window: seq<Row>, roots: set<nat>, db: seq<Row>): seq<Row> {
    Sort(meta.order, Keep(window, Outside(roots)) + SubsetQuery(meta, db, roots))
  }

  function Patched(meta: Metadata, window: seq<Row>, roots: set<nat>, db: seq<Row>): seq<Row> {
    Take(Merged(meta, window, roots, db), meta.candidateLimit)
  }

  /** The patched window, or None when the refresh gives up and a full query follows. */
  function PartialRefresh(meta: Metadata, window: seq<Row>, affected: Option<set<nat>>, db: seq<Row>): Option<seq<Row>> {
    if affected.None? then None
    else if affected.value == {} then Some(window)
    else if AffectedCandidates(window, affected.value) > meta.overscan then None
    else
      var merged := Patched(meta, window, affected.value, db);
      if |merged| < meta.MinShadowWindow() && |window| >= meta.MinShadowWindow() then None else Some(merged)
  }

  /** A notification: the affected roots, when they could be collected, and the database after it. */
  datatype Change = Change(affected: Option<set<nat>>, db: seq<Row>)

  function NextWindow(meta: Metadata, window: seq<Row>, change: Change): seq<Row> {
    var patched := PartialRefresh(meta, window, change.affected, change.db);
    if patched.Some? then patched.value else FullQuery(meta, change.db)
  }

  /** What every subscriber is handed, in the order of subscription. */
  function Told(subscriptions: seq<nat>, rows: seq<Row>): (told: seq<(nat, seq<Row>)>)
    ensures |told| == |subscriptions|
    ensures forall i :: 0 <= i < |told| ==> told[i] == (subscriptions[i], rows)
  {
    seq(|subscriptions|, i requires 0 <= i < |subscriptions| => (subscriptions[i], rows))
  }

  lemma ToldOneMore(subscriptions: seq<nat>, rows: seq<Row>, i: nat)
    requires i < |subscriptions|
    ensures Told(subscriptions[..i + 1], rows) == Told(subscriptions[..i], rows) + [(subscriptions[i], rows)]
  {
  }

  /** The observable's fields and the update it runs on every change. */
  class ReQueryObservable {
    const meta: Metadata
    var candidateRows: seq<Row>
    var result: seq<Row>
    var subscriptions: seq<nat>
    var nextSubId: nat
    /** The callbacks run so far: who was called, and with which rows. */
    var notifications: seq<(nat, seq<Row>)>

    ghost predicate Valid()
      reads this
    {
      && result == Visible(meta, candidateRows)
      && forall i :: 0 <= i < |subscriptions| ==> subscriptions[i] < nextSubId && subscriptions[i] !in subscriptions[..i]
    }

    constructor (meta: Metadata, db: seq<Row>)
      ensures Valid() && this.meta == meta
      ensures candidateRows == FullQuery(meta, db) && subscriptions == [] && notifications == []
    {
      this.meta := meta;
      candidateRows := FullQuery(meta, db);
      result := Visible(meta, FullQuery(meta, db));
      subscriptions := [];
      nextSubId := 0;
      notifications := [];
    }

    /** A new subscriber gets an id that was never used before. */
    method Subscribe() returns (id: nat)
      requires Valid()
      modifies this`subscriptions, this`nextSubId
      ensures Valid() && nextSubId > old(nextSubId) && id >= old(nextSubId)
      ensures subscriptions == old(subscriptions) + [id]
    {
      id := nextSubId;
      nextSubId := nextSubId + 1;
      subscriptions := subscriptions + [id];
    }

    method Unsubscribe(id: nat) returns (found: bool)
      requires Valid()
      modifies this`subscriptions
      ensures Valid()
      ensures found <==> id in old(subscriptions)
      ensures forall other :: other in subscriptions <==> other in old(subscriptions) && other != id
      ensures multiset(subscriptions) == multiset(old(subscriptions)) - multiset{id}
    {
      found := false;
      for i := 0 to |subscriptions|
        invariant subscriptions == old(subscriptions)
        invariant id !in subscriptions[..i]
      {
        if subscriptions[i] == id {
          var front, back := subscriptions[..i], subscriptions[i + 1..];
          assert subscriptions == front + [id] + back;
          subscriptions := front + back;
          return true;
        }
      }
    }

    method NotifySubscribers()
      modifies this`notifications
      ensures notifications == old(notifications) + Told(subscriptions, result)
    {
      for i := 0 to |subscriptions|
        invariant notifications == old(notifications) + Told(subscriptions[..i], result)
      {
        ToldOneMore(subscriptions, result, i);
        notifications := notifications + [(subscriptions[i], result)];
      }
      assert subscriptions[..|subscriptions|] == subscriptions;
    }

    method ApplyFullRequeryOutput(rows: seq<Row>) returns (changed: bool)
      requires Valid()
      modifies this`candidateRows, this`result
      ensures Valid() && candidateRows == rows
      ensures changed <==> result != old(result)
    {
      var visibleRows := Visible(meta, rows);
      changed := result != visibleRows;
      candidateRows := rows;
      result := visibleRows;
    }

    method TryPartialRefresh(affected: Option<set<nat>>, db: seq<Row>) returns (outcome: Option<bool>)
      requires Valid()
      modifies this`candidateRows, this`result
      ensures Valid()
      ensures outcome.Some? <==> PartialRefresh(meta, old(candidateRows), affected, db).Some?
      ensures outcome.None? ==> candidateRows == old(candidateRows) && result == old(result)
      ensures outcome.Some? ==> candidateRows == PartialRefresh(meta, old(candidateRows), affected, db).value
      ensures outcome.Some? ==> (outcome.value <==> result != old(result))
    {
      if affected.None? {
        return None;
      }
      var roots := affected.value;
      if roots == {} {
        return Some(false);
      }
      var affectedCandidateRows := |Keep(candidateRows, Inside(roots))|;
      if affectedCandidateRows > meta.overscan {
        return None;
      }
      var recomputedRows := SubsetQuery(meta, db, roots);
      var mergedRows := Keep(candidateRows, Outside(roots)) + recomputedRows;
      mergedRows := Take(Sort(meta.order, mergedRows), meta.candidateLimit);
      if |mergedRows| < meta.MinShadowWindow() && |candidateRows| >= meta.MinShadowWindow() {
        return None;
      }
      var changed := ApplyFullRequeryOutput(mergedRows);
      return Some(changed);
    }

    /** All subscribers are told exactly when the visible rows differ, and get the new ones. */
    method OnChange(change: Change)
      requires Valid()
      modifies this`candidateRows, this`result, this`notifications
      ensures Valid()
      ensures candidateRows == if subscriptions == [] then old(candidateRows) else NextWindow(meta, old(candidateRows), change)
      ensures notifications == old(notifications) + if result != old(result) then Told(subscriptions, result) else []
    {
      if subscriptions == [] {
        return;
      }
      var outcome := TryPartialRefresh(change.affected, change.db);
      var changed: bool;
      if outcome.Some? {
        changed := outcome.value;
      } else {
        changed := ApplyFullRequeryOutput(FullQuery(meta, change.db));
      }
      if changed {
        NotifySubscribers();
      }
    }
  }

  // ----- Exactness of one refresh ----------------------------------------------------------

  ghost predicate Rows(ok: Row -> bool, db: seq<Row>) { All(db, ok) }

  /** The collected roots account for the change: rows of other roots are the same before and
      after. */
  ghost predicate Covers(before: seq<Row>, roots: set<nat>, after: seq<Row>) {
    multiset(Keep(before, Outside(roots))) == multiset(Keep(after, Outside(roots)))
  }

  /** The window agrees with the full order on its first `n` rows. */
  ghost predicate ExactTo(meta: Metadata, window: seq<Row>, db: seq<Row>, n: int) {
    Take(window, n) == Take(Sort(meta.order, db), n)
  }

  /** The new full order: the old one without the affected roots, merged with their rows. */
  lemma OrderAfterChange(meta: Metadata, ok: Row -> bool, before: seq<Row>, roots: set<nat>, after: seq<Row>)
    requires Linear(meta.order, ok)
    requires Rows(ok, before) && Rows(ok, after) && Covers(before, roots, after)
    ensures Sort(meta.order, after)
         == Merge(meta.order, Keep(Sort(meta.order, before), Outside(roots)),
                  Sort(meta.order, Keep(after, Inside(roots))))
  {
    var le := meta.order;
    KeepOfSort(le, ok, before, Outside(roots));
    KeepOfSort(le, ok, after, Inside(roots));
    SortSorted(le, ok, Keep(before, Outside(roots)));
    SortSorted(le, ok, Keep(after, Inside(roots)));
    SortContents(le, Keep(before, Outside(roots)));
    SortContents(le, Keep(after, Inside(roots)));
    KeepSplit(after, Outside(roots), Inside(roots));
    MergeIsSort(le, ok, Sort(le, Keep(before, Outside(roots))), Sort(le, Keep(after, Inside(roots))), after);
  }

  lemma TakeSorted(meta: Metadata, ok: Row -> bool, db: seq<Row>, n: int)
    requires Linear(meta.order, ok)
    requires Rows(ok, db)
    ensures Sorted(meta.order, Take(Sort(meta.order, db), n))
    ensures Rows(ok, Take(Sort(meta.order, db), n))
  {
    SortSorted(meta.order, ok, db);
  }

  /** Every window is in order: the merged candidates are the two sorted lists, merged. */
  lemma MergedIsMerge(meta: Metadata, ok: Row -> bool, window: seq<Row>, roots: set<nat>, db: seq<Row>)
    requires Linear(meta.order, ok)
    requires Rows(ok, db) && Rows(ok, window) && Sorted(meta.order, window)
    ensures Merged(meta, window, roots, db)
         == Merge(meta.order, Keep(window, Outside(roots)), SubsetQuery(meta, db, roots))
    ensures Sorted(meta.order, Merged(meta, window, roots, db)) && Rows(ok, Merged(meta, window, roots, db))
    ensures Sorted(meta.order, SubsetQuery(meta, db, roots)) && Rows(ok, SubsetQuery(meta, db, roots))
    ensures Sorted(meta.order, Keep(window, Outside(roots))) && Rows(ok, Keep(window, Outside(roots)))
  {
    var le := meta.order;
    var kept, recomputed := Keep(window, Outside(roots)), SubsetQuery(meta, db, roots);
    KeepOfSort(le, ok, db, Inside(roots));
    TakeSorted(meta, ok, Keep(db, Inside(roots)), meta.candidateLimit);
    KeepOfSort(le, ok, window, Outside(roots));
    KeepSorted(le, window, Outside(roots));
    MergeIsSort(le, ok, kept, recomputed, kept + recomputed);
    MergeSorted(le, ok, kept, recomputed);
  }

  /** A refresh costs the window at most as many exact rows as it has affected candidates. */
  lemma RefreshShrinksByAffected(meta: Metadata, ok: Row -> bool, window: seq<Row>, before: seq<Row>, roots: set<nat>,
                                 after: seq<Row>, n: int)
    requires Linear(meta.order, ok)
    requires Rows(ok, before) && Rows(ok, after) && Rows(ok, window)
    requires Sorted(meta.order, window)
    requires Covers(before, roots, after) && ExactTo(meta, window, before, n) && n <= meta.candidateLimit
    ensures ExactTo(meta, Patched(meta, window, roots, after), after, n - AffectedCandidates(window, roots))
  {
    var le := meta.order;
    var order, order' := Sort(le, before), Sort(le, after);
    var m := n - AffectedCandidates(window, roots);
    var newRows := Sort(le, Keep(after, Inside(roots)));
    if m > 0 {
      KeepTake(window, order, Outside(roots), Inside(roots), n, AffectedCandidates(window, roots));
      TakeTwice(newRows, meta.candidateLimit, m);
      MergeTake(le, Keep(window, Outside(roots)), Keep(order, Outside(roots)), Take(newRows, meta.candidateLimit), newRows, m);
      MergedIsMerge(meta, ok, window, roots, after);
      OrderAfterChange(meta, ok, before, roots, after);
      TakeTwice(Merged(meta, window, roots, after), meta.candidateLimit, m);
    }
  }

  lemma TakeTwice<T>(s: seq<T>, n: int, m: int)
    requires m <= n
    ensures Take(Take(s, n), m) == Take(s, m)
  {
  }

  lemma VisibleOfExact(meta: Metadata, window: seq<Row>, order: seq<Row>)
    requires Take(window, meta.offset + meta.limit) == Take(order, meta.offset + meta.limit)
    ensures Visible(meta, window) == Visible(meta, order)
  {
    var n := meta.offset + meta.limit;
    VisibleOfTake(meta, window);
    VisibleOfTake(meta, order);
  }

  lemma VisibleOfTake(meta: Metadata, s: seq<Row>)
    ensures Visible(meta, s) == Visible(meta, Take(s, meta.offset + meta.limit))
  {
  }

  // ----- Runs ------------------------------------------------------------------------------

  /** The window after a run that starts with a full query on `db`. */
  function WindowAfter(meta: Metadata, db: seq<Row>, run: seq<Change>): seq<Row> {
    if run == [] then FullQuery(meta, db)
    else NextWindow(meta, WindowAfter(meta, db, run[..|run| - 1]), run[|run| - 1])
  }

  function DbAfter(db: seq<Row>, run: seq<Change>): seq<Row> {
    if run == [] then db else run[|run| - 1].db
  }

  lemma FullQueryLength(meta: Metadata, db: seq<Row>)
    ensures |FullQuery(meta, db)| == if |db| <= meta.candidateLimit then |db| else meta.candidateLimit
  {
    SortContents(meta.order, db);
  }

  lemma NextWindowStaysFull(meta: Metadata, window: seq<Row>, change: Change)
    requires meta.offset + meta.limit + meta.overscan <= meta.candidateLimit
    requires |window| >= meta.offset + meta.limit + meta.overscan
    requires |change.db| >= meta.offset + meta.limit + meta.overscan
    ensures |NextWindow(meta, window, change)| >= meta.offset + meta.limit + meta.overscan
  {
    hide Patched, AffectedCandidates, FullQuery;
    FullQueryLength(meta, change.db);
  }

  /** As long as the result has the rows that are skipped, shown and spare, the window has as many: no
      run, whatever roots it reports, ends with fewer visible rows than the limit. */
  lemma {:induction false} WindowStaysFull(meta: Metadata, db: seq<Row>, run: seq<Change>)
    requires meta.offset + meta.limit + meta.overscan <= meta.candidateLimit
    requires |db| >= meta.offset + meta.limit + meta.overscan
    requires forall i :: 0 <= i < |run| ==> |run[i].db| >= meta.offset + meta.limit + meta.overscan
    ensures |WindowAfter(meta, db, run)| >= meta.offset + meta.limit + meta.overscan
    ensures |Visible(meta, WindowAfter(meta, db, run))| == meta.limit
    decreases |run|
  {
    hide FullQuery, NextWindow, Visible;
    FullQueryLength(meta, db);
    if run != [] {
      WindowStaysFull(meta, db, run[..|run| - 1]);
      NextWindowStaysFull(meta, WindowAfter(meta, db, run[..|run| - 1]), run[|run| - 1]);
    }
    VisibleIsSlice(meta, WindowAfter(meta, db, run));
  }

  /** Affected candidates counted since the last full query of the run. */
  function Spent(meta: Metadata, db: seq<Row>, run: seq<Change>): nat {
    if run == [] then 0
    else
      var window, last := WindowAfter(meta, db, run[..|run| - 1]), run[|run| - 1];
      if PartialRefresh(meta, window, last.affected, last.db).None? then 0
      else Spent(meta, db, run[..|run| - 1]) + AffectedCandidates(window, last.affected.value)
  }

  /** Every database of the run has typed rows and every collected root set accounts for its
      change. */
  ghost predicate GoodRun(ok: Row -> bool, db: seq<Row>, run: seq<Change>) {
    if run == [] then Rows(ok, db)
    else
      var last := run[|run| - 1];
      && GoodRun(ok, db, run[..|run| - 1])
      && Rows(ok, last.db)
      && (last.affected.Some? ==> Covers(DbAfter(db, run[..|run| - 1]), last.affected.value, last.db))
  }

  lemma {:induction false} GoodRunRows(ok: Row -> bool, db: seq<Row>, run: seq<Change>)
    requires GoodRun(ok, db, run)
    ensures Rows(ok, DbAfter(db, run))
  {
  }

  lemma NextWindowInOrder(meta: Metadata, ok: Row -> bool, window: seq<Row>, change: Change)
    requires Linear(meta.order, ok)
    requires Rows(ok, window) && Rows(ok, change.db) && Sorted(meta.order, window)
    requires |window| <= meta.candidateLimit
    ensures var next := NextWindow(meta, window, change);
            Sorted(meta.order, next) && Rows(ok, next) && |next| <= meta.candidateLimit
  {
    if PartialRefresh(meta, window, change.affected, change.db).Some? {
      MergedIsMerge(meta, ok, window, change.affected.value, change.db);
    } else {
      TakeSorted(meta, ok, change.db, meta.candidateLimit);
    }
  }

  lemma {:induction false} WindowInOrder(meta: Metadata, ok: Row -> bool, db: seq<Row>, run: seq<Change>)
    requires Linear(meta.order, ok)
    requires GoodRun(ok, db, run)
    ensures Sorted(meta.order, WindowAfter(meta, db, run)) && Rows(ok, WindowAfter(meta, db, run))
    ensures |WindowAfter(meta, db, run)| <= meta.candidateLimit
  {
    if run == [] {
      TakeSorted(meta, ok, db, meta.candidateLimit);
    } else {
      WindowInOrder(meta, ok, db, run[..|run| - 1]);
      NextWindowInOrder(meta, ok, WindowAfter(meta, db, run[..|run| - 1]), run[|run| - 1]);
    }
  }

  lemma EmptyAffected(meta: Metadata, ok: Row -> bool, before: seq<Row>, after: seq<Row>)
    requires Linear(meta.order, ok)
    requires Rows(ok, before) && Rows(ok, after) && Covers(before, {}, after)
    ensures Sort(meta.order, before) == Sort(meta.order, after)
  {
    var le := meta.order;
    KeepEverything(before);
    KeepEverything(after);
    SortContents(le, before);
    SortContents(le, after);
    SortSorted(le, ok, before);
    SortSorted(le, ok, after);
    SortedUnique(le, ok, Sort(le, before), Sort(le, after));
  }

  lemma {:induction false} KeepEverything(s: seq<Row>)
    ensures Keep(s, Outside({})) == s && Keep(s, Inside({})) == []
  {
    if s != [] {
      KeepEverything(s[1..]);
    }
  }

  /** What one change leaves of an exactness of `n` rows. */
  function ExactAfter(meta: Metadata, window: seq<Row>, change: Change, n: int): int {
    if PartialRefresh(meta, window, change.affected, change.db).None? then meta.candidateLimit
    else n - AffectedCandidates(window, change.affected.value)
  }

  lemma FullQueryIsExact(meta: Metadata, db: seq<Row>)
    ensures ExactTo(meta, FullQuery(meta, db), db, meta.candidateLimit)
  {
    TakeTwice(Sort(meta.order, db), meta.candidateLimit, meta.candidateLimit);
  }

  lemma UnaffectedIsExact(meta: Metadata, ok: Row -> bool, window: seq<Row>, before: seq<Row>, after: seq<Row>, n: int)
    requires Linear(meta.order, ok)
    requires Rows(ok, before) && Rows(ok, after) && Covers(before, {}, after)
    requires ExactTo(meta, window, before, n)
    ensures ExactTo(meta, window, after, n - AffectedCandidates(window, {}))
  {
    hide Sort;
    EmptyAffected(meta, ok, before, after);
    KeepEverything(window);
    SameOrderExact(meta, window, before, after, n, n - AffectedCandidates(window, {}));
  }

  lemma SameOrderExact(meta: Metadata, window: seq<Row>, before: seq<Row>, after: seq<Row>, n: int, m: int)
    requires Sort(meta.order, before) == Sort(meta.order, after) && n == m && ExactTo(meta, window, before, n)
    ensures ExactTo(meta, window, after, m)
  {
  }

  lemma StepStaysExact(meta: Metadata, ok: Row -> bool, window: seq<Row>, before: seq<Row>, change: Change, n: int)
    requires Linear(meta.order, ok)
    requires Rows(ok, before) && Rows(ok, change.db) && Rows(ok, window)
    requires Sorted(meta.order, window) && ExactTo(meta, window, before, n) && n <= meta.candidateLimit
    requires change.affected.Some? ==> Covers(before, change.affected.value, change.db)
    ensures ExactTo(meta, NextWindow(meta, window, change), change.db, ExactAfter(meta, window, change, n))
  {
    hide Sort;
    var next, m := NextWindow(meta, window, change), ExactAfter(meta, window, change, n);
    if PartialRefresh(meta, window, change.affected, change.db).None? {
      FullQueryIsExact(meta, change.db);
      SameExactness(meta, FullQuery(meta, change.db), change.db, meta.candidateLimit, next, change.db, m);
    } else if change.affected.value == {} {
      UnaffectedIsExact(meta, ok, window, before, change.db, n);
      SameExactness(meta, window, change.db, n - AffectedCandidates(window, {}), next, change.db, m);
    } else {
      var roots := change.affected.value;
      RefreshShrinksByAffected(meta, ok, window, before, roots, change.db, n);
      SameExactness(meta, Patched(meta, window, roots, change.db), change.db, n - AffectedCandidates(window, roots),
                    next, change.db, m);
    }
  }

  lemma {:induction false} RunStaysExact(meta: Metadata, ok: Row -> bool, db: seq<Row>, run: seq<Change>)
    requires Linear(meta.order, ok)
    requires GoodRun(ok, db, run)
    ensures ExactTo(meta, WindowAfter(meta, db, run), DbAfter(db, run), meta.candidateLimit - Spent(meta, db, run))
  {
    hide *;
    if run == [] {
      NoChange(meta, db, run);
      FullQueryIsExact(meta, db);
    } else {
      GoodLast(ok, db, run);
      RunStaysExact(meta, ok, db, run[..|run| - 1]);
      NextChangeStaysExact(meta, ok, db, run);
    }
  }

  lemma NoChange(meta: Metadata, db: seq<Row>, run: seq<Change>)
    requires run == []
    ensures WindowAfter(meta, db, run) == FullQuery(meta, db) && DbAfter(db, run) == db && Spent(meta, db, run) == 0
  {}

  lemma GoodLast(ok: Row -> bool, db: seq<Row>, run: seq<Change>)
    requires GoodRun(ok, db, run) && run != []
    ensures var front, last := run[..|run| - 1], run[|run| - 1];
      && GoodRun(ok, db, front) && Rows(ok, DbAfter(db, front)) && Rows(ok, last.db)
      && (last.affected.Some? ==> Covers(DbAfter(db, front), last.affected.value, last.db))
  {
    GoodRunRows(ok, db, run[..|run| - 1]);
  }

  lemma NextChangeStaysExact(meta: Metadata, ok: Row -> bool, db: seq<Row>, run: seq<Change>)
    requires Linear(meta.order, ok) && GoodRun(ok, db, run) && run != []
    requires var front := run[..|run| - 1];
      ExactTo(meta, WindowAfter(meta, db, front), DbAfter(db, front), meta.candidateLimit - Spent(meta, db, front))
    ensures ExactTo(meta, WindowAfter(meta, db, run), DbAfter(db, run), meta.candidateLimit - Spent(meta, db, run))
  {
    hide *;
    var front, last := run[..|run| - 1], run[|run| - 1];
    var window, n := WindowAfter(meta, db, front), meta.candidateLimit - Spent(meta, db, front);
    GoodLast(ok, db, run);
    WindowInOrder(meta, ok, db, front);
    SpentIsCount(meta, db, front);
    StepStaysExact(meta, ok, window, DbAfter(db, front), last, n);
    LastChange(meta, db, run);
    SameExactness(meta, NextWindow(meta, window, last), last.db, ExactAfter(meta, window, last, n),
                  WindowAfter(meta, db, run), DbAfter(db, run), meta.candidateLimit - Spent(meta, db, run));
  }

  lemma SpentIsCount(meta: Metadata, db: seq<Row>, run: seq<Change>)
    ensures meta.candidateLimit - Spent(meta, db, run) <= meta.candidateLimit
  {}

  lemma SameExactness(meta: Metadata, window: seq<Row>, db: seq<Row>, n: int, window': seq<Row>, db': seq<Row>, n': int)
    requires window == window' && db == db' && n == n' && ExactTo(meta, window, db, n)
    ensures ExactTo(meta, window', db', n')
  {
  }

  lemma LastChange(meta: Metadata, db: seq<Row>, run: seq<Change>)
    requires run != []
    ensures var front, last := run[..|run| - 1], run[|run| - 1];
      var window := WindowAfter(meta, db, front);
      && WindowAfter(meta, db, run) == NextWindow(meta, window, last)
      && DbAfter(db, run) == last.db
      && meta.candidateLimit - Spent(meta, db, run)
           == ExactAfter(meta, window, last, meta.candidateLimit - Spent(meta, db, front))
  {
  }

  /** Main result: while the affected candidates counted since the last full query fit in the spare
      rows of the window, the visible rows are those of a full query. */
  lemma VisibleMatchesFullQuery(meta: Metadata, ok: Row -> bool, db: seq<Row>, run: seq<Change>)
    requires Linear(meta.order, ok)
    requires GoodRun(ok, db, run)
    requires Spent(meta, db, run) <= meta.candidateLimit - (meta.offset + meta.limit)
    ensures Visible(meta, WindowAfter(meta, db, run)) == Answer(meta, DbAfter(db, run))
  {
    hide *;
    RunStaysExact(meta, ok, db, run);
    VisibleFromExact(meta, WindowAfter(meta, db, run), DbAfter(db, run), meta.candidateLimit - Spent(meta, db, run));
  }

  /** With as many spare rows as the policy asks for, the first patch after a full query shows what a
      full query would: it gives up before it costs more rows than are spare. */
  lemma FirstPatchIsRight(meta: Metadata, ok: Row -> bool, db: seq<Row>, run: seq<Change>, change: Change)
    requires Linear(meta.order, ok)
    requires GoodRun(ok, db, run + [change]) && Spent(meta, db, run) == 0
    requires meta.offset + meta.limit + meta.overscan <= meta.candidateLimit
    ensures Visible(meta, NextWindow(meta, WindowAfter(meta, db, run), change)) == Answer(meta, change.db)
  {
    var longer := run + [change];
    assert longer[..|longer| - 1] == run;
    SpentByPatch(meta, db, run, change);
    VisibleMatchesFullQuery(meta, ok, db, longer);
  }

  lemma SpentByPatch(meta: Metadata, db: seq<Row>, run: seq<Change>, change: Change)
    ensures Spent(meta, db, run + [change]) <= Spent(meta, db, run) + meta.overscan
  {
    hide Patched, FullQuery, WindowAfter;
    assert (run + [change])[..|run|] == run;
    KeepEverything(WindowAfter(meta, db, run));
  }

  lemma VisibleFromExact(meta: Metadata, window: seq<Row>, db: seq<Row>, n: int)
    requires ExactTo(meta, window, db, n) && meta.offset + meta.limit <= n
    ensures Visible(meta, window) == Answer(meta, db)
  {
    TakeLess(window, Sort(meta.order, db), n, meta.offset + meta.limit);
    VisibleOfExact(meta, window, Sort(meta.order, db));
  }

  // ----- The length guard --------------------------------------------------------------------

  ghost predicate ExactPrefix(meta: Metadata, window: seq<Row>, db: seq<Row>) {
    window == Take(Sort(meta.order, db), |window|)
  }

  ghost predicate Complete(meta: Metadata, window: seq<Row>, db: seq<Row>) {
    window == Sort(meta.order, db)
  }

  /** The unaffected rows of the old order that lie beyond the window. */
  function Beyond(meta: Metadata, window: seq<Row>, before: seq<Row>, roots: set<nat>): seq<Row> {
    var order := Sort(meta.order, before);
    if |window| <= |order| then Keep(order[|window|..], Outside(roots)) else []
  }

  /** The merge against the part of the old order the window never saw. */
  lemma BeyondSplits(meta: Metadata, ok: Row -> bool, window: seq<Row>, before: seq<Row>, roots: set<nat>, after: seq<Row>)
    requires Linear(meta.order, ok)
    requires Rows(ok, before) && Rows(ok, after) && Covers(before, roots, after)
    requires ExactPrefix(meta, window, before)
    ensures Keep(Sort(meta.order, before), Outside(roots))
         == Keep(window, Outside(roots)) + Beyond(meta, window, before, roots)
    ensures Sorted(meta.order, Beyond(meta, window, before, roots))
    ensures multiset(Sort(meta.order, after))
         == multiset(Keep(window, Outside(roots))) + multiset(Beyond(meta, window, before, roots))
          + multiset(Sort(meta.order, Keep(after, Inside(roots))))
  {
    var le := meta.order;
    var order := Sort(le, before);
    SortSorted(le, ok, before);
    assert order == window + order[|window|..];
    KeepAppend(window, order[|window|..], Outside(roots));
    KeepSorted(le, order[|window|..], Outside(roots));
    OrderAfterChange(meta, ok, before, roots, after);
    MergeContents(le, Keep(order, Outside(roots)), Sort(le, Keep(after, Inside(roots))));
  }

  /** Limiting the subset query to the window size loses nothing the window keeps. */
  lemma PatchedFromAll(meta: Metadata, ok: Row -> bool, window: seq<Row>, roots: set<nat>, after: seq<Row>)
    requires Linear(meta.order, ok)
    requires Rows(ok, after) && Rows(ok, window) && Sorted(meta.order, window)
    ensures var newRows := Sort(meta.order, Keep(after, Inside(roots)));
            var all := Merge(meta.order, Keep(window, Outside(roots)), newRows);
            && Patched(meta, window, roots, after) == Take(all, meta.candidateLimit)
            && Sorted(meta.order, all)
            && multiset(all) == multiset(Keep(window, Outside(roots))) + multiset(newRows)
  {
    var le := meta.order;
    var kept, newRows := Keep(window, Outside(roots)), Sort(le, Keep(after, Inside(roots)));
    MergedIsMerge(meta, ok, window, roots, after);
    KeepOfSort(le, ok, after, Inside(roots));
    SortSorted(le, ok, Keep(after, Inside(roots)));
    MergeSorted(le, ok, kept, newRows);
    MergeContents(le, kept, newRows);
    TakeTwice(newRows, meta.candidateLimit, meta.candidateLimit);
    MergeTake(le, kept, kept, Take(newRows, meta.candidateLimit), newRows, meta.candidateLimit);
  }

  /** The end of the patched window sorts no later than the first unaffected row beyond the old
      window. */
  ghost predicate EndsBeforeBeyond(meta: Metadata, window: seq<Row>, before: seq<Row>, roots: set<nat>, after: seq<Row>) {
    var patched, beyond := Patched(meta, window, roots, after), Beyond(meta, window, before, roots);
    patched == [] || beyond == [] || meta.order(patched[|patched| - 1], beyond[0])
  }

  /** Exactly when a patch is right: an exact window stays one if and only if its new end sorts no
      later than the first unaffected row it never saw. The length guard does not look at that. */
  lemma RefreshExactly(meta: Metadata, ok: Row -> bool, window: seq<Row>, before: seq<Row>, roots: set<nat>, after: seq<Row>)
    requires Linear(meta.order, ok)
    requires Rows(ok, before) && Rows(ok, after) && Covers(before, roots, after)
    requires ExactPrefix(meta, window, before)
    ensures ExactPrefix(meta, Patched(meta, window, roots, after), after)
       <==> EndsBeforeBeyond(meta, window, before, roots, after)
  {
    var le := meta.order;
    SortSorted(le, ok, after);
    TakeSorted(meta, ok, before, |window|);
    BeyondSplits(meta, ok, window, before, roots, after);
    PatchedFromAll(meta, ok, window, roots, after);
    var all := Merge(le, Keep(window, Outside(roots)), Sort(le, Keep(after, Inside(roots))));
    CutExactly(le, ok, all, Beyond(meta, window, before, roots), Sort(le, after), meta.candidateLimit);
  }

  /** The recomputed rows sort no later than the last candidate kept, or the window holds the whole
      result. */
  ghost predicate Settles(meta: Metadata, window: seq<Row>, before: seq<Row>, roots: set<nat>, after: seq<Row>) {
    var kept, recomputed := Keep(window, Outside(roots)), SubsetQuery(meta, after, roots);
    || Complete(meta, window, before)
    || recomputed == []
    || (kept != [] && meta.order(recomputed[|recomputed| - 1], kept[|kept| - 1]))
  }

  lemma SettlesEndsBefore(meta: Metadata, ok: Row -> bool, window: seq<Row>, before: seq<Row>, roots: set<nat>, after: seq<Row>)
    requires Linear(meta.order, ok)
    requires Rows(ok, before) && Rows(ok, after) && Covers(before, roots, after)
    requires ExactPrefix(meta, window, before) && Settles(meta, window, before, roots, after)
    ensures EndsBeforeBeyond(meta, window, before, roots, after)
  {
    hide Sort;
    var kept, recomputed := Keep(window, Outside(roots)), SubsetQuery(meta, after, roots);
    var beyond := Beyond(meta, window, before, roots);
    TakeSorted(meta, ok, before, |window|);
    MergedIsMerge(meta, ok, window, roots, after);
    if beyond != [] && kept != [] {
      KeptBeforeBeyond(meta, ok, window, before, roots, after);
      CutMergeEnd(meta.order, ok, kept, recomputed, meta.candidateLimit, beyond[0]);
    }
  }

  lemma KeptBeforeBeyond(meta: Metadata, ok: Row -> bool, window: seq<Row>, before: seq<Row>, roots: set<nat>, after: seq<Row>)
    requires Linear(meta.order, ok)
    requires Rows(ok, before) && Rows(ok, after) && Covers(before, roots, after)
    requires ExactPrefix(meta, window, before)
    requires Keep(window, Outside(roots)) != [] && Beyond(meta, window, before, roots) != []
    ensures var kept := Keep(window, Outside(roots));
            var first := Beyond(meta, window, before, roots)[0];
            meta.order(kept[|kept| - 1], first) && ok(first)
  {
    var le := meta.order;
    var kept, beyond := Keep(window, Outside(roots)), Beyond(meta, window, before, roots);
    var order := Sort(le, before);
    SortSorted(le, ok, before);
    BeyondSplits(meta, ok, window, before, roots, after);
    KeepSorted(le, order, Outside(roots));
    KeepShorter(order, Outside(roots));
    var both := kept + beyond;
    assert both[|kept| - 1] == kept[|kept| - 1] && both[|kept|] == beyond[0];
    assert beyond[0] in order;
  }

  /** Every collected change of the run settles inside the window it meets. */
  ghost predicate SettledRun(meta: Metadata, db: seq<Row>, run: seq<Change>) {
    run != [] ==>
      var front, last := run[..|run| - 1], run[|run| - 1];
      && SettledRun(meta, db, front)
      && (last.affected.Some? && last.affected.value != {} ==>
            Settles(meta, WindowAfter(meta, db, front), DbAfter(db, front), last.affected.value, last.db))
  }

  lemma {:induction false} GuardKeepsPrefix(meta: Metadata, ok: Row -> bool, db: seq<Row>, run: seq<Change>)
    requires Linear(meta.order, ok)
    requires GoodRun(ok, db, run) && SettledRun(meta, db, run)
    requires meta.MinShadowWindow() <= meta.candidateLimit
    ensures var window := WindowAfter(meta, db, run);
            ExactPrefix(meta, window, DbAfter(db, run))
            && (|window| >= meta.MinShadowWindow() || Complete(meta, window, DbAfter(db, run)))
  {
    if run != [] {
      var front, last := run[..|run| - 1], run[|run| - 1];
      var window, before := WindowAfter(meta, db, front), DbAfter(db, front);
      GuardKeepsPrefix(meta, ok, db, front);
      GoodRunRows(ok, db, front);
      if PartialRefresh(meta, window, last.affected, last.db).Some? {
        var roots := last.affected.value;
        if roots == {} {
          EmptyAffected(meta, ok, before, last.db);
        } else {
          SettlesEndsBefore(meta, ok, window, before, roots, last.db);
          RefreshExactly(meta, ok, window, before, roots, last.db);
          WindowInOrder(meta, ok, db, front);
          if Complete(meta, window, before) {
            CompleteStays(meta, ok, window, before, roots, last.db);
          }
        }
      }
    }
  }

  /** A window that holds the whole result holds it again after the patch, up to its size. */
  lemma CompleteStays(meta: Metadata, ok: Row -> bool, window: seq<Row>, before: seq<Row>, roots: set<nat>, after: seq<Row>)
    requires Linear(meta.order, ok)
    requires Rows(ok, before) && Rows(ok, after) && Covers(before, roots, after)
    requires Complete(meta, window, before)
    ensures Patched(meta, window, roots, after) == FullQuery(meta, after)
  {
    TakeSorted(meta, ok, before, |window|);
    PatchedFromAll(meta, ok, window, roots, after);
    OrderAfterChange(meta, ok, before, roots, after);
  }

  /** Main result for the guard: when recomputed rows never sort past the kept candidates, the
      length check alone keeps the visible rows right forever. */
  lemma GuardSuffices(meta: Metadata, ok: Row -> bool, db: seq<Row>, run: seq<Change>)
    requires Linear(meta.order, ok)
    requires GoodRun(ok, db, run) && SettledRun(meta, db, run)
    requires meta.MinShadowWindow() <= meta.candidateLimit
    ensures Visible(meta, WindowAfter(meta, db, run)) == Answer(meta, DbAfter(db, run))
  {
    GuardKeepsPrefix(meta, ok, db, run);
    var window, order := WindowAfter(meta, db, run), Sort(meta.order, DbAfter(db, run));
    if |window| >= meta.MinShadowWindow() {
      TakeTwice(order, |window|, meta.offset + meta.limit);
      VisibleOfExact(meta, window, order);
    }
  }

  // ----- Typed rows under an ORDER BY clause ---------------------------------------------------

  /** Both main results for the comparator the source uses, over rows with typed columns. */
  lemma TypedRowsStayVisible(types: seq<int>, keys: seq<OrderKey>, meta: Metadata, db: seq<Row>, run: seq<Change>)
    requires meta.order == NotAfter(keys) && GoodRun(Typed(types), db, run)
    requires
      || Spent(meta, db, run) <= meta.candidateLimit - (meta.offset + meta.limit)
      || (SettledRun(meta, db, run) && meta.MinShadowWindow() <= meta.candidateLimit)
    ensures Visible(meta, WindowAfter(meta, db, run)) == Answer(meta, DbAfter(db, run))
  {
    RowOrderLinear(types, keys);
    if Spent(meta, db, run) <= meta.candidateLimit - (meta.offset + meta.limit) {
      VisibleMatchesFullQuery(meta, Typed(types), db, run);
    } else {
      GuardSuffices(meta, Typed(types), db, run);
    }
  }
}
