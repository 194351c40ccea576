/** Runs after which a patched window shows wrong rows.

  The windows are those the query builder sets up (crates/database/src/query_builder.rs, with the
  overscan of crates/database/src/snapshot_refresh_policy.rs). */
module StaleWindows {
  import opened Options
  import opened Values
  import opened OrderedWindow
  import opened RowOrder
  import opened SnapshotRefresh

  // ----- The windows of the source -------------------------------------------------------------

  /** A quarter of the limit, between 256 and 1024. */
  function Overscan(limit: nat): nat {
    var proportional := limit / 4;
    var capped := if proportional < 1024 then proportional else 1024;
    if capped < 256 then 256 else capped
  }

  function WindowFor(order: (Row, Row) -> bool, offset: nat, limit: nat): Metadata {
    Metadata(order, offset, limit, Overscan(limit), offset + limit + 2 * Overscan(limit))
  }

  /** A window with twice its overscan behind the visible rows, of which there is at least one. */
  predicate DoubleOverscan(meta: Metadata) {
    meta.overscan >= 1 && meta.limit >= 1 && meta.candidateLimit == meta.offset + meta.limit + 2 * meta.overscan
  }

  // ----- Sinking rows --------------------------------------------------------------------------

  /** How many rows have to sink: one more than there are rows behind the visible ones. */
  function Depth(meta: Metadata): nat { 2 * meta.overscan + 1 }

  /** Rows in order: one more than the window holds, with roots in order, and behind them one for each of
      the first roots, to which its row sinks. */
  ghost predicate SinkingRows(meta: Metadata, ok: Row -> bool, e: seq<Row>) {
    var n := meta.candidateLimit;
    && |e| == n + 1 + Depth(meta) && All(e, ok) && Sorted(meta.order, e)
    && forall i {:trigger e[i]} :: 0 <= i < |e| ==> e[i].root == if i <= n then i else i - (n + 1)
  }

  /** The rows once the first `k` have sunk: the others and those they became, in order. */
  function SunkDb(meta: Metadata, e: seq<Row>, k: nat): seq<Row>
    requires |e| == meta.candidateLimit + 1 + Depth(meta) && k <= Depth(meta)
  {
    e[k..k + meta.candidateLimit + 1]
  }

  /** The window at that point: it never learns of the row it left out at first. */
  function SunkWindow(meta: Metadata, e: seq<Row>, k: nat): seq<Row>
    requires DoubleOverscan(meta) && |e| == meta.candidateLimit + 1 + Depth(meta) && k <= Depth(meta)
  {
    e[k..meta.candidateLimit] + e[meta.candidateLimit + 1..meta.candidateLimit + 1 + k]
  }

  /** Row `k` sinks. */
  function Sinking(meta: Metadata, e: seq<Row>, k: nat): Change
    requires |e| == meta.candidateLimit + 1 + Depth(meta) && k < Depth(meta)
  {
    Change(Some({k}), SunkDb(meta, e, k + 1))
  }

  function SinkingRun(meta: Metadata, e: seq<Row>, k: nat): seq<Change>
    requires |e| == meta.candidateLimit + 1 + Depth(meta) && k <= Depth(meta)
  {
    if k == 0 then [] else SinkingRun(meta, e, k - 1) + [Sinking(meta, e, k - 1)]
  }

  lemma SortOfSorted(meta: Metadata, ok: Row -> bool, s: seq<Row>)
    requires Linear(meta.order, ok) && All(s, ok) && Sorted(meta.order, s)
    ensures Sort(meta.order, s) == s
  {
    SortSorted(meta.order, ok, s);
    SortContents(meta.order, s);
    SortedUnique(meta.order, ok, Sort(meta.order, s), s);
  }

  lemma {:induction false} KeepAll(s: seq<Row>, p: Row -> bool)
    requires forall i :: 0 <= i < |s| ==> p(s[i])
    ensures Keep(s, p) == s
  {
    if s != [] {
      KeepAll(s[1..], p);
      assert s == [s[0]] + s[1..];
    }
  }

  lemma {:induction false} KeepNone(s: seq<Row>, p: Row -> bool)
    requires forall i :: 0 <= i < |s| ==> !p(s[i])
    ensures Keep(s, p) == []
  {
    if s != [] {
      KeepNone(s[1..], p);
    }
  }

  /** Of a list whose first row alone has the given root. */
  lemma KeepFirst(s: seq<Row>, root: nat)
    requires s != [] && s[0].root == root && forall i :: 1 <= i < |s| ==> s[i].root != root
    ensures Keep(s, Inside({root})) == [s[0]] && Keep(s, Outside({root})) == s[1..]
  {
    KeepNone(s[1..], Inside({root}));
    KeepAll(s[1..], Outside({root}));
  }

  /** Of a list whose last row alone has the given root. */
  lemma KeepLast(front: seq<Row>, last: Row)
    requires forall i :: 0 <= i < |front| ==> front[i].root != last.root
    ensures Keep(front + [last], Inside({last.root})) == [last] && Keep(front + [last], Outside({last.root})) == front
  {
    KeepAppend(front, [last], Inside({last.root}));
    KeepAppend(front, [last], Outside({last.root}));
    KeepNone(front, Inside({last.root}));
    KeepAll(front, Outside({last.root}));
    assert [last][1..] == [];
  }

  /** The window loses the row that sinks, and the candidates keep the rest. */
  lemma WindowParts(meta: Metadata, ok: Row -> bool, e: seq<Row>, k: nat)
    requires DoubleOverscan(meta) && SinkingRows(meta, ok, e) && k < Depth(meta)
    ensures Keep(SunkWindow(meta, e, k), Inside({k})) == [e[k]]
    ensures Keep(SunkWindow(meta, e, k), Outside({k})) + [e[meta.candidateLimit + 1 + k]] == SunkWindow(meta, e, k + 1)
  {
    hide Keep, Sorted;
    var n, window := meta.candidateLimit, SunkWindow(meta, e, k);
    assert window[0] == e[k];
    forall i | 1 <= i < |window| ensures window[i].root != k {
      assert window[i] == e[if i < n - k then k + i else k + i + 1];
    }
    KeepFirst(window, k);
    ShiftWindow(e, k, n);
  }

  lemma ShiftWindow(e: seq<Row>, k: nat, n: nat)
    requires k < n && n + 1 + k < |e|
    ensures (e[k..n] + e[n + 1..n + 1 + k])[1..] + [e[n + 1 + k]] == e[k + 1..n] + e[n + 1..n + 1 + (k + 1)]
  {
    assert e[n + 1..n + 1 + (k + 1)] == e[n + 1..n + 1 + k] + [e[n + 1 + k]];
  }

  /** Of the rows, only the one that sinks is recomputed, and all others stay. */
  lemma DbParts(meta: Metadata, ok: Row -> bool, e: seq<Row>, k: nat)
    requires DoubleOverscan(meta) && SinkingRows(meta, ok, e) && k < Depth(meta)
    ensures Keep(SunkDb(meta, e, k + 1), Inside({k})) == [e[meta.candidateLimit + 1 + k]]
    ensures Keep(SunkDb(meta, e, k), Outside({k})) == Keep(SunkDb(meta, e, k + 1), Outside({k}))
  {
    hide Keep, Sorted;
    var n, db := meta.candidateLimit, SunkDb(meta, e, k);
    forall i | 1 <= i < |db| ensures db[i].root != k {
      assert db[i] == e[k + i];
    }
    KeepFirst(db, k);
    assert db[1..] == e[k + 1..k + n + 1];
    assert SunkDb(meta, e, k + 1) == db[1..] + [e[n + 1 + k]];
    KeepLast(db[1..], e[n + 1 + k]);
  }

  lemma SunkSorted(meta: Metadata, ok: Row -> bool, e: seq<Row>, k: nat)
    requires DoubleOverscan(meta) && SinkingRows(meta, ok, e) && k <= Depth(meta)
    ensures All(SunkWindow(meta, e, k), ok) && Sorted(meta.order, SunkWindow(meta, e, k))
    ensures All(SunkDb(meta, e, k), ok) && Sorted(meta.order, SunkDb(meta, e, k))
    ensures |SunkWindow(meta, e, k)| == meta.candidateLimit
  {
    var n, window, db := meta.candidateLimit, SunkWindow(meta, e, k), SunkDb(meta, e, k);
    forall i | 0 <= i < |window| ensures window[i] == e[if i < n - k then k + i else k + i + 1] {
    }
    forall i, j | 0 <= i < j < |window| ensures meta.order(window[i], window[j]) {
      assert meta.order(e[if i < n - k then k + i else k + i + 1], e[if j < n - k then k + j else k + j + 1]);
    }
    forall i, j | 0 <= i < j < |db| ensures meta.order(db[i], db[j]) {
      assert meta.order(e[k + i], e[k + j]);
    }
  }

  /** One change: a single affected candidate, a merged window of full length, and no give-up. */
  lemma SinkStep(meta: Metadata, ok: Row -> bool, e: seq<Row>, k: nat)
    requires DoubleOverscan(meta) && Linear(meta.order, ok) && SinkingRows(meta, ok, e) && k < Depth(meta)
    ensures PartialRefresh(meta, SunkWindow(meta, e, k), Some({k}), SunkDb(meta, e, k + 1)) == Some(SunkWindow(meta, e, k + 1))
    ensures AffectedCandidates(SunkWindow(meta, e, k), {k}) == 1
    ensures Covers(SunkDb(meta, e, k), {k}, SunkDb(meta, e, k + 1))
  {
    hide Sort, SunkWindow, SunkDb, Keep, Sorted;
    var moved := e[meta.candidateLimit + 1 + k];
    WindowParts(meta, ok, e, k);
    DbParts(meta, ok, e, k);
    SunkSorted(meta, ok, e, k);
    SunkSorted(meta, ok, e, k + 1);
    OneSorted(meta, moved);
    SortOfSorted(meta, ok, SunkWindow(meta, e, k + 1));
  }

  lemma OneSorted(meta: Metadata, row: Row)
    ensures Sort(meta.order, [row]) == [row]
  {
    assert [row][1..] == [];
  }

  /** The state of the run after `k` changes: every one was patched, with one candidate spent on each. */
  lemma {:induction false} SinkingState(meta: Metadata, ok: Row -> bool, e: seq<Row>, k: nat)
    requires DoubleOverscan(meta) && Linear(meta.order, ok) && SinkingRows(meta, ok, e) && k <= Depth(meta)
    ensures var start, run := SunkDb(meta, e, 0), SinkingRun(meta, e, k);
      && |run| == k && GoodRun(ok, start, run)
      && WindowAfter(meta, start, run) == SunkWindow(meta, e, k)
      && DbAfter(start, run) == SunkDb(meta, e, k)
      && Spent(meta, start, run) == k
  {
    hide Sort, SunkWindow, SunkDb, Covers, PartialRefresh, AffectedCandidates, Sorted;
    SunkSorted(meta, ok, e, k);
    if k == 0 {
      FullAtStart(meta, ok, e);
    } else {
      var front := SinkingRun(meta, e, k - 1);
      SinkingState(meta, ok, e, k - 1);
      SinkStep(meta, ok, e, k - 1);
      assert SinkingRun(meta, e, k)[..k - 1] == front && SinkingRun(meta, e, k)[k - 1] == Sinking(meta, e, k - 1);
    }
  }

  lemma FullAtStart(meta: Metadata, ok: Row -> bool, e: seq<Row>)
    requires DoubleOverscan(meta) && Linear(meta.order, ok) && SinkingRows(meta, ok, e)
    ensures FullQuery(meta, SunkDb(meta, e, 0)) == SunkWindow(meta, e, 0)
  {
    var n := meta.candidateLimit;
    SunkSorted(meta, ok, e, 0);
    SortOfSorted(meta, ok, SunkDb(meta, e, 0));
    assert e[n + 1..n + 1] == [];
    assert e[..n + 1][..n] == e[..n];
  }

  /** After one change more than the window has rows to spare, its last visible row is wrong, though the
      guard was never called for. So the budget of affected candidates cannot be any larger. */
  lemma GuardMissesSinkingRows(meta: Metadata, ok: Row -> bool, e: seq<Row>)
    requires DoubleOverscan(meta) && Linear(meta.order, ok) && SinkingRows(meta, ok, e)
    ensures var start, run, last := SunkDb(meta, e, 0), SinkingRun(meta, e, Depth(meta)), meta.limit - 1;
      && GoodRun(ok, start, run)
      && Spent(meta, start, run) == |run| == meta.candidateLimit - (meta.offset + meta.limit) + 1
      && |Visible(meta, WindowAfter(meta, start, run))| == |Answer(meta, DbAfter(start, run))| == meta.limit
      && Visible(meta, WindowAfter(meta, start, run))[last] == e[meta.candidateLimit + 1]
      && Answer(meta, DbAfter(start, run))[last] == e[meta.candidateLimit]
      && e[meta.candidateLimit + 1] != e[meta.candidateLimit]
  {
    hide Sort, SunkWindow, SunkDb, GoodRun, Spent, WindowAfter, DbAfter, SinkingRun, Sorted, Visible;
    var n, k := meta.candidateLimit, Depth(meta);
    SinkingState(meta, ok, e, k);
    SunkSorted(meta, ok, e, k);
    SortOfSorted(meta, ok, SunkDb(meta, e, k));
    LastVisible(meta, e);
    assert e[n].root == n && e[n + 1].root == 0;
  }

  lemma LastVisible(meta: Metadata, e: seq<Row>)
    requires DoubleOverscan(meta) && |e| == meta.candidateLimit + 1 + Depth(meta)
    ensures var n, k, last := meta.candidateLimit, Depth(meta), meta.limit - 1;
      && |Visible(meta, SunkWindow(meta, e, k))| == |Visible(meta, SunkDb(meta, e, k))| == meta.limit
      && Visible(meta, SunkWindow(meta, e, k))[last] == e[n + 1]
      && Visible(meta, SunkDb(meta, e, k))[last] == e[n]
  {
    var n, k := meta.candidateLimit, Depth(meta);
    VisibleIsSlice(meta, SunkWindow(meta, e, k));
    VisibleIsSlice(meta, SunkDb(meta, e, k));
    assert meta.offset + meta.limit - 1 == n - k;
    assert SunkWindow(meta, e, k)[n - k] == e[n + 1];
    assert SunkDb(meta, e, k)[n - k] == e[n];
  }

  // ----- Rows that sink ------------------------------------------------------------------------

  /** A text of `n` letters; longer ones sort later. */
  function Letters(n: nat): string { seq(n, i => 'a') }

  lemma LongerIsLater(m: nat, n: nat)
    requires m < n
    ensures Compare(String(Letters(m)), String(Letters(n))) == Values.Less
  {
    var a, b := Codes(Letters(m)), Codes(Letters(n));
    assert a[..m] == b[..m];
    assert DecidesAt(a, b, m);
    CodesInOrder(a, b);
  }

  lemma LettersDiffer(m: nat, n: nat)
    ensures Letters(m) == Letters(n) <==> m == n
  {
    assert |Letters(m)| == m && |Letters(n)| == n;
  }

  /** A row ordered by its first column, with the primary key of its root in the second one. */
  function SinkingRow(i: nat, root: nat, version: nat): Row {
    Row([String(Letters(i)), String(Letters(root))], version, root)
  }

  /** The first `n + 1` rows, and behind them the first ones again after one update each. */
  function LetterRows(n: nat, depth: nat): (e: seq<Row>)
    ensures |e| == n + 1 + depth
    ensures forall i :: 0 <= i < |e| ==> e[i] == if i <= n then SinkingRow(i, i, 1) else SinkingRow(i, i - (n + 1), 2)
  {
    seq(n + 1 + depth, i requires 0 <= i < n + 1 + depth =>
          if i <= n then SinkingRow(i, i, 1) else SinkingRow(i, i - (n + 1), 2))
  }

  lemma LetterKeysNameRoots(n: nat, depth: nat)
    ensures KeyNamesRoot(LetterRows(n, depth), 1)
  {
    var e := LetterRows(n, depth);
    forall a, b | a in e && b in e ensures a.values[1] == b.values[1] <==> a.root == b.root {
      LettersDiffer(a.root, b.root);
    }
  }

  /** Such rows exist for every window: a text column that gets one letter longer from row to row, and the
      primary key, which an update keeps. */
  lemma SinkingRowsExist(offset: nat, limit: nat) returns (meta: Metadata, e: seq<Row>)
    requires limit >= 1
    ensures meta == WindowFor(NotAfter([OrderKey(0, false)]), offset, limit)
    ensures DoubleOverscan(meta) && SinkingRows(meta, Typed([5, 5]), e) && KeyNamesRoot(e, 1)
    ensures meta.order == NotAfter([OrderKey(0, false)]) && meta.limit == limit
    ensures meta.candidateLimit - (meta.offset + meta.limit) == 2 * Overscan(limit) == Depth(meta) - 1
    ensures |e| == meta.candidateLimit + 1 + Depth(meta)
    ensures e[meta.candidateLimit].values != e[meta.candidateLimit + 1].values
  {
    LettersDiffer(WindowFor(NotAfter([OrderKey(0, false)]), offset, limit).candidateLimit,
                  WindowFor(NotAfter([OrderKey(0, false)]), offset, limit).candidateLimit + 1);
    meta := WindowFor(NotAfter([OrderKey(0, false)]), offset, limit);
    e := LetterRows(meta.candidateLimit, Depth(meta));
    LetterKeysNameRoots(meta.candidateLimit, Depth(meta));
    hide KeyNamesRoot, SinkingRows;
    LetterRowsSink(meta, e);
  }

  lemma LetterRowsSink(meta: Metadata, e: seq<Row>)
    requires meta.order == NotAfter([OrderKey(0, false)]) && e == LetterRows(meta.candidateLimit, Depth(meta))
    ensures SinkingRows(meta, Typed([5, 5]), e)
  {
    hide SinkingRow, NotAfter, Typed, LetterRows;
    var n := meta.candidateLimit;
    forall i, j | 0 <= i < j < |e|
      ensures meta.order(e[i], e[j])
    {
      LongerRowIsLater(i, if i <= n then i else i - (n + 1), if i <= n then 1 else 2,
                       j, if j <= n then j else j - (n + 1), if j <= n then 1 else 2);
    }
    forall i | 0 <= i < |e| ensures Typed([5, 5])(e[i]) && e[i].root == if i <= n then i else i - (n + 1) {
      LongerRowIsLater(i, if i <= n then i else i - (n + 1), if i <= n then 1 else 2, i + 1, 0, 1);
    }
  }

  lemma LongerRowIsLater(i: nat, m: nat, v: nat, j: nat, n: nat, w: nat)
    requires i < j
    ensures NotAfter([OrderKey(0, false)])(SinkingRow(i, m, v), SinkingRow(j, n, w))
    ensures Typed([5, 5])(SinkingRow(i, m, v)) && SinkingRow(i, m, v).root == m && SinkingRow(i, m, v).version == v
  {
    LongerIsLater(i, j);
    assert CompareColumn(OrderKey(0, false), SinkingRow(i, m, v), SinkingRow(j, n, w)) == Values.Less;
  }

  /** For every OFFSET and every LIMIT the window the source builds goes stale: a run of changes, each of
      one row, that the guard lets through and that ends with wrong visible rows. */
  lemma SourceWindowsGoStale(offset: nat, limit: nat) returns (meta: Metadata, db: seq<Row>, run: seq<Change>)
    requires limit >= 1
    ensures meta == WindowFor(NotAfter([OrderKey(0, false)]), offset, limit)
    ensures GoodRun(Typed([5, 5]), db, run) && |run| == 2 * Overscan(limit) + 1
    ensures KeyNamesRoot(db, 1) && forall change :: change in run ==> KeyNamesRoot(change.db, 1)
    ensures Spent(meta, db, run) == |run|
    ensures var shown, right := Visible(meta, WindowAfter(meta, db, run)), Answer(meta, DbAfter(db, run));
      |shown| == |right| == limit && shown[limit - 1].values != right[limit - 1].values
  {
    hide *;
    var e: seq<Row>;
    meta, e := SinkingRowsExist(offset, limit);
    RowOrderLinear([5, 5], [OrderKey(0, false)]);
    GuardMissesSinkingRows(meta, Typed([5, 5]), e);
    db, run := SunkDb(meta, e, 0), SinkingRun(meta, e, Depth(meta));
    PartsKeepKeys(meta, e, Depth(meta));
  }

  lemma SunkKeepsKeys(meta: Metadata, e: seq<Row>, k: nat)
    requires KeyNamesRoot(e, 1) && |e| == meta.candidateLimit + 1 + Depth(meta) && k <= Depth(meta)
    ensures KeyNamesRoot(SunkDb(meta, e, k), 1)
  {
    forall row | row in SunkDb(meta, e, k) ensures row in e {}
  }

  lemma {:induction false} PartsKeepKeys(meta: Metadata, e: seq<Row>, k: nat)
    requires KeyNamesRoot(e, 1) && |e| == meta.candidateLimit + 1 + Depth(meta) && k <= Depth(meta)
    ensures KeyNamesRoot(SunkDb(meta, e, 0), 1)
    ensures forall change :: change in SinkingRun(meta, e, k) ==> KeyNamesRoot(change.db, 1)
  {
    SunkKeepsKeys(meta, e, 0);
    if k > 0 {
      PartsKeepKeys(meta, e, k - 1);
      SunkKeepsKeys(meta, e, k);
      var front, last := SinkingRun(meta, e, k - 1), Sinking(meta, e, k - 1);
      assert SinkingRun(meta, e, k) == front + [last] && last.db == SunkDb(meta, e, k);
      hide *;
    }
  }
}
