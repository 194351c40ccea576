/** Partial refresh when the query itself is answered by the executor.

  The executor (crates/query/src/executor/sort.rs and runner.rs) orders by the keys of the clause only.
  The rows a full query hands to the window come in its order, while every patch sorts the window with
  the comparator, which also breaks ties. */
module ExecutorOrder {
  import opened Options
  import opened Values
  import opened OrderedWindow
  import opened RowOrder
  import opened SnapshotRefresh
  import opened StaleWindows

  // ----- The executor's sort -------------------------------------------------------------------

  function KeyInsert(keys: seq<OrderKey>, row: Row, sorted: seq<Row>): seq<Row> {
    if sorted == [] || CompareKeys(keys, row, sorted[0]) != Greater then [row] + sorted
    else [sorted[0]] + KeyInsert(keys, row, sorted[1..])
  }

  /** A stable sort by the keys. */
  function KeySort(keys: seq<OrderKey>, rows: seq<Row>): seq<Row> {
    if rows == [] then [] else KeyInsert(keys, rows[0], KeySort(keys, rows[1..]))
  }

  lemma {:induction false} InsertContents(keys: seq<OrderKey>, row: Row, sorted: seq<Row>)
    ensures multiset(KeyInsert(keys, row, sorted)) == multiset{row} + multiset(sorted)
  {
    if sorted != [] && CompareKeys(keys, row, sorted[0]) == Greater {
      InsertContents(keys, row, sorted[1..]);
      assert sorted == [sorted[0]] + sorted[1..];
    }
  }

  lemma {:induction false} InsertOrdered(types: seq<int>, keys: seq<OrderKey>, row: Row, sorted: seq<Row>)
    requires Typed(types)(row) && All(sorted, Typed(types)) && KeyOrdered(keys, sorted)
    ensures KeyOrdered(keys, KeyInsert(keys, row, sorted))
  {
    if sorted == [] {
    } else if CompareKeys(keys, row, sorted[0]) != Greater {
      forall j | 0 <= j < |sorted| ensures CompareKeys(keys, row, sorted[j]) != Greater {
        assert Typed(types)(sorted[0]) && Typed(types)(sorted[j]);
        if j > 0 {
          KeysCoherent(types, keys, row, sorted[0], sorted[j]);
          assert CompareKeys(keys, sorted[0], sorted[j]) != Greater;
        }
      }
    } else {
      var rest := KeyInsert(keys, row, sorted[1..]);
      InsertOrdered(types, keys, row, sorted[1..]);
      InsertContents(keys, row, sorted[1..]);
      KeysMirror(keys, row, sorted[0]);
      forall j | 0 <= j < |rest| ensures CompareKeys(keys, sorted[0], rest[j]) != Greater {
        assert rest[j] in multiset(rest);
        if rest[j] != row {
          assert rest[j] in sorted[1..];
        }
      }
    }
  }

  /** The executor's sort is one of the arrangements the clause allows. */
  lemma {:induction false} KeySortArranges(types: seq<int>, keys: seq<OrderKey>, rows: seq<Row>)
    requires All(rows, Typed(types))
    ensures Arranged(keys, rows, KeySort(keys, rows))
  {
    if rows != [] {
      var rest := KeySort(keys, rows[1..]);
      KeySortArranges(types, keys, rows[1..]);
      SameMembers(rows[1..], rest, Typed(types));
      InsertOrdered(types, keys, rows[0], rest);
      InsertContents(keys, rows[0], rest);
      assert rows == [rows[0]] + rows[1..];
    }
  }

  // ----- Runs with the executor's answers ------------------------------------------------------

  /** How the executor arranges rows before it cuts them off at the limit. */
  type Arranging = seq<Row> -> seq<Row>

  /** It orders typed rows by the keys and breaks ties in whatever way. */
  ghost predicate Executes(types: seq<int>, keys: seq<OrderKey>, arrange: Arranging) {
    forall rows :: All(rows, Typed(types)) ==> Arranged(keys, rows, arrange(rows))
  }

  function RefreshBy(meta: Metadata, arrange: Arranging, window: seq<Row>, affected: Option<set<nat>>, db: seq<Row>): Option<seq<Row>> {
    if affected.None? then None
    else if affected.value == {} then Some(window)
    else if AffectedCandidates(window, affected.value) > meta.overscan then None
    else
      var recomputed := Take(arrange(Keep(db, Inside(affected.value))), meta.candidateLimit);
      var merged := Take(Sort(meta.order, Keep(window, Outside(affected.value)) + recomputed), meta.candidateLimit);
      if |merged| < meta.MinShadowWindow() && |window| >= meta.MinShadowWindow() then None else Some(merged)
  }

  /** The window after a run in which the executor answers the full and the subset queries. */
  function WindowBy(meta: Metadata, arrange: Arranging, db: seq<Row>, run: seq<Change>): seq<Row> {
    if run == [] then Take(arrange(db), meta.candidateLimit)
    else
      var last := run[|run| - 1];
      var patched := RefreshBy(meta, arrange, WindowBy(meta, arrange, db, run[..|run| - 1]), last.affected, last.db);
      if patched.Some? then patched.value else Take(arrange(last.db), meta.candidateLimit)
  }

  ghost predicate TieFreeRun(keys: seq<OrderKey>, db: seq<Row>, run: seq<Change>) {
    TieFree(keys, db) && forall i :: 0 <= i < |run| ==> TieFree(keys, run[i].db)
  }

  lemma ArrangesLikeComparator(types: seq<int>, keys: seq<OrderKey>, arrange: Arranging, rows: seq<Row>)
    requires Executes(types, keys, arrange) && All(rows, Typed(types)) && TieFree(keys, rows)
    ensures arrange(rows) == Sort(NotAfter(keys), rows)
  {
    OrderByDecides(types, keys, rows, arrange(rows));
  }

  lemma SubsetIsTieFree(types: seq<int>, keys: seq<OrderKey>, rows: seq<Row>, p: Row -> bool)
    requires All(rows, Typed(types)) && TieFree(keys, rows)
    ensures All(Keep(rows, p), Typed(types)) && TieFree(keys, Keep(rows, p))
  {
    KeepShorter(rows, p);
  }

  lemma RefreshesAlike(types: seq<int>, keys: seq<OrderKey>, meta: Metadata, arrange: Arranging,
                       window: seq<Row>, affected: Option<set<nat>>, db: seq<Row>)
    requires meta.order == NotAfter(keys) && Executes(types, keys, arrange)
    requires All(db, Typed(types)) && TieFree(keys, db)
    ensures RefreshBy(meta, arrange, window, affected, db) == PartialRefresh(meta, window, affected, db)
    ensures Take(arrange(db), meta.candidateLimit) == FullQuery(meta, db)
  {
    hide Sort, Keep, TieFree, Executes;
    ArrangesLikeComparator(types, keys, arrange, db);
    if affected.Some? {
      SubsetIsTieFree(types, keys, db, Inside(affected.value));
      ArrangesLikeComparator(types, keys, arrange, Keep(db, Inside(affected.value)));
    }
  }

  lemma {:induction false} WindowsAgree(types: seq<int>, keys: seq<OrderKey>, meta: Metadata, arrange: Arranging,
                                        db: seq<Row>, run: seq<Change>)
    requires meta.order == NotAfter(keys) && Executes(types, keys, arrange)
    requires GoodRun(Typed(types), db, run) && TieFreeRun(keys, db, run)
    ensures WindowBy(meta, arrange, db, run) == WindowAfter(meta, db, run)
  {
    hide Executes, TieFree, Sort, Covers;
    if run == [] {
      RefreshesAlike(types, keys, meta, arrange, [], None, db);
    } else {
      var front, last := run[..|run| - 1], run[|run| - 1];
      assert forall i :: 0 <= i < |front| ==> front[i] == run[i];
      WindowsAgree(types, keys, meta, arrange, db, front);
      RefreshesAlike(types, keys, meta, arrange, WindowAfter(meta, db, front), last.affected, last.db);
    }
  }

  /** Without ties the window shows after every run what the executor answers. */
  lemma TieFreeRunsShowTheAnswer(types: seq<int>, keys: seq<OrderKey>, meta: Metadata, arrange: Arranging,
                                 db: seq<Row>, run: seq<Change>)
    requires meta.order == NotAfter(keys) && Executes(types, keys, arrange)
    requires GoodRun(Typed(types), db, run) && TieFreeRun(keys, db, run)
    requires
      || Spent(meta, db, run) <= meta.candidateLimit - (meta.offset + meta.limit)
      || (SettledRun(meta, db, run) && meta.MinShadowWindow() <= meta.candidateLimit)
    ensures Visible(meta, WindowBy(meta, arrange, db, run)) == Visible(meta, arrange(DbAfter(db, run)))
  {
    WindowsAgree(types, keys, meta, arrange, db, run);
    TypedRowsStayVisible(types, keys, meta, db, run);
    GoodRunRows(Typed(types), db, run);
    assert TieFree(keys, DbAfter(db, run));
    ArrangesLikeComparator(types, keys, arrange, DbAfter(db, run));
  }

  // ----- What ties cost ------------------------------------------------------------------------

  /** A visible row ties with a different row. */
  ghost predicate VisibleTie(keys: seq<OrderKey>, meta: Metadata, rows: seq<Row>) {
    exists a, b :: a in Answer(meta, rows) && b in rows && a != b && CompareKeys(keys, a, b) == Equal
  }

  /** The visible rows are decided by the clause exactly when none of them ties with a different row. */
  lemma VisibleDecidedExactly(types: seq<int>, keys: seq<OrderKey>, meta: Metadata, rows: seq<Row>)
    requires meta.order == NotAfter(keys) && All(rows, Typed(types))
    ensures (forall answer :: Arranged(keys, rows, answer) ==> Visible(meta, answer) == Answer(meta, rows))
       <==> !VisibleTie(keys, meta, rows)
  {
    if VisibleTie(keys, meta, rows) {
      var other := OtherAnswer(types, keys, meta, rows);
    } else {
      forall answer | Arranged(keys, rows, answer) ensures Visible(meta, answer) == Answer(meta, rows) {
        DecidedAnswer(types, keys, meta, rows, answer);
      }
    }
  }

  lemma OtherAnswer(types: seq<int>, keys: seq<OrderKey>, meta: Metadata, rows: seq<Row>) returns (other: seq<Row>)
    requires meta.order == NotAfter(keys) && All(rows, Typed(types)) && VisibleTie(keys, meta, rows)
    ensures Arranged(keys, rows, other) && Visible(meta, other) != Answer(meta, rows)
  {
    hide *;
    var s := Sort(meta.order, rows);
    SortArranges(types, keys, rows);
    OrderOfSort(keys, meta, rows);
    var k, j := TiedPositions(keys, meta, rows, s);
    other := ExchangeTied(types, keys, s, meta.offset + k, j);
    OtherSlice(meta, s, other, k);
    StillArranged(keys, rows, s, other);
    AnswerIsSlice(meta, rows);
  }

  lemma AnswerIsSlice(meta: Metadata, rows: seq<Row>)
    ensures Answer(meta, rows) == Visible(meta, Sort(meta.order, rows))
  {}

  lemma OrderOfSort(keys: seq<OrderKey>, meta: Metadata, rows: seq<Row>)
    requires Arranged(keys, rows, Sort(meta.order, rows))
    ensures KeyOrdered(keys, Sort(meta.order, rows)) && forall v :: v in Sort(meta.order, rows) <==> v in rows
  {
    SameMembers(rows, Sort(meta.order, rows), (row: Row) => true);
  }

  lemma TiedPositions(keys: seq<OrderKey>, meta: Metadata, rows: seq<Row>, s: seq<Row>) returns (k: nat, j: nat)
    requires s == Sort(meta.order, rows) && VisibleTie(keys, meta, rows) && forall v :: v in s <==> v in rows
    ensures k < |Visible(meta, s)| && meta.offset + k < |s| && j < |s|
    ensures s[meta.offset + k] != s[j] && CompareKeys(keys, s[meta.offset + k], s[j]) == Equal
  {
    hide Sort, CompareKeys;
    var shown := Answer(meta, rows);
    var a, b :| a in shown && b in rows && a != b && CompareKeys(keys, a, b) == Equal;
    VisibleIsSlice(meta, s);
    k :| 0 <= k < |shown| && shown[k] == a;
    j :| 0 <= j < |s| && s[j] == b;
  }

  lemma StillArranged(keys: seq<OrderKey>, rows: seq<Row>, s: seq<Row>, t: seq<Row>)
    requires Arranged(keys, rows, s) && Arranged(keys, s, t)
    ensures Arranged(keys, rows, t)
  {}

  lemma OtherSlice(meta: Metadata, s: seq<Row>, t: seq<Row>, k: nat)
    requires |s| == |t| && k < |Visible(meta, s)| && meta.offset + k < |s| && s[meta.offset + k] != t[meta.offset + k]
    ensures Visible(meta, s) != Visible(meta, t)
  {
    VisibleIsSlice(meta, s);
    VisibleIsSlice(meta, t);
    assert Visible(meta, s)[k] != Visible(meta, t)[k];
  }

  lemma DecidedAnswer(types: seq<int>, keys: seq<OrderKey>, meta: Metadata, rows: seq<Row>, answer: seq<Row>)
    requires meta.order == NotAfter(keys) && All(rows, Typed(types)) && !VisibleTie(keys, meta, rows)
    requires Arranged(keys, rows, answer)
    ensures Visible(meta, answer) == Answer(meta, rows)
  {
    hide *;
    var s := Sort(meta.order, rows);
    SortArranges(types, keys, rows);
    AnswerIsSlice(meta, rows);
    var shown, other := Visible(meta, s), Visible(meta, answer);
    SameLengths(keys, meta, rows, s, answer);
    forall k | 0 <= k < |shown| ensures other[k] == shown[k] {
      DecidedPosition(types, keys, meta, rows, answer, k);
    }
  }

  lemma SameLengths(keys: seq<OrderKey>, meta: Metadata, rows: seq<Row>, s: seq<Row>, t: seq<Row>)
    requires Arranged(keys, rows, s) && Arranged(keys, rows, t)
    ensures |s| == |t| && |Visible(meta, s)| == |Visible(meta, t)|
  {
    hide KeyOrdered, Visible;
    assert |multiset(s)| == |multiset(t)|;
    VisibleIsSlice(meta, s);
    VisibleIsSlice(meta, t);
  }

  lemma DecidedPosition(types: seq<int>, keys: seq<OrderKey>, meta: Metadata, rows: seq<Row>, answer: seq<Row>, k: nat)
    requires meta.order == NotAfter(keys) && All(rows, Typed(types)) && !VisibleTie(keys, meta, rows)
    requires Arranged(keys, rows, Sort(meta.order, rows)) && Arranged(keys, rows, answer)
    requires k < |Visible(meta, Sort(meta.order, rows))| == |Visible(meta, answer)|
    ensures Visible(meta, answer)[k] == Visible(meta, Sort(meta.order, rows))[k]
  {
    hide *;
    var s, i := Sort(meta.order, rows), meta.offset + k;
    SameLengths(keys, meta, rows, s, answer);
    ShownAt(meta, s, k);
    ShownAt(meta, answer, k);
    AnswerIsSlice(meta, rows);
    ArrangedRows(types, keys, rows, s);
    ArrangedRows(types, keys, rows, answer);
    PositionsTie(types, keys, s, answer, i);
    PositionsTie(types, keys, answer, s, i);
    NotTied(keys, meta, rows, s[i], answer[i]);
  }

  lemma ArrangedRows(types: seq<int>, keys: seq<OrderKey>, rows: seq<Row>, s: seq<Row>)
    requires Arranged(keys, rows, s) && All(rows, Typed(types))
    ensures All(s, Typed(types)) && multiset(s) == multiset(rows) && KeyOrdered(keys, s)
    ensures forall v :: v in s ==> v in rows
  {
    hide All, Typed, KeyOrdered;
    SameMembers(rows, s, Typed(types));
  }

  lemma NotTied(keys: seq<OrderKey>, meta: Metadata, rows: seq<Row>, a: Row, b: Row)
    requires !VisibleTie(keys, meta, rows) && a in Answer(meta, rows) && b in rows && CompareKeys(keys, a, b) == Equal
    ensures a == b
  {
    hide Answer, CompareKeys;
  }

  lemma ShownAt(meta: Metadata, s: seq<Row>, k: nat)
    requires k < |Visible(meta, s)|
    ensures meta.offset + k < |s| && Visible(meta, s)[k] == s[meta.offset + k] && s[meta.offset + k] in Visible(meta, s)
  {
    hide Visible;
    VisibleIsSlice(meta, s);
  }

  /** The executor is asked for the last rows of the run by their full query only. */
  ghost predicate AskedAtEnd(db: seq<Row>, run: seq<Change>) {
    && run != [] && db != DbAfter(db, run)
    && (forall i :: 0 <= i < |run| - 1 ==> run[i].db != DbAfter(db, run))
    && (forall i :: 0 <= i < |run| && run[i].affected.Some? ==> Keep(run[i].db, Inside(run[i].affected.value)) != DbAfter(db, run))
  }

  /** Answers the rows `last` with `other` and sorts all other rows like the comparator. */
  function Unlike(order: (Row, Row) -> bool, last: seq<Row>, other: seq<Row>): Arranging {
    (rows: seq<Row>) => if rows == last then other else Sort(order, rows)
  }

  lemma UnlikeExecutes(types: seq<int>, keys: seq<OrderKey>, last: seq<Row>, other: seq<Row>)
    requires Arranged(keys, last, other)
    ensures Executes(types, keys, Unlike(NotAfter(keys), last, other))
  {
    forall rows | All(rows, Typed(types)) ensures Arranged(keys, rows, Unlike(NotAfter(keys), last, other)(rows)) {
      SortArranges(types, keys, rows);
    }
  }

  lemma {:induction false} UnlikeKeepsWindow(meta: Metadata, db: seq<Row>, run: seq<Change>, last: seq<Row>, other: seq<Row>)
    requires db != last && forall i :: 0 <= i < |run| ==> run[i].db != last
    requires forall i :: 0 <= i < |run| && run[i].affected.Some? ==> Keep(run[i].db, Inside(run[i].affected.value)) != last
    ensures WindowBy(meta, Unlike(meta.order, last, other), db, run) == WindowAfter(meta, db, run)
  {
    if run != [] {
      var front := run[..|run| - 1];
      assert forall i :: 0 <= i < |front| ==> front[i] == run[i];
      UnlikeKeepsWindow(meta, db, front, last, other);
    }
  }

  /** With a visible tie, some executor that respects the clause shows other rows than the patched window. */
  lemma TiedRunsDisagree(types: seq<int>, keys: seq<OrderKey>, meta: Metadata, db: seq<Row>, run: seq<Change>)
    returns (arrange: Arranging)
    requires meta.order == NotAfter(keys) && GoodRun(Typed(types), db, run) && AskedAtEnd(db, run)
    requires
      || Spent(meta, db, run) <= meta.candidateLimit - (meta.offset + meta.limit)
      || (SettledRun(meta, db, run) && meta.MinShadowWindow() <= meta.candidateLimit)
    requires var last := run[|run| - 1];
      PartialRefresh(meta, WindowAfter(meta, db, run[..|run| - 1]), last.affected, last.db).Some?
    requires VisibleTie(keys, meta, DbAfter(db, run))
    ensures Executes(types, keys, arrange)
    ensures Visible(meta, WindowBy(meta, arrange, db, run)) == Answer(meta, DbAfter(db, run))
    ensures Visible(meta, WindowBy(meta, arrange, db, run)) != Visible(meta, arrange(DbAfter(db, run)))
  {
    var last := DbAfter(db, run);
    GoodRunRows(Typed(types), db, run);
    var other := OtherAnswer(types, keys, meta, last);
    arrange := Unlike(meta.order, last, other);
    UnlikeExecutes(types, keys, last, other);
    TypedRowsStayVisible(types, keys, meta, db, run);
    LastPatchAlike(meta, db, run, other);
  }

  lemma LastPatchAlike(meta: Metadata, db: seq<Row>, run: seq<Change>, other: seq<Row>)
    requires AskedAtEnd(db, run)
    requires var last := run[|run| - 1];
      PartialRefresh(meta, WindowAfter(meta, db, run[..|run| - 1]), last.affected, last.db).Some?
    ensures WindowBy(meta, Unlike(meta.order, DbAfter(db, run), other), db, run) == WindowAfter(meta, db, run)
  {
    var front := run[..|run| - 1];
    assert forall i :: 0 <= i < |front| ==> front[i] == run[i];
    UnlikeKeepsWindow(meta, db, front, DbAfter(db, run), other);
  }

  // ----- A run with a tie ----------------------------------------------------------------------

  const BY_COLUMN: seq<OrderKey> := [OrderKey(0, false)]

  function ByKeys(keys: seq<OrderKey>): Arranging { (rows: seq<Row>) => KeySort(keys, rows) }

  /** The primary keys of the root rows 1, 2 and 3. */
  function KeyOf(root: nat): int32 { if root == 1 then 20 else if root == 2 then 10 else 30 }

  /** A row with the ORDER BY column and the primary key of its root. */
  function Keyed(key: int32, root: nat, version: nat): Row { Row([Int32(key), Int32(KeyOf(root))], version, root) }

  const TIED_1: Row := Keyed(7, 1, 1)

  const TIED_2: Row := Keyed(7, 2, 1)

  /** The third row, before its update and after it. */
  function Third(updated: bool): Row { if updated then Keyed(9, 3, 2) else Keyed(8, 3, 1) }

  /** Read in the order of the primary key: two rows that tie, the one with the larger row id first, and
      a third behind them. */
  function TiedDb(updated: bool): seq<Row> { [TIED_2, TIED_1, Third(updated)] }

  lemma KeyedRows(a: int32, m: nat, v: nat, b: int32, n: nat, w: nat)
    ensures CompareKeys(BY_COLUMN, Keyed(a, m, v), Keyed(b, n, w)) == CompareInts(a, b)
    ensures a < b || (a == b && m < n) ==> NotAfter(BY_COLUMN)(Keyed(a, m, v), Keyed(b, n, w))
    ensures a > b || (a == b && m > n) ==> !NotAfter(BY_COLUMN)(Keyed(a, m, v), Keyed(b, n, w))
    ensures Typed([2, 2])(Keyed(a, m, v))
  {
    var x, y := Keyed(a, m, v), Keyed(b, n, w);
    assert BY_COLUMN[1..] == [];
    assert CompareColumn(BY_COLUMN[0], x, y) == CompareInts(a, b);
    assert CompareKeys(BY_COLUMN, x, y) == CompareInts(a, b);
  }

  lemma TiedKeysNameRoots(updated: bool)
    ensures KeyNamesRoot(TiedDb(updated), 1)
  {}

  lemma TiedRowsFit(updated: bool)
    ensures All(TiedDb(updated), Typed([2, 2]))
    ensures NotAfter(BY_COLUMN)(TIED_1, TIED_2) && NotAfter(BY_COLUMN)(TIED_1, Third(updated))
    ensures NotAfter(BY_COLUMN)(TIED_2, Third(updated))
  {
    KeyedRows(7, 2, 1, 7, 1, 1);
    KeyedRows(7, 1, 1, 7, 2, 1);
    KeyedRows(8, 3, 1, 8, 3, 1);
    KeyedRows(9, 3, 2, 9, 3, 2);
    KeyedRows(7, 1, 1, 8, 3, 1);
    KeyedRows(7, 1, 1, 9, 3, 2);
    KeyedRows(7, 2, 1, 8, 3, 1);
    KeyedRows(7, 2, 1, 9, 3, 2);
    hide CompareKeys, NotAfter;
  }

  /** The failing input: LIMIT 1 over two tied rows, and an update of the third row, which touches
      neither. The executor shows the row with the primary key 10 before and after; the patched window
      turns to the one with the primary key 20. */
  lemma TiedRowsSwap()
    ensures var meta, arrange, db := WindowFor(NotAfter(BY_COLUMN), 0, 1), ByKeys(BY_COLUMN), TiedDb(false);
      var run := [Change(Some({3}), TiedDb(true))];
      && KeyNamesRoot(db, 1) && KeyNamesRoot(TiedDb(true), 1) && GoodRun(Typed([2, 2]), db, run)
      && Visible(meta, WindowBy(meta, arrange, db, [])) == [TIED_2]
      && Visible(meta, WindowBy(meta, arrange, db, run)) == [TIED_1]
      && Visible(meta, arrange(DbAfter(db, run))) == [TIED_2]
      && TIED_2.values == [Int32(7), Int32(10)] && TIED_1.values == [Int32(7), Int32(20)]
  {
    var meta, arrange, db := WindowFor(NotAfter(BY_COLUMN), 0, 1), ByKeys(BY_COLUMN), TiedDb(false);
    var change := Change(Some({3}), TiedDb(true));
    hide WindowFor, KeySort, KeyInsert, Sort, Keep, RefreshBy;
    assert [change][..0] == [];
    TiedKeysNameRoots(false);
    TiedKeysNameRoots(true);
    TiedArrangement3(false);
    TiedArrangement3(true);
    TiedRun();
    TiedPatch(meta);
    assert WindowBy(meta, arrange, db, []) == db;
    FirstVisible(meta, TiedDb(false));
    FirstVisible(meta, TiedDb(true));
    FirstVisible(meta, [TIED_1, TIED_2, Third(true)]);
  }

  lemma FirstVisible(meta: Metadata, rows: seq<Row>)
    requires meta == WindowFor(NotAfter(BY_COLUMN), 0, 1) && |rows| == 3
    ensures Visible(meta, rows) == [rows[0]] && Take(rows, meta.candidateLimit) == rows
  {}

  lemma TiedRun()
    ensures GoodRun(Typed([2, 2]), TiedDb(false), [Change(Some({3}), TiedDb(true))])
  {
    hide Keep;
    var change := Change(Some({3}), TiedDb(true));
    assert [change][..0] == [];
    TiedParts(false);
    TiedParts(true);
    TiedRowsFit(false);
    TiedRowsFit(true);
  }

  lemma TiedArrangement3(updated: bool)
    ensures KeySort(BY_COLUMN, TiedDb(updated)) == TiedDb(updated)
    ensures KeySort(BY_COLUMN, [Third(updated)]) == [Third(updated)]
  {
    var db := TiedDb(updated);
    KeyedRows(7, 1, 1, if updated then 9 else 8, 3, if updated then 2 else 1);
    KeyedRows(7, 2, 1, 7, 1, 1);
    hide CompareKeys, Keyed;
    assert db[1..] == [db[1], db[2]] && db[1..][1..] == [db[2]] && [db[2]][1..] == [];
    assert KeySort(BY_COLUMN, [db[2]]) == [db[2]];
    assert KeySort(BY_COLUMN, db[1..]) == [db[1], db[2]];
  }

  lemma TiedParts(updated: bool)
    ensures Keep(TiedDb(updated), Inside({3})) == [Third(updated)]
    ensures Keep(TiedDb(updated), Outside({3})) == [TIED_2, TIED_1]
  {
    var db := TiedDb(updated);
    assert db == [db[0], db[1]] + [db[2]];
    KeepLast([db[0], db[1]], db[2]);
  }

  lemma TiedPatch(meta: Metadata)
    requires meta == WindowFor(NotAfter(BY_COLUMN), 0, 1)
    ensures RefreshBy(meta, ByKeys(BY_COLUMN), TiedDb(false), Some({3}), TiedDb(true)) == Some([TIED_1, TIED_2, Third(true)])
  {
    hide Keep, Sort, KeySort;
    TiedParts(false);
    TiedParts(true);
    TiedArrangement3(true);
    PatchedTie();
  }

  lemma PatchedTie()
    ensures Sort(NotAfter(BY_COLUMN), [TIED_2, TIED_1] + [Third(true)]) == [TIED_1, TIED_2, Third(true)]
  {
    TiedRowsFit(true);
    var db := TiedDb(true);
    assert db[0] == TIED_2 && db[1] == TIED_1 && db[2] == Third(true);
    RowOrderLinear([2, 2], BY_COLUMN);
    hide *;
    SortThree(NotAfter(BY_COLUMN), Typed([2, 2]), TIED_2, TIED_1, Third(true));
  }

  lemma SortThree(le: (Row, Row) -> bool, ok: Row -> bool, a: Row, b: Row, c: Row)
    requires Linear(le, ok) && ok(a) && ok(b) && ok(c) && le(b, a) && le(b, c) && le(a, c)
    ensures Sort(le, [a, b] + [c]) == [b, a, c]
  {
    hide *;
    SameThree(a, b, c);
    ThreeSorted(le, ok, a, b, c);
    SortIs(le, ok, [a, b] + [c], [b, a, c]);
  }

  lemma ThreeSorted(le: (Row, Row) -> bool, ok: Row -> bool, a: Row, b: Row, c: Row)
    requires ok(a) && ok(b) && ok(c) && le(b, a) && le(b, c) && le(a, c)
    ensures All([b, a, c], ok) && Sorted(le, [b, a, c])
  {}

  lemma SameThree(a: Row, b: Row, c: Row)
    ensures multiset([a, b] + [c]) == multiset([b, a, c])
  {}

  lemma SortIs(le: (Row, Row) -> bool, ok: Row -> bool, s: seq<Row>, t: seq<Row>)
    requires Linear(le, ok) && All(t, ok) && Sorted(le, t) && multiset(s) == multiset(t)
    ensures Sort(le, s) == t
  {
    SameContentsAll(t, s, ok);
    SortSorted(le, ok, s);
    SortContents(le, s);
    SortedUnique(le, ok, Sort(le, s), t);
  }
}
