/** Index scans with a direction, an offset or a limit, and which plans the compiler takes
  (crates/database/src/dataflow_compiler.rs, lines 366-600).

  A dataflow filters rows and keeps no order, so it can stand for an index scan only if no slice cuts
  rows off. */
module IndexScans {
  import opened Options
  import opened Values
  import opened Expressions
  import opened Layouts
  import opened Joins
  import opened Plans
  import opened PlanCompiler

  // ----- The order of an index -----------------------------------------------------------------

  lemma {:induction false} KeysMirror(a: seq<Value>, b: seq<Value>)
    ensures CompareKeys(b, a) == CompareKeys(a, b).Reverse()
  {
    if a != [] && b != [] {
      CompareMirror(a[0], b[0]);
      KeysMirror(a[1..], b[1..]);
    }
  }

  /** No row stands in front of one the scan meets before it. */
  ghost predicate InIndexOrder(columns: seq<ColumnRef>, reverse: bool, envs: seq<Env>) {
    forall i :: 0 <= i < |envs| - 1 ==> !Behind(columns, reverse, envs[i], envs[i + 1])
  }

  lemma {:induction false} PutContents(columns: seq<ColumnRef>, reverse: bool, env: Env, sorted: seq<Env>)
    ensures multiset(PutByKey(columns, reverse, env, sorted)) == multiset{env} + multiset(sorted)
  {
    if sorted != [] && Behind(columns, reverse, env, sorted[0]) {
      PutContents(columns, reverse, env, sorted[1..]);
      assert sorted == [sorted[0]] + sorted[1..];
    }
  }

  lemma {:induction false} PutInOrder(columns: seq<ColumnRef>, reverse: bool, env: Env, sorted: seq<Env>)
    requires InIndexOrder(columns, reverse, sorted)
    ensures InIndexOrder(columns, reverse, PutByKey(columns, reverse, env, sorted))
    ensures PutByKey(columns, reverse, env, sorted) != []
    ensures PutByKey(columns, reverse, env, sorted)[0] == env
         || (sorted != [] && PutByKey(columns, reverse, env, sorted)[0] == sorted[0])
  {
    if sorted != [] && Behind(columns, reverse, env, sorted[0]) {
      var rest := sorted[1..];
      forall i | 0 <= i < |rest| - 1 ensures !Behind(columns, reverse, rest[i], rest[i + 1]) {
        assert rest[i] == sorted[i + 1] && rest[i + 1] == sorted[i + 2];
        assert !Behind(columns, reverse, sorted[i + 1], sorted[i + 1 + 1]);
      }
      PutInOrder(columns, reverse, env, rest);
      KeysMirror(KeyIn(env, columns), KeyIn(sorted[0], columns));
      assert rest != [] ==> !Behind(columns, reverse, sorted[0], sorted[0 + 1]);
      hide Behind;
      var put := PutByKey(columns, reverse, env, rest);
      var all := [sorted[0]] + put;
      forall i | 0 <= i < |all| - 1 ensures !Behind(columns, reverse, all[i], all[i + 1]) {
        assert i > 0 ==> all[i] == put[i - 1] && all[i + 1] == put[i - 1 + 1];
      }
    }
  }

  /** The rows of a scan in index order: the same rows, none in front of one with a key met earlier. */
  lemma {:induction false} ByKeyArranges(columns: seq<ColumnRef>, reverse: bool, envs: seq<Env>)
    ensures multiset(ByKey(columns, reverse, envs)) == multiset(envs)
    ensures |ByKey(columns, reverse, envs)| == |envs|
    ensures InIndexOrder(columns, reverse, ByKey(columns, reverse, envs))
  {
    hide InIndexOrder, PutByKey;
    if envs == [] {
      NothingInOrder(columns, reverse);
    } else {
      var rest := ByKey(columns, reverse, envs[1..]);
      ByKeyArranges(columns, reverse, envs[1..]);
      PutContents(columns, reverse, envs[0], rest);
      PutInOrder(columns, reverse, envs[0], rest);
      FirstAndRest(envs);
    }
    assert |multiset(ByKey(columns, reverse, envs))| == |multiset(envs)|;
  }

  lemma NothingInOrder(columns: seq<ColumnRef>, reverse: bool)
    ensures InIndexOrder(columns, reverse, [])
  {}

  lemma FirstAndRest<T>(s: seq<T>)
    requires s != []
    ensures multiset(s) == multiset{s[0]} + multiset(s[1..])
  {
    assert s == [s[0]] + s[1..];
  }

  lemma WithoutOne<T>(s: seq<T>, k: nat)
    requires k < |s|
    ensures multiset(s) == multiset{s[k]} + multiset(s[..k] + s[k + 1..])
  {
    assert s == s[..k] + [s[k]] + s[k + 1..];
  }

  // ----- Slices --------------------------------------------------------------------------------

  function Skipped(offset: Option<nat>): nat { if offset.Some? then offset.value else 0 }

  /** A slice skips its offset and holds its limit, or what is there. */
  lemma SliceHolds<T>(s: seq<T>, offset: Option<nat>, limit: Option<nat>)
    ensures var left := if Skipped(offset) <= |s| then |s| - Skipped(offset) else 0;
      |Sliced(s, offset, limit)| == if limit.Some? && limit.value < left then limit.value else left
    ensures forall i :: 0 <= i < |Sliced(s, offset, limit)| ==> Sliced(s, offset, limit)[i] == s[Skipped(offset) + i]
  {}

  /** Nothing is skipped and nothing cut off. */
  predicate TakesAll(count: nat, offset: Option<nat>, limit: Option<nat>) {
    (Skipped(offset) == 0 || count == 0) && (limit.Some? ==> count <= limit.value)
  }

  lemma SliceOfAll<T>(s: seq<T>, offset: Option<nat>, limit: Option<nat>)
    ensures TakesAll(|s|, offset, limit) ==> Sliced(s, offset, limit) == s
    ensures |Sliced(s, offset, limit)| == |s| <==> TakesAll(|s|, offset, limit)
  {}

  /** Whatever is asked for, an index scan holds the rows of its slice in index order. */
  lemma ScannedIsSlice(columns: seq<ColumnRef>, limit: Option<nat>, offset: Option<nat>, reverse: bool, envs: seq<Env>)
    ensures multiset(Scanned(columns, limit, offset, reverse, envs)) == multiset(Sliced(ByKey(columns, reverse, envs), offset, limit))
    ensures !WholeScan(limit, offset, reverse) ==> InIndexOrder(columns, reverse, Scanned(columns, limit, offset, reverse, envs))
  {
    ByKeyArranges(columns, reverse, envs);
    hide ByKey, Sliced, InIndexOrder;
    var s := ByKey(columns, reverse, envs);
    SliceOfAll(s, offset, limit);
    SliceInOrder(columns, reverse, s, offset, limit);
  }

  lemma SliceInOrder(columns: seq<ColumnRef>, reverse: bool, s: seq<Env>, offset: Option<nat>, limit: Option<nat>)
    requires InIndexOrder(columns, reverse, s)
    ensures InIndexOrder(columns, reverse, Sliced(s, offset, limit))
  {
    SliceHolds(s, offset, limit);
    hide Behind, Sliced;
    var slice := Sliced(s, offset, limit);
    forall i | 0 <= i < |slice| - 1 ensures !Behind(columns, reverse, slice[i], slice[i + 1]) {
      var k := Skipped(offset) + i;
      assert slice[i] == s[k] && slice[i + 1] == s[k + 1];
    }
  }

  /** A filter of the table answers an index scan exactly when the slice takes every row within the bounds. */
  lemma FilterAnswersExactly(columns: seq<ColumnRef>, limit: Option<nat>, offset: Option<nat>, reverse: bool, envs: seq<Env>)
    ensures multiset(envs) == multiset(Scanned(columns, limit, offset, reverse, envs)) <==> TakesAll(|envs|, offset, limit)
  {
    ScannedIsSlice(columns, limit, offset, reverse, envs);
    ByKeyArranges(columns, reverse, envs);
    hide ByKey, Scanned, InIndexOrder, Sliced;
    var s := ByKey(columns, reverse, envs);
    SliceOfAll(s, offset, limit);
    assert |multiset(envs)| == |envs| && |multiset(Sliced(s, offset, limit))| == |Sliced(s, offset, limit)|;
  }

  // ----- Which plans are compiled --------------------------------------------------------------

  /** The bounds can be turned into a test of the key columns. */
  ghost predicate Testable(columns: nat, bounds: IndexBounds) {
    match bounds
    case Unbounded => true
    case Scalar(_) => columns == 1
    case Composite(All) => true
    case Composite(Only(key)) => |key| == columns > 0
    case Composite(Bound(lower, upper, lowerExclusive, upperExclusive)) =>
      lower == upper && !lowerExclusive && !upperExclusive && |lower| == columns > 0
    case Composite(_) => false
  }

  /** The plans a dataflow can stand for. */
  ghost predicate Maintainable(schemas: Schemas, plan: Plan) {
    match plan
    case TableScan(t) => t in schemas
    case IndexScan(t, index, bounds, limit, offset, reverse) =>
      && WholeScan(limit, offset, reverse)
      && LookupIndexColumns(schemas, t, index).Some? && Testable(|LookupIndexColumns(schemas, t, index).value|, bounds)
    case IndexGet(t, index, _, limit) =>
      limit == None && LookupIndexColumns(schemas, t, index).Some? && |LookupIndexColumns(schemas, t, index).value| == 1
    case IndexInGet(t, index, _) =>
      LookupIndexColumns(schemas, t, index).Some? && |LookupIndexColumns(schemas, t, index).value| == 1
    case GinIndexScan(t, recheck) => recheck.Some? && t in schemas
    case Filter(input, _) => Maintainable(schemas, input)
    case Project(input, _) => Maintainable(schemas, input)
    case Join(left, right, _, _, _) => Maintainable(schemas, left) && Maintainable(schemas, right)
    case IndexNestedLoopJoin(outer, inner, _, _, _, _) => Maintainable(schemas, outer) && inner in schemas
    case HashAggregate(input, _, _) => Maintainable(schemas, input)
    case CrossProduct(left, right) => Maintainable(schemas, left) && Maintainable(schemas, right)
    case NoOp(input) => Maintainable(schemas, input)
    case Empty => true
    case Sort(_) => false
    case TopN(_) => false
    case Limit(_) => false
    case Union(_, _) => false
  }

  lemma TestableExactly(columns: seq<ColumnRef>, bounds: IndexBounds)
    ensures IndexScanPredicate(columns, bounds).Some? <==> Testable(|columns|, bounds)
  {}

  lemma LeafCompilesExactly(host: Host, schemas: Schemas, plan: Plan, r: Resolver)
    requires plan.TableScan? || plan.IndexScan? || plan.IndexGet? || plan.IndexInGet? || plan.GinIndexScan? || plan.Empty?
             || plan.Sort? || plan.TopN? || plan.Limit? || plan.Union?
    ensures CompileLeaf(host, schemas, plan, r).0.Some? <==> Maintainable(schemas, plan)
  {
    if plan.IndexScan? && LookupIndexColumns(schemas, plan.table, plan.index).Some? {
      TestableExactly(LookupIndexColumns(schemas, plan.table, plan.index).value, plan.bounds);
    }
    hide LookupIndexColumns, IndexScanPredicate, Testable, Filtered;
  }

  /** The compiler takes exactly these plans, and the whole compilation fails if one part does. */
  lemma {:induction false} CompilesExactly(host: Host, schemas: Schemas, plan: Plan, r: Resolver)
    ensures CompileNode(host, schemas, plan, r).0.Some? <==> Maintainable(schemas, plan)
    decreases plan
  {
    hide CompileLeaf, CompileJoin, CompileCross, CompileProjection, CompileAggregate, Filtered, LookupIndexColumns, Testable;
    match plan
    case Filter(input, _) => CompilesExactly(host, schemas, input, r);
    case Project(input, _) => CompilesExactly(host, schemas, input, r);
    case NoOp(input) => CompilesExactly(host, schemas, input, r);
    case HashAggregate(input, _, _) => CompilesExactly(host, schemas, input, r);
    case Join(left, right, _, _, _) =>
      CompilesExactly(host, schemas, left, r);
      CompilesExactly(host, schemas, right, CompileNode(host, schemas, left, r).1);
    case CrossProduct(left, right) =>
      CompilesExactly(host, schemas, left, r);
      CompilesExactly(host, schemas, right, CompileNode(host, schemas, left, r).1);
    case IndexNestedLoopJoin(outer, inner, _, _, _, _) =>
      CompilesExactly(host, schemas, outer, r);
    case _ => LeafCompilesExactly(host, schemas, plan, r);
  }

  // ----- What compiling the whole scan instead would do ----------------------------------------

  /** The scan without its slice and direction. */
  function Unsliced(plan: Plan): Plan
    requires plan.IndexScan?
  {
    plan.(limit := None, offset := None, reverse := false)
  }

  /** The rows of the compiled scan without its slice are those of the scan, in some order, exactly when the
      slice takes every row within the bounds. */
  lemma SlicedScanExactly(rt: Runtime, schemas: Schemas, db: Database, plan: Plan, r: Resolver)
    requires plan.IndexScan? && Relational(schemas, db, plan) && RowsFit(schemas, db)
    requires CompileNode(rt.host, schemas, Unsliced(plan), r).0.Some?
    requires Feeds(rt, CompileNode(rt.host, schemas, Unsliced(plan), r).1, db)
    ensures var width := WidthIn(schemas);
      multiset(Rows(rt, CompileNode(rt.host, schemas, Unsliced(plan), r).0.value.dataflow))
      == multiset(MapSeq(Meaning(rt.host, schemas, db, plan), Flattening([plan.table], width)))
      <==> TakesAll(|Meaning(rt.host, schemas, db, Unsliced(plan))|, plan.offset, plan.limit)
  {
    var whole, flat := Unsliced(plan), Flattening([plan.table], WidthIn(schemas));
    CompilePreserves(rt, schemas, db, whole, r);
    CompilesExactly(rt.host, schemas, whole, r);
    var columns := LookupIndexColumns(schemas, plan.table, plan.index).value;
    var envs := Meaning(rt.host, schemas, db, whole);
    assert Meaning(rt.host, schemas, db, plan) == Scanned(columns, plan.limit, plan.offset, plan.reverse, envs);
    assert Rows(rt, CompileNode(rt.host, schemas, whole, r).0.value.dataflow) == MapSeq(envs, flat);
    hide *;
    var scanned := Scanned(columns, plan.limit, plan.offset, plan.reverse, envs);
    FilterAnswersExactly(columns, plan.limit, plan.offset, plan.reverse, envs);
    if TakesAll(|envs|, plan.offset, plan.limit) {
      MapPermuted(envs, scanned, flat);
    } else {
      ScannedLength(columns, plan.limit, plan.offset, plan.reverse, envs);
      assert |multiset(MapSeq(envs, flat))| != |multiset(MapSeq(scanned, flat))|;
    }
  }

  lemma ScannedLength(columns: seq<ColumnRef>, limit: Option<nat>, offset: Option<nat>, reverse: bool, envs: seq<Env>)
    ensures |Scanned(columns, limit, offset, reverse, envs)| == |envs| <==> TakesAll(|envs|, offset, limit)
  {
    ByKeyArranges(columns, reverse, envs);
    SliceOfAll(ByKey(columns, reverse, envs), offset, limit);
  }

  lemma {:induction false} MapPermuted<A, B>(s: seq<A>, t: seq<A>, f: A -> B)
    requires multiset(s) == multiset(t)
    ensures multiset(MapSeq(s, f)) == multiset(MapSeq(t, f))
    decreases |s|
  {
    assert |s| == |multiset(s)| == |multiset(t)| == |t|;
    if s != [] {
      assert s[0] in multiset(t) by {
        assert s[0] in multiset(s);
      }
      var k :| 0 <= k < |t| && t[k] == s[0];
      var rest := t[..k] + t[k + 1..];
      FirstAndRest(s);
      WithoutOne(t, k);
      CancelOne(s[0], multiset(s[1..]), multiset(rest));
      MapPermuted(s[1..], rest, f);
      MapRest(s, f);
      MapWithout(t, k, f);
    }
  }

  lemma CancelOne<T>(x: T, a: multiset<T>, b: multiset<T>)
    requires multiset{x} + a == multiset{x} + b
    ensures a == b
  {
    assert a == (multiset{x} + a) - multiset{x};
    assert b == (multiset{x} + b) - multiset{x};
  }

  lemma MapRest<A, B>(s: seq<A>, f: A -> B)
    requires s != []
    ensures multiset(MapSeq(s, f)) == multiset{f(s[0])} + multiset(MapSeq(s[1..], f))
  {
    assert MapSeq(s, f)[1..] == MapSeq(s[1..], f);
    FirstAndRest(MapSeq(s, f));
  }

  lemma MapWithout<A, B>(s: seq<A>, k: nat, f: A -> B)
    requires k < |s|
    ensures multiset(MapSeq(s, f)) == multiset{f(s[k])} + multiset(MapSeq(s[..k] + s[k + 1..], f))
  {
    var image := MapSeq(s, f);
    WithoutOne(image, k);
    assert image[..k] + image[k + 1..] == MapSeq(s[..k] + s[k + 1..], f);
  }

  // ----- The failing input ---------------------------------------------------------------------

  const ONE_COLUMN: Schema := Schema(["id"], [], Some(IndexDef("pk", "pk", ["id"])))

  function OneTable(): Schemas { map["t" := ONE_COLUMN] }

  function TwoRows(): Database { map["t" := [[Int64(1)], [Int64(2)]]] }

  const FIRST_ROW: Plan := IndexScan("t", "pk", Unbounded, Some(1), None, false)

  /** LIMIT 1 over two rows: the scan has one row, a filter of the table has two, and the compiler refuses. */
  lemma LimitedScanIsRefused(host: Host, r: Resolver)
    ensures |Meaning(host, OneTable(), TwoRows(), FIRST_ROW)| == 1
    ensures |Meaning(host, OneTable(), TwoRows(), Unsliced(FIRST_ROW))| == 2
    ensures CompileNode(host, OneTable(), FIRST_ROW, r).0 == None
  {
    CompilesExactly(host, OneTable(), FIRST_ROW, r);
    var columns := KeyColumn();
    var envs := Scan(TwoRows(), "t");
    FirstRowMeaning(host, columns);
    FilterAll(envs, KeyWithin(columns, Unbounded));
    hide *;
    assert |envs| == 2 by {
      TwoEnvs();
    }
    ByKeyArranges(columns, false, envs);
    SliceHolds(ByKey(columns, false, envs), None, Some(1));
    NotMaintained();
    NothingSkipped();
  }

  lemma KeyColumn() returns (columns: seq<ColumnRef>)
    ensures LookupIndexColumns(OneTable(), "t", "pk") == Some(columns)
  {
    var names := ["id"];
    assert names[0] == "id" && names[1..] == [];
    assert ResolveColumns("t", ONE_COLUMN, names[1..]) == Some([]);
    assert PositionOf(ONE_COLUMN.columns, names[0]).Some?;
    assert ResolveColumns("t", ONE_COLUMN, names).Some?;
    assert IndexNamed(ONE_COLUMN, "pk") == ONE_COLUMN.primaryKey;
    columns := LookupIndexColumns(OneTable(), "t", "pk").value;
  }

  lemma FirstRowMeaning(host: Host, columns: seq<ColumnRef>)
    requires LookupIndexColumns(OneTable(), "t", "pk") == Some(columns)
    ensures var envs := FilterSeq(Scan(TwoRows(), "t"), KeyWithin(columns, Unbounded));
      && Meaning(host, OneTable(), TwoRows(), Unsliced(FIRST_ROW)) == envs
      && Meaning(host, OneTable(), TwoRows(), FIRST_ROW) == Sliced(ByKey(columns, false, envs), None, Some(1))
    ensures forall env :: KeyWithin(columns, Unbounded)(env)
  {
    hide FilterSeq, Scan, ByKey, Sliced, LookupIndexColumns;
  }

  lemma TwoEnvs()
    ensures |Scan(TwoRows(), "t")| == 2
  {}

  lemma NotMaintained()
    ensures !Maintainable(OneTable(), FIRST_ROW)
  {}

  lemma NothingSkipped()
    ensures Skipped(None) == 0
  {}
}
