/** The bootstrap bindings of a live plan (crates/database/src/live_runtime.rs): the i-th binding must
  feed the i-th source of the compiled dataflow. */
module SourceBindings {
  import opened Options
  import opened Expressions
  import opened Layouts
  import opened Plans
  import opened PlanCompiler

  /** One bound source; `covers` says that the access path already applies the source's filter. */
  datatype Binding = Binding(sourceIndex: nat, id: TableId, table: string, covers: bool)

  datatype Leaf = Leaf(table: string, covers: bool)

  /** The leaves of a plan in source order. */
  function Reads(plan: Plan): seq<Leaf> {
    match plan
    case TableScan(t) => [Leaf(t, false)]
    case IndexScan(t, _, _, _, _, _) => [Leaf(t, true)]
    case IndexGet(t, _, _, _) => [Leaf(t, true)]
    case IndexInGet(t, _, _) => [Leaf(t, true)]
    case GinIndexScan(t, _) => [Leaf(t, true)]
    case Filter(input, _) => Reads(input)
    case Project(input, _) => Reads(input)
    case HashAggregate(input, _, _) => Reads(input)
    case Sort(input) => Reads(input)
    case TopN(input) => Reads(input)
    case Limit(input) => Reads(input)
    case NoOp(input) => Reads(input)
    case Join(left, right, _, _, _) => Reads(left) + Reads(right)
    case CrossProduct(left, right) => Reads(left) + Reads(right)
    case Union(left, right) => Reads(left) + Reads(right)
    case IndexNestedLoopJoin(outer, inner, _, _, outerIsLeft, _) =>
      if outerIsLeft then Reads(outer) + [Leaf(inner, false)] else [Leaf(inner, false)] + Reads(outer)
    case Empty => []
  }

  /** The bindings of some leaves, numbered from `start`; tables without an id are skipped. */
  function BindingsFor(ids: map<string, TableId>, leaves: seq<Leaf>, start: nat): seq<Binding> {
    if leaves == [] then []
    else if leaves[0].table !in ids then BindingsFor(ids, leaves[1..], start)
    else
      [Binding(start, ids[leaves[0].table], leaves[0].table, leaves[0].covers)] + BindingsFor(ids, leaves[1..], start + 1)
  }

  lemma {:induction false} BindingsConcat(ids: map<string, TableId>, a: seq<Leaf>, b: seq<Leaf>, start: nat)
    ensures BindingsFor(ids, a + b, start) == BindingsFor(ids, a, start) + BindingsFor(ids, b, start + |BindingsFor(ids, a, start)|)
  {
    if a == [] {
      assert a + b == b;
    } else {
      assert (a + b)[1..] == a[1..] + b;
      BindingsConcat(ids, a[1..], b, if a[0].table in ids then start + 1 else start);
    }
  }

  lemma AppendBindings(a: seq<Binding>, b: seq<Binding>, c: seq<Binding>)
    ensures (a + b) + c == a + (b + c)
  {}

  /** The growing list of bindings. */
  class BindingList {
    var bindings: seq<Binding>

    constructor ()
      ensures bindings == []
    {
      bindings := [];
    }

    method Push(ids: map<string, TableId>, table: string, covers: bool)
      modifies this
      ensures bindings == old(bindings) + BindingsFor(ids, [Leaf(table, covers)], |old(bindings)|)
    {
      assert [Leaf(table, covers)][1..] == [];
      if table in ids {
        bindings := bindings + [Binding(|bindings|, ids[table], table, covers)];
      }
    }

    method Collect(plan: Plan, ids: map<string, TableId>)
      modifies this
      ensures bindings == old(bindings) + BindingsFor(ids, Reads(plan), |old(bindings)|)
      decreases plan, 1
    {
      match plan
      case TableScan(t) => Push(ids, t, false);
      case IndexScan(t, _, _, _, _, _) => Push(ids, t, true);
      case IndexGet(t, _, _, _) => Push(ids, t, true);
      case IndexInGet(t, _, _) => Push(ids, t, true);
      case GinIndexScan(t, _) => Push(ids, t, true);
      case Join(_, _, _, _, _) => CollectBoth(plan, ids);
      case CrossProduct(_, _) => CollectBoth(plan, ids);
      case Union(_, _) => CollectBoth(plan, ids);
      case IndexNestedLoopJoin(_, _, _, _, _, _) => CollectIndexJoin(plan, ids);
      case Empty =>
      case _ => Collect(plan.input, ids);
    }

    method CollectBoth(plan: Plan, ids: map<string, TableId>)
      requires plan.Join? || plan.CrossProduct? || plan.Union?
      modifies this
      ensures bindings == old(bindings) + BindingsFor(ids, Reads(plan), |old(bindings)|)
      decreases plan, 0
    {
      ghost var n, left, right := |bindings|, Reads(plan.left), Reads(plan.right);
      ghost var first := BindingsFor(ids, left, n);
      BindingsConcat(ids, left, right, n);
      Collect(plan.left, ids);
      Collect(plan.right, ids);
      AppendBindings(old(bindings), first, BindingsFor(ids, right, n + |first|));
    }

    /** The inner table is bound on its own side of the outer plan. */
    method CollectIndexJoin(plan: Plan, ids: map<string, TableId>)
      requires plan.IndexNestedLoopJoin?
      modifies this
      ensures bindings == old(bindings) + BindingsFor(ids, Reads(plan), |old(bindings)|)
      decreases plan, 0
    {
      var inner := plan.innerTable;
      ghost var n, outer, side := |bindings|, Reads(plan.outer), [Leaf(inner, false)];
      if plan.outerIsLeft {
        ghost var first := BindingsFor(ids, outer, n);
        BindingsConcat(ids, outer, side, n);
        Collect(plan.outer, ids);
        Push(ids, inner, false);
        AppendBindings(old(bindings), first, BindingsFor(ids, side, n + |first|));
      } else {
        ghost var first := BindingsFor(ids, side, n);
        BindingsConcat(ids, side, outer, n);
        Push(ids, inner, false);
        Collect(plan.outer, ids);
        AppendBindings(old(bindings), first, BindingsFor(ids, outer, n + |first|));
      }
    }
  }

  // ----- Alignment -----------------------------------------------------------------------------

  /** The table ids of a dataflow's sources, left to right. */
  function Sources(d: Dataflow): seq<TableId> {
    match d
    case Source(id) => [id]
    case Filtering(input, _) => Sources(input)
    case Projecting(input, _) => Sources(input)
    case Mapping(input, _) => Sources(input)
    case Joining(left, right, _, _, _, _, _, _) => Sources(left) + Sources(right)
    case Aggregating(input, _, _) => Sources(input)
  }

  function EmptyLeaves(plan: Plan): nat {
    match plan
    case Empty => 1
    case Filter(input, _) => EmptyLeaves(input)
    case Project(input, _) => EmptyLeaves(input)
    case HashAggregate(input, _, _) => EmptyLeaves(input)
    case NoOp(input) => EmptyLeaves(input)
    case Join(left, right, _, _, _) => EmptyLeaves(left) + EmptyLeaves(right)
    case CrossProduct(left, right) => EmptyLeaves(left) + EmptyLeaves(right)
    case IndexNestedLoopJoin(outer, _, _, _, _, _) => EmptyLeaves(outer)
    case _ => 0
  }

  /** The ids given to all leaves, in order. */
  ghost predicate Aligned(ids: map<string, TableId>, leaves: seq<Leaf>, sources: seq<TableId>) {
    && |sources| == |leaves|
    && forall i :: 0 <= i < |leaves| ==> leaves[i].table in ids && sources[i] == ids[leaves[i].table]
  }

  lemma AlignedLater(before: Resolver, after: Resolver, leaves: seq<Leaf>, sources: seq<TableId>)
    requires Aligned(before.used, leaves, sources) && Extends(before, after)
    ensures Aligned(after.used, leaves, sources)
  {}

  lemma AlignedConcat(ids: map<string, TableId>, a: seq<Leaf>, b: seq<Leaf>, sa: seq<TableId>, sb: seq<TableId>)
    requires Aligned(ids, a, sa) && Aligned(ids, b, sb)
    ensures Aligned(ids, a + b, sa + sb)
  {}

  /** Reordering and filtering leave the sources as they are. */
  lemma JoinSources(left: Compiled, right: Compiled, condition: Expr, joinType: JoinType, output: seq<string>)
    ensures Sources(CompileJoin(left, right, condition, joinType, output).dataflow)
         == Sources(left.dataflow) + Sources(right.dataflow)
  {}

  lemma LeafAligned(host: Host, schemas: Schemas, plan: Plan, r: Resolver)
    requires CompileLeaf(host, schemas, plan, r).0.Some? && !plan.Empty?
    requires !plan.Filter? && !plan.Project? && !plan.NoOp? && !plan.HashAggregate?
    requires !plan.Join? && !plan.CrossProduct? && !plan.IndexNestedLoopJoin?
    ensures Aligned(CompileLeaf(host, schemas, plan, r).1.used, Reads(plan),
                    Sources(CompileLeaf(host, schemas, plan, r).0.value.dataflow))
  {}

  lemma {:induction false} CompiledAligned(host: Host, schemas: Schemas, plan: Plan, r: Resolver)
    requires CompileNode(host, schemas, plan, r).0.Some? && EmptyLeaves(plan) == 0
    ensures Aligned(CompileNode(host, schemas, plan, r).1.used, Reads(plan),
                    Sources(CompileNode(host, schemas, plan, r).0.value.dataflow))
    decreases plan, 1
  {
    match plan
    case Filter(input, _) => CompiledAligned(host, schemas, input, r);
    case Project(input, _) => CompiledAligned(host, schemas, input, r);
    case HashAggregate(input, _, _) => CompiledAligned(host, schemas, input, r);
    case NoOp(input) => CompiledAligned(host, schemas, input, r);
    case Join(_, _, _, _, _) => BothAligned(host, schemas, plan, r);
    case CrossProduct(_, _) => BothAligned(host, schemas, plan, r);
    case IndexNestedLoopJoin(_, _, _, _, _, _) => IndexJoinAligned(host, schemas, plan, r);
    case _ => LeafAligned(host, schemas, plan, r);
  }

  lemma {:induction false} BothAligned(host: Host, schemas: Schemas, plan: Plan, r: Resolver)
    requires plan.Join? || plan.CrossProduct?
    requires CompileNode(host, schemas, plan, r).0.Some? && EmptyLeaves(plan) == 0
    ensures Aligned(CompileNode(host, schemas, plan, r).1.used, Reads(plan),
                    Sources(CompileNode(host, schemas, plan, r).0.value.dataflow))
    decreases plan, 0
  {
    var l := CompileNode(host, schemas, plan.left, r);
    var c := CompileNode(host, schemas, plan.right, l.1);
    CompiledAligned(host, schemas, plan.left, r);
    CompiledAligned(host, schemas, plan.right, l.1);
    CompileExtends(host, schemas, plan.right, l.1);
    AlignedLater(l.1, c.1, Reads(plan.left), Sources(l.0.value.dataflow));
    AlignedConcat(c.1.used, Reads(plan.left), Reads(plan.right), Sources(l.0.value.dataflow), Sources(c.0.value.dataflow));
    if plan.Join? {
      JoinSources(l.0.value, c.0.value, plan.condition, plan.joinType, plan.outputTables);
    }
  }

  lemma {:induction false} IndexJoinAligned(host: Host, schemas: Schemas, plan: Plan, r: Resolver)
    requires plan.IndexNestedLoopJoin?
    requires CompileNode(host, schemas, plan, r).0.Some? && EmptyLeaves(plan) == 0
    ensures Aligned(CompileNode(host, schemas, plan, r).1.used, Reads(plan),
                    Sources(CompileNode(host, schemas, plan, r).0.value.dataflow))
    decreases plan, 0
  {
    var o := CompileNode(host, schemas, plan.outer, r);
    var i := CompileSource(schemas, plan.innerTable, o.1);
    CompiledAligned(host, schemas, plan.outer, r);
    AlignedLater(o.1, i.1, Reads(plan.outer), Sources(o.0.value.dataflow));
    var inner, at := [Leaf(plan.innerTable, false)], Sources(i.0.value.dataflow);
    AlignedConcat(i.1.used, Reads(plan.outer), inner, Sources(o.0.value.dataflow), at);
    AlignedConcat(i.1.used, inner, Reads(plan.outer), at, Sources(o.0.value.dataflow));
    if plan.outerIsLeft {
      JoinSources(o.0.value, i.0.value, plan.condition, plan.joinType, plan.outputTables);
    } else {
      JoinSources(i.0.value, o.0.value, plan.condition, plan.joinType, plan.outputTables);
    }
  }

  lemma {:induction false} BindingsAligned(ids: map<string, TableId>, leaves: seq<Leaf>, sources: seq<TableId>, start: nat)
    requires Aligned(ids, leaves, sources)
    ensures var bindings := BindingsFor(ids, leaves, start);
      && |bindings| == |sources|
      && forall i :: 0 <= i < |bindings| ==> bindings[i].id == sources[i] && bindings[i].sourceIndex == start + i
    decreases |leaves|
  {
    if leaves != [] {
      BindingsAligned(ids, leaves[1..], sources[1..], start + 1);
    }
  }

  /** The i-th binding has the table id of the i-th source, and there are as many. */
  lemma BindingsMatchSources(host: Host, schemas: Schemas, plan: Plan, r: Resolver)
    requires CompileNode(host, schemas, plan, r).0.Some? && EmptyLeaves(plan) == 0
    ensures var (c, r1) := CompileNode(host, schemas, plan, r);
      var bindings, sources := BindingsFor(r1.used, Reads(plan), 0), Sources(c.value.dataflow);
      && |bindings| == |sources|
      && forall i :: 0 <= i < |sources| ==> bindings[i].id == sources[i] && bindings[i].sourceIndex == i
  {
    var (c, r1) := CompileNode(host, schemas, plan, r);
    CompiledAligned(host, schemas, plan, r);
    BindingsAligned(r1.used, Reads(plan), Sources(c.value.dataflow), 0);
  }

  // ----- Empty leaves break the alignment ------------------------------------------------------

  /** Every leaf has its source; an Empty leaf has a source but no binding. */
  lemma {:induction false} SourcesCount(host: Host, schemas: Schemas, plan: Plan, r: Resolver)
    requires CompileNode(host, schemas, plan, r).0.Some?
    ensures |Sources(CompileNode(host, schemas, plan, r).0.value.dataflow)| == |Reads(plan)| + EmptyLeaves(plan)
    decreases plan, 1
  {
    match plan
    case Filter(input, _) => SourcesCount(host, schemas, input, r);
    case Project(input, _) => SourcesCount(host, schemas, input, r);
    case HashAggregate(input, _, _) => SourcesCount(host, schemas, input, r);
    case NoOp(input) => SourcesCount(host, schemas, input, r);
    case Join(_, _, _, _, _) => BothCount(host, schemas, plan, r);
    case CrossProduct(_, _) => BothCount(host, schemas, plan, r);
    case IndexNestedLoopJoin(_, _, _, _, _, _) => IndexJoinCount(host, schemas, plan, r);
    case _ => LeafCount(host, schemas, plan, r);
  }

  lemma LeafCount(host: Host, schemas: Schemas, plan: Plan, r: Resolver)
    requires !plan.Filter? && !plan.Project? && !plan.NoOp? && !plan.HashAggregate?
    requires !plan.Join? && !plan.CrossProduct? && !plan.IndexNestedLoopJoin?
    requires CompileNode(host, schemas, plan, r).0.Some?
    ensures |Sources(CompileNode(host, schemas, plan, r).0.value.dataflow)| == |Reads(plan)| + EmptyLeaves(plan)
  {
    if !plan.Empty? {
      LeafAligned(host, schemas, plan, r);
      hide CompileLeaf;
    }
  }

  lemma {:induction false} IndexJoinCount(host: Host, schemas: Schemas, plan: Plan, r: Resolver)
    requires plan.IndexNestedLoopJoin?
    requires CompileNode(host, schemas, plan, r).0.Some?
    ensures |Sources(CompileNode(host, schemas, plan, r).0.value.dataflow)| == |Reads(plan)| + EmptyLeaves(plan)
    decreases plan, 0
  {
    var o := CompileNode(host, schemas, plan.outer, r);
    var i := CompileSource(schemas, plan.innerTable, o.1).0.value;
    SourcesCount(host, schemas, plan.outer, r);
    if plan.outerIsLeft {
      JoinSources(o.0.value, i, plan.condition, plan.joinType, plan.outputTables);
    } else {
      JoinSources(i, o.0.value, plan.condition, plan.joinType, plan.outputTables);
    }
  }

  lemma {:induction false} BothCount(host: Host, schemas: Schemas, plan: Plan, r: Resolver)
    requires plan.Join? || plan.CrossProduct?
    requires CompileNode(host, schemas, plan, r).0.Some?
    ensures |Sources(CompileNode(host, schemas, plan, r).0.value.dataflow)| == |Reads(plan)| + EmptyLeaves(plan)
    decreases plan, 0
  {
    var l := CompileNode(host, schemas, plan.left, r);
    var c := CompileNode(host, schemas, plan.right, l.1);
    SourcesCount(host, schemas, plan.left, r);
    SourcesCount(host, schemas, plan.right, l.1);
    if plan.Join? {
      JoinSources(l.0.value, c.0.value, plan.condition, plan.joinType, plan.outputTables);
    }
  }

  lemma {:induction false} BindingsAtMost(ids: map<string, TableId>, leaves: seq<Leaf>, start: nat)
    ensures |BindingsFor(ids, leaves, start)| <= |leaves|
  {
    if leaves != [] {
      BindingsAtMost(ids, leaves[1..], if leaves[0].table in ids then start + 1 else start);
    }
  }

  /** Bindings and sources line up exactly when the plan has no Empty leaf. */
  lemma AlignedExactly(host: Host, schemas: Schemas, plan: Plan, r: Resolver)
    requires CompileNode(host, schemas, plan, r).0.Some?
    ensures var (c, r1) := CompileNode(host, schemas, plan, r);
      |BindingsFor(r1.used, Reads(plan), 0)| == |Sources(c.value.dataflow)| <==> EmptyLeaves(plan) == 0
  {
    var r1 := CompileNode(host, schemas, plan, r).1;
    SourcesCount(host, schemas, plan, r);
    if EmptyLeaves(plan) == 0 {
      BindingsMatchSources(host, schemas, plan, r);
    } else {
      BindingsAtMost(r1.used, Reads(plan), 0);
    }
  }

  /** The failing input: beside an Empty leaf the one binding carries the number of the other source.
      The new ids start behind the one known table. */
  lemma EmptyShiftsBindings(host: Host, table: string, schema: Schema, id: TableId)
    requires id != LAST_ID
    ensures var (c, r1) := CompileNode(host, map[table := schema], CrossProduct(Empty, TableScan(table)),
                                       Resolver(map[table := id], map[], id + 1));
      && c.Some? && Sources(c.value.dataflow) == [LAST_ID, id]
      && BindingsFor(r1.used, Reads(CrossProduct(Empty, TableScan(table))), 0) == [Binding(0, id, table, false)]
  {
    var r := Resolver(map[table := id], map[], id + 1);
    var leaves := Reads(CrossProduct(Empty, TableScan(table)));
    assert Reads(Empty) == [] && Reads(TableScan(table)) == [Leaf(table, false)];
    assert leaves == [Leaf(table, false)];
    assert r.Resolve(table) == (id, r.(used := map[table := id]));
    assert leaves[1..] == [];
  }
}
