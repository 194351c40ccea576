/** How a live plan gets its first rows (crates/incremental/src/materialize.rs): each source loads what
  the access path of its binding finds, and a filter directly over a source is skipped when the binding
  says that the access path covers it. The rows that reach a join or an aggregate become its state. */
module SourceBootstrap {
  import opened Options
  import opened Values
  import opened Expressions
  import opened Layouts
  import opened Joins
  import opened Plans
  import opened PlanCompiler
  import opened SourceBindings
  import IndexScans

  /** By source number: what the access path finds, and whether it covers the filter over the source. */
  datatype Loading = Loading(covers: seq<bool>, load: nat -> seq<Row>) {
    predicate Skips(input: Dataflow, first: nat) { input.Source? && first < |covers| && covers[first] }
  }

  /** The rows a node hands on while the view is built; `first` is the number of its first source. */
  function Booted(rt: Runtime, b: Loading, d: Dataflow, first: nat): seq<Row> {
    match d
    case Source(_) => b.load(first)
    case Filtering(input, test) =>
      var rows := Booted(rt, b, input, first);
      if b.Skips(input, first) then rows else FilterSeq(rows, AcceptsRow(rt.host, test))
    case Projecting(input, columns) => MapSeq(Booted(rt, b, input, first), ProjectsTo(columns))
    case Mapping(input, exprs) => MapSeq(Booted(rt, b, input, first), MapsTo(rt.host, exprs))
    case Joining(left, right, lk, rk, kl, kr, lw, rw) =>
      JoinSeq(JoinRows(lk, rk, kl, kr, lw, rw), Booted(rt, b, left, first), Booted(rt, b, right, first + |Sources(left)|))
    case Aggregating(input, groupBy, functions) => rt.aggregate(Booted(rt, b, input, first), groupBy, functions)
  }

  /** Every node hands on its own rows; a source under a skipped filter counts with the filter. */
  ghost predicate Boots(rt: Runtime, b: Loading, d: Dataflow, first: nat) {
    && Booted(rt, b, d, first) == Rows(rt, d)
    && match d
       case Source(_) => true
       case Filtering(input, _) => b.Skips(input, first) || Boots(rt, b, input, first)
       case Projecting(input, _) => Boots(rt, b, input, first)
       case Mapping(input, _) => Boots(rt, b, input, first)
       case Joining(left, right, _, _, _, _, _, _) =>
         Boots(rt, b, left, first) && Boots(rt, b, right, first + |Sources(left)|)
       case Aggregating(input, _, _) => Boots(rt, b, input, first)
  }

  /** Joins and aggregates start with the rows of their inputs. What lies above them keeps no state and
      is not run at all: the first result rows come from the query executor. */
  ghost predicate StatesRight(rt: Runtime, b: Loading, d: Dataflow, first: nat) {
    match d
    case Source(_) => true
    case Filtering(input, _) => StatesRight(rt, b, input, first)
    case Projecting(input, _) => StatesRight(rt, b, input, first)
    case Mapping(input, _) => StatesRight(rt, b, input, first)
    case Joining(left, right, _, _, _, _, _, _) =>
      Boots(rt, b, left, first) && Boots(rt, b, right, first + |Sources(left)|)
    case Aggregating(input, _, _) => Boots(rt, b, input, first)
  }

  // ----- What the access paths find ------------------------------------------------------------

  predicate IsLeaf(plan: Plan) {
    plan.TableScan? || plan.IndexScan? || plan.IndexGet? || plan.IndexInGet? || plan.GinIndexScan?
  }

  /** The rows a leaf stands for. */
  function LeafRows(rt: Runtime, schemas: Schemas, plan: Plan, r: Resolver): seq<Row> {
    match CompileNode(rt.host, schemas, plan, r).0
    case Some(c) => Rows(rt, c.dataflow)
    case None => []
  }

  /** Every access path finds the rows its leaf stands for. A GIN index may find more: its leaf checks
      the rows again. */
  ghost predicate Finds(rt: Runtime, schemas: Schemas, b: Loading, plan: Plan, r: Resolver, first: nat) {
    match plan
    case Filter(input, _) => Finds(rt, schemas, b, input, r, first)
    case Project(input, _) => Finds(rt, schemas, b, input, r, first)
    case HashAggregate(input, _, _) => Finds(rt, schemas, b, input, r, first)
    case NoOp(input) => Finds(rt, schemas, b, input, r, first)
    case Join(left, right, _, _, _) =>
      && Finds(rt, schemas, b, left, r, first)
      && Finds(rt, schemas, b, right, CompileNode(rt.host, schemas, left, r).1, first + |Reads(left)|)
    case CrossProduct(left, right) =>
      && Finds(rt, schemas, b, left, r, first)
      && Finds(rt, schemas, b, right, CompileNode(rt.host, schemas, left, r).1, first + |Reads(left)|)
    case IndexNestedLoopJoin(outer, inner, _, _, outerIsLeft, _) =>
      var after := CompileNode(rt.host, schemas, outer, r).1;
      && Finds(rt, schemas, b, outer, r, if outerIsLeft then first else first + 1)
      && b.load(if outerIsLeft then first + |Reads(outer)| else first) == LeafRows(rt, schemas, TableScan(inner), after)
    case GinIndexScan(_, _) => true
    case _ => b.load(first) == LeafRows(rt, schemas, plan, r)
  }

  /** The flags of the plan's leaves, as the binding list holds them. */
  ghost predicate Flagged(b: Loading, leaves: seq<Leaf>, first: nat) {
    && first + |leaves| <= |b.covers|
    && forall i :: 0 <= i < |leaves| ==> b.covers[first + i] == leaves[i].covers
  }

  // ----- When a filter is lost -----------------------------------------------------------------

  predicate Everything(bounds: IndexBounds) {
    bounds.Unbounded? || (bounds.Scalar? && bounds.range.All?) || (bounds.Composite? && bounds.ranges.All?)
  }

  /** A scan of a whole index: its leaf needs no test of its own. */
  predicate WholeIndex(plan: Plan) {
    match plan
    case NoOp(input) => WholeIndex(input)
    case IndexScan(_, _, bounds, _, _, _) => Everything(bounds)
    case _ => false
  }

  /** No row of the input fails the test. */
  ghost predicate NoneFails(rt: Runtime, schemas: Schemas, input: Plan, r: Resolver, test: Expr) {
    match CompileNode(rt.host, schemas, input, r).0
    case Some(c) =>
      forall row :: row in Rows(rt, c.dataflow) ==> EvalRow(rt.host, Rebind(test, c.layout.Bind()), row) == Boolean(true)
    case None => true
  }

  /** Every filter over the scan of a whole index has nothing to do, and every GIN index finds no row
      that the check of its leaf rejects. */
  ghost predicate NothingLost(rt: Runtime, schemas: Schemas, b: Loading, plan: Plan, r: Resolver, first: nat) {
    match plan
    case Filter(input, test) =>
      NothingLost(rt, schemas, b, input, r, first) && (WholeIndex(input) ==> NoneFails(rt, schemas, input, r, test))
    case Project(input, _) => NothingLost(rt, schemas, b, input, r, first)
    case HashAggregate(input, _, _) => NothingLost(rt, schemas, b, input, r, first)
    case NoOp(input) => NothingLost(rt, schemas, b, input, r, first)
    case Join(left, right, _, _, _) =>
      && NothingLost(rt, schemas, b, left, r, first)
      && NothingLost(rt, schemas, b, right, CompileNode(rt.host, schemas, left, r).1, first + |Reads(left)|)
    case CrossProduct(left, right) =>
      && NothingLost(rt, schemas, b, left, r, first)
      && NothingLost(rt, schemas, b, right, CompileNode(rt.host, schemas, left, r).1, first + |Reads(left)|)
    case IndexNestedLoopJoin(outer, _, _, _, outerIsLeft, _) =>
      NothingLost(rt, schemas, b, outer, r, if outerIsLeft then first else first + 1)
    case GinIndexScan(_, _) => b.load(first) == LeafRows(rt, schemas, plan, r)
    case _ => true
  }

  /** The same for the inputs of joins and aggregates only. */
  ghost predicate InputsLoseNothing(rt: Runtime, schemas: Schemas, b: Loading, plan: Plan, r: Resolver, first: nat) {
    match plan
    case Filter(input, _) => InputsLoseNothing(rt, schemas, b, input, r, first)
    case Project(input, _) => InputsLoseNothing(rt, schemas, b, input, r, first)
    case NoOp(input) => InputsLoseNothing(rt, schemas, b, input, r, first)
    case HashAggregate(input, _, _) => NothingLost(rt, schemas, b, input, r, first)
    case Join(_, _, _, _, _) => NothingLost(rt, schemas, b, plan, r, first)
    case CrossProduct(_, _) => NothingLost(rt, schemas, b, plan, r, first)
    case IndexNestedLoopJoin(_, _, _, _, _, _) => NothingLost(rt, schemas, b, plan, r, first)
    case _ => true
  }

  // ----- Exactly when the view is built rightly ------------------------------------------------

  /** A filter that keeps a list keeps every element of it. */
  lemma {:induction false} FilterKeepsAll<A>(s: seq<A>, p: A -> bool)
    ensures FilterSeq(s, p) == s <==> forall x :: x in s ==> p(x)
    ensures |FilterSeq(s, p)| <= |s|
  {
    if s != [] {
      FilterKeepsAll(s[1..], p);
      assert s == [s[0]] + s[1..];
      if p(s[0]) {
        assert FilterSeq(s, p)[1..] == FilterSeq(s[1..], p);
      }
    }
  }

  lemma LeafCompiles(host: Host, schemas: Schemas, plan: Plan, r: Resolver)
    requires IsLeaf(plan) && CompileNode(host, schemas, plan, r).0.Some?
    ensures var d := CompileNode(host, schemas, plan, r).0.value.dataflow;
      && (d.Source? <==> plan.TableScan? || WholeIndex(plan))
      && (d.Source? || (d.Filtering? && d.input.Source?))
    ensures |Reads(plan)| == 1 && (Reads(plan)[0].covers <==> !plan.TableScan?)
    ensures |Sources(CompileNode(host, schemas, plan, r).0.value.dataflow)| == 1
  {}

  /** What compiles to a bare source: scans of tables and of whole indexes. */
  lemma {:induction false} BareSources(host: Host, schemas: Schemas, plan: Plan, r: Resolver)
    requires CompileNode(host, schemas, plan, r).0.Some? && EmptyLeaves(plan) == 0
    requires CompileNode(host, schemas, plan, r).0.value.dataflow.Source?
    ensures |Reads(plan)| == 1 && (Reads(plan)[0].covers <==> WholeIndex(plan))
    decreases plan
  {
    match plan
    case NoOp(input) => BareSources(host, schemas, input, r);
    case _ =>
      if IsLeaf(plan) {
        LeafCompiles(host, schemas, plan, r);
      }
  }

  lemma {:induction false} WholeIsBare(host: Host, schemas: Schemas, plan: Plan, r: Resolver)
    requires CompileNode(host, schemas, plan, r).0.Some? && WholeIndex(plan)
    ensures CompileNode(host, schemas, plan, r).0.value.dataflow.Source?
    decreases plan
  {
    match plan
    case NoOp(input) => WholeIsBare(host, schemas, input, r);
    case IndexScan(_, _, _, _, _, _) => LeafCompiles(host, schemas, plan, r);
  }

  /** The binding numbers of a plan are the source numbers of its dataflow. */
  lemma SourcesAreReads(host: Host, schemas: Schemas, plan: Plan, r: Resolver)
    requires CompileNode(host, schemas, plan, r).0.Some? && EmptyLeaves(plan) == 0
    ensures |Sources(CompileNode(host, schemas, plan, r).0.value.dataflow)| == |Reads(plan)|
  {
    SourcesCount(host, schemas, plan, r);
  }

  /** A node is built rightly exactly when its inputs are. */
  lemma BootsByInputs(rt: Runtime, b: Loading, d: Dataflow, first: nat)
    ensures match d
      case Source(id) => Boots(rt, b, d, first) <==> b.load(first) == rt.sources(id)
      case Filtering(input, _) =>
        Boots(rt, b, d, first) <==> if b.Skips(input, first) then b.load(first) == Rows(rt, d) else Boots(rt, b, input, first)
      case Projecting(input, _) => Boots(rt, b, d, first) <==> Boots(rt, b, input, first)
      case Mapping(input, _) => Boots(rt, b, d, first) <==> Boots(rt, b, input, first)
      case Joining(left, right, _, _, _, _, _, _) =>
        Boots(rt, b, d, first) <==> Boots(rt, b, left, first) && Boots(rt, b, right, first + |Sources(left)|)
      case Aggregating(input, _, _) => Boots(rt, b, d, first) <==> Boots(rt, b, input, first)
  {
    hide JoinSeq, FilterSeq, JoinRows, AcceptsRow, ProjectsTo, MapsTo, Sources;
    if d.Filtering? && b.Skips(d.input, first) {
      assert Booted(rt, b, d, first) == Booted(rt, b, d.input, first) == b.load(first);
    }
  }

  lemma JoinBoots(rt: Runtime, b: Loading, left: Compiled, right: Compiled, condition: Expr, joinType: JoinType,
                  output: seq<string>, first: nat)
    ensures var d := CompileJoin(left, right, condition, joinType, output).dataflow;
      var inputs := Boots(rt, b, left.dataflow, first) && Boots(rt, b, right.dataflow, first + |Sources(left.dataflow)|);
      (Boots(rt, b, d, first) <==> inputs) && (StatesRight(rt, b, d, first) <==> inputs)
  {
    hide Boots, Booted, Rows, ExtractJoinKeys, Sources;
    var d := CompileJoin(left, right, condition, joinType, output).dataflow;
    BootsByInputs(rt, b, d, first);
    if d.Projecting? {
      BootsByInputs(rt, b, d.input, first);
    }
  }

  lemma LeafBoots(rt: Runtime, schemas: Schemas, b: Loading, plan: Plan, r: Resolver, first: nat)
    requires IsLeaf(plan) && CompileNode(rt.host, schemas, plan, r).0.Some?
    requires Flagged(b, Reads(plan), first) && Finds(rt, schemas, b, plan, r, first)
    ensures Boots(rt, b, CompileNode(rt.host, schemas, plan, r).0.value.dataflow, first)
       <==> NothingLost(rt, schemas, b, plan, r, first)
  {
    hide CompileNode, Rows, Boots, Reads;
    LeafCompiles(rt.host, schemas, plan, r);
    var d := CompileNode(rt.host, schemas, plan, r).0.value.dataflow;
    assert b.covers[first + 0] == Reads(plan)[0].covers;
    BootsByInputs(rt, b, d, first);
    if d.Source? {
      RowsOfSource(rt, d);
    }
  }

  lemma RowsOfSource(rt: Runtime, d: Dataflow)
    requires d.Source?
    ensures Rows(rt, d) == rt.sources(d.id)
  {}

  lemma {:induction false} WholeFinds(rt: Runtime, schemas: Schemas, b: Loading, plan: Plan, r: Resolver, first: nat)
    requires WholeIndex(plan) && Finds(rt, schemas, b, plan, r, first)
    ensures b.load(first) == LeafRows(rt, schemas, plan, r) && NothingLost(rt, schemas, b, plan, r, first)
    decreases plan
  {
    if plan.NoOp? {
      WholeFinds(rt, schemas, b, plan.input, r, first);
    }
  }

  lemma FilterBoots(rt: Runtime, schemas: Schemas, b: Loading, plan: Plan, r: Resolver, first: nat)
    requires plan.Filter? && CompileNode(rt.host, schemas, plan, r).0.Some? && EmptyLeaves(plan) == 0
    requires Flagged(b, Reads(plan), first) && Finds(rt, schemas, b, plan, r, first)
    requires Boots(rt, b, CompileNode(rt.host, schemas, plan.input, r).0.value.dataflow, first)
        <==> NothingLost(rt, schemas, b, plan.input, r, first)
    ensures Boots(rt, b, CompileNode(rt.host, schemas, plan, r).0.value.dataflow, first)
       <==> NothingLost(rt, schemas, b, plan, r, first)
  {
    var c, d := CompileNode(rt.host, schemas, plan.input, r).0.value, CompileNode(rt.host, schemas, plan, r).0.value.dataflow;
    assert d == Filtered(rt.host, c, plan.test).dataflow && Reads(plan) == Reads(plan.input);
    hide CompileNode, Rows, Boots, Reads, EmptyLeaves;
    BootsByInputs(rt, b, d, first);
    if c.dataflow.Source? {
      BareSources(rt.host, schemas, plan.input, r);
      assert b.covers[first + 0] == Reads(plan)[0].covers;
      if WholeIndex(plan.input) {
        WholeFinds(rt, schemas, b, plan.input, r, first);
        SkippedFilter(rt, c, plan.test);
      }
    } else if WholeIndex(plan.input) {
      WholeIsBare(rt.host, schemas, plan.input, r);
    }
  }

  /** Leaving a filter out changes nothing exactly when no row fails its test. */
  lemma SkippedFilter(rt: Runtime, c: Compiled, test: Expr)
    ensures Rows(rt, Filtered(rt.host, c, test).dataflow) == Rows(rt, c.dataflow)
       <==> forall row :: row in Rows(rt, c.dataflow) ==> EvalRow(rt.host, Rebind(test, c.layout.Bind()), row) == Boolean(true)
  {
    var rows, bound := Rows(rt, c.dataflow), Rebind(test, c.layout.Bind());
    var accepts := AcceptsRow(rt.host, CompilePredicate(rt.host, bound));
    FilterKeepsAll(rows, accepts);
    forall row ensures accepts(row) <==> EvalRow(rt.host, bound, row) == Boolean(true) {
      CompiledExactly(rt.host, bound, row);
    }
  }

  /** Main result: while a view is built, every node hands on its own rows if and only if no filter over
      the scan of a whole index rejects a row, and no GIN index finds a row its leaf rejects. The flag of
      a whole index says that its access path covers a filter, and the filter it lets skip is another. */
  lemma {:induction false} BootsExactly(rt: Runtime, schemas: Schemas, b: Loading, plan: Plan, r: Resolver, first: nat)
    requires CompileNode(rt.host, schemas, plan, r).0.Some? && EmptyLeaves(plan) == 0
    requires Flagged(b, Reads(plan), first) && Finds(rt, schemas, b, plan, r, first)
    ensures Boots(rt, b, CompileNode(rt.host, schemas, plan, r).0.value.dataflow, first)
       <==> NothingLost(rt, schemas, b, plan, r, first)
    decreases plan, 1
  {
    hide Boots, Rows, Booted;
    var d := CompileNode(rt.host, schemas, plan, r).0.value.dataflow;
    match plan
    case Filter(input, _) =>
      BootsExactly(rt, schemas, b, input, r, first);
      FilterBoots(rt, schemas, b, plan, r, first);
    case Project(input, _) =>
      BootsExactly(rt, schemas, b, input, r, first);
      BootsByInputs(rt, b, d, first);
    case HashAggregate(input, _, _) =>
      BootsExactly(rt, schemas, b, input, r, first);
      BootsByInputs(rt, b, d, first);
    case NoOp(input) => BootsExactly(rt, schemas, b, input, r, first);
    case Join(_, _, _, _, _) => BothBoot(rt, schemas, b, plan, r, first);
    case CrossProduct(_, _) => BothBoot(rt, schemas, b, plan, r, first);
    case IndexNestedLoopJoin(_, _, _, _, _, _) => IndexJoinBoots(rt, schemas, b, plan, r, first);
    case _ => LeafBoots(rt, schemas, b, plan, r, first);
  }

  lemma FlaggedParts(b: Loading, left: seq<Leaf>, right: seq<Leaf>, first: nat)
    requires Flagged(b, left + right, first)
    ensures Flagged(b, left, first) && Flagged(b, right, first + |left|)
  {
    forall i | 0 <= i < |left| ensures b.covers[first + i] == left[i].covers {
      assert (left + right)[i] == left[i];
    }
    forall i | 0 <= i < |right| ensures b.covers[first + |left| + i] == right[i].covers {
      assert (left + right)[|left| + i] == right[i];
    }
  }

  lemma FindsInParts(rt: Runtime, schemas: Schemas, b: Loading, plan: Plan, r: Resolver, first: nat)
    requires plan.Join? || plan.CrossProduct?
    requires Finds(rt, schemas, b, plan, r, first)
    ensures Finds(rt, schemas, b, plan.left, r, first)
    ensures Finds(rt, schemas, b, plan.right, CompileNode(rt.host, schemas, plan.left, r).1, first + |Reads(plan.left)|)
  {
    hide CompileNode, Reads;
  }

  lemma LostInParts(rt: Runtime, schemas: Schemas, b: Loading, plan: Plan, r: Resolver, first: nat)
    requires plan.Join? || plan.CrossProduct?
    ensures NothingLost(rt, schemas, b, plan, r, first)
       <==> (&& NothingLost(rt, schemas, b, plan.left, r, first)
             && NothingLost(rt, schemas, b, plan.right, CompileNode(rt.host, schemas, plan.left, r).1, first + |Reads(plan.left)|))
  {
    hide CompileNode, Reads;
  }

  lemma {:induction false} BothBoot(rt: Runtime, schemas: Schemas, b: Loading, plan: Plan, r: Resolver, first: nat)
    requires plan.Join? || plan.CrossProduct?
    requires CompileNode(rt.host, schemas, plan, r).0.Some? && EmptyLeaves(plan) == 0
    requires Flagged(b, Reads(plan), first) && Finds(rt, schemas, b, plan, r, first)
    ensures var d := CompileNode(rt.host, schemas, plan, r).0.value.dataflow;
      && (Boots(rt, b, d, first) <==> NothingLost(rt, schemas, b, plan, r, first))
      && (StatesRight(rt, b, d, first) <==> NothingLost(rt, schemas, b, plan, r, first))
    decreases plan, 0
  {
    hide Boots, Rows, Booted, NothingLost, Finds, Flagged;
    FindsInParts(rt, schemas, b, plan, r, first);
    LostInParts(rt, schemas, b, plan, r, first);
    var l := CompileNode(rt.host, schemas, plan.left, r);
    var c := CompileNode(rt.host, schemas, plan.right, l.1);
    FlaggedParts(b, Reads(plan.left), Reads(plan.right), first);
    SourcesAreReads(rt.host, schemas, plan.left, r);
    BootsExactly(rt, schemas, b, plan.left, r, first);
    BootsExactly(rt, schemas, b, plan.right, l.1, first + |Reads(plan.left)|);
    if plan.Join? {
      JoinBoots(rt, b, l.0.value, c.0.value, plan.condition, plan.joinType, plan.outputTables, first);
    } else {
      BootsByInputs(rt, b, CompileCross(l.0.value, c.0.value).dataflow, first);
    }
  }

  lemma IndexParts(rt: Runtime, schemas: Schemas, b: Loading, plan: Plan, r: Resolver, first: nat)
    requires plan.IndexNestedLoopJoin? && Finds(rt, schemas, b, plan, r, first)
    ensures var at := if plan.outerIsLeft then first else first + 1;
      && Finds(rt, schemas, b, plan.outer, r, at)
      && (NothingLost(rt, schemas, b, plan, r, first) <==> NothingLost(rt, schemas, b, plan.outer, r, at))
    ensures b.load(if plan.outerIsLeft then first + |Reads(plan.outer)| else first)
         == LeafRows(rt, schemas, TableScan(plan.innerTable), CompileNode(rt.host, schemas, plan.outer, r).1)
  {
    hide CompileNode, LeafRows, Reads;
  }

  /** The inner table of an index join is loaded whole. */
  lemma InnerBoots(rt: Runtime, schemas: Schemas, b: Loading, table: string, r: Resolver, at: nat)
    requires CompileSource(schemas, table, r).0.Some? && b.load(at) == LeafRows(rt, schemas, TableScan(table), r)
    ensures Boots(rt, b, CompileSource(schemas, table, r).0.value.dataflow, at)
  {
    var d := CompileSource(schemas, table, r).0.value.dataflow;
    assert Some(d) == Some(CompileNode(rt.host, schemas, TableScan(table), r).0.value.dataflow);
    hide CompileNode, Boots;
    BootsByInputs(rt, b, d, at);
    RowsOfSource(rt, d);
  }

  lemma IndexReads(plan: Plan)
    requires plan.IndexNestedLoopJoin?
    ensures var inner := [Leaf(plan.innerTable, false)];
      Reads(plan) == if plan.outerIsLeft then Reads(plan.outer) + inner else inner + Reads(plan.outer)
    ensures EmptyLeaves(plan) == EmptyLeaves(plan.outer)
  {}

  lemma {:induction false} IndexJoinBoots(rt: Runtime, schemas: Schemas, b: Loading, plan: Plan, r: Resolver, first: nat)
    requires plan.IndexNestedLoopJoin?
    requires CompileNode(rt.host, schemas, plan, r).0.Some? && EmptyLeaves(plan) == 0
    requires Flagged(b, Reads(plan), first) && Finds(rt, schemas, b, plan, r, first)
    ensures var d := CompileNode(rt.host, schemas, plan, r).0.value.dataflow;
      && (Boots(rt, b, d, first) <==> NothingLost(rt, schemas, b, plan, r, first))
      && (StatesRight(rt, b, d, first) <==> NothingLost(rt, schemas, b, plan, r, first))
    decreases plan, 0
  {
    hide Boots, Rows, Booted, Flagged, NothingLost, Finds, StatesRight, EmptyLeaves, Reads, Sources;
    hide CompileJoin, CompileSource, LeafRows;
    IndexParts(rt, schemas, b, plan, r, first);
    IndexReads(plan);
    var o := CompileNode(rt.host, schemas, plan.outer, r);
    var i := CompileSource(schemas, plan.innerTable, o.1).0.value;
    SourcesAreReads(rt.host, schemas, plan.outer, r);
    if plan.outerIsLeft {
      FlaggedParts(b, Reads(plan.outer), [Leaf(plan.innerTable, false)], first);
      BootsExactly(rt, schemas, b, plan.outer, r, first);
      InnerBoots(rt, schemas, b, plan.innerTable, o.1, first + |Reads(plan.outer)|);
      JoinBoots(rt, b, o.0.value, i, plan.condition, plan.joinType, plan.outputTables, first);
    } else {
      FlaggedParts(b, [Leaf(plan.innerTable, false)], Reads(plan.outer), first);
      BootsExactly(rt, schemas, b, plan.outer, r, first + 1);
      InnerBoots(rt, schemas, b, plan.innerTable, o.1, first);
      OneSource(schemas, plan.innerTable, o.1);
      JoinBoots(rt, b, i, o.0.value, plan.condition, plan.joinType, plan.outputTables, first);
    }
  }

  lemma OneSource(schemas: Schemas, table: string, r: Resolver)
    requires CompileSource(schemas, table, r).0.Some?
    ensures |Sources(CompileSource(schemas, table, r).0.value.dataflow)| == 1
  {}

  /** Main result for the state of joins and aggregates, under the flags of the plan's binding list. */
  lemma {:induction false} StatesExactly(rt: Runtime, schemas: Schemas, b: Loading, plan: Plan, r: Resolver, first: nat)
    requires CompileNode(rt.host, schemas, plan, r).0.Some? && EmptyLeaves(plan) == 0
    requires Flagged(b, Reads(plan), first) && Finds(rt, schemas, b, plan, r, first)
    ensures StatesRight(rt, b, CompileNode(rt.host, schemas, plan, r).0.value.dataflow, first)
       <==> InputsLoseNothing(rt, schemas, b, plan, r, first)
    decreases plan
  {
    hide Boots, Rows, Booted, NothingLost;
    match plan
    case Filter(input, _) => StatesExactly(rt, schemas, b, input, r, first);
    case Project(input, _) => StatesExactly(rt, schemas, b, input, r, first);
    case NoOp(input) => StatesExactly(rt, schemas, b, input, r, first);
    case HashAggregate(input, _, _) => BootsExactly(rt, schemas, b, input, r, first);
    case Join(_, _, _, _, _) => BothBoot(rt, schemas, b, plan, r, first);
    case CrossProduct(_, _) => BothBoot(rt, schemas, b, plan, r, first);
    case IndexNestedLoopJoin(_, _, _, _, _, _) => IndexJoinBoots(rt, schemas, b, plan, r, first);
    case _ => LeafCompiles(rt.host, schemas, plan, r);
  }

  function FlagsOf(bindings: seq<Binding>): seq<bool> {
    seq(|bindings|, i requires 0 <= i < |bindings| => bindings[i].covers)
  }

  lemma {:induction false} BindingFlags(ids: map<string, TableId>, leaves: seq<Leaf>, start: nat)
    requires forall i :: 0 <= i < |leaves| ==> leaves[i].table in ids
    ensures var bindings := BindingsFor(ids, leaves, start);
      |bindings| == |leaves| && forall i :: 0 <= i < |leaves| ==> bindings[i].covers == leaves[i].covers
    decreases |leaves|
  {
    if leaves != [] {
      BindingFlags(ids, leaves[1..], start + 1);
    }
  }

  /** A live plan built with its own binding list. */
  lemma ViewStartsExactly(rt: Runtime, schemas: Schemas, load: nat -> seq<Row>, plan: Plan, r: Resolver)
    requires CompileNode(rt.host, schemas, plan, r).0.Some? && EmptyLeaves(plan) == 0
    requires var b := Loading(FlagsOf(BindingsFor(CompileNode(rt.host, schemas, plan, r).1.used, Reads(plan), 0)), load);
      Finds(rt, schemas, b, plan, r, 0)
    ensures var (c, r1) := CompileNode(rt.host, schemas, plan, r);
      var b := Loading(FlagsOf(BindingsFor(r1.used, Reads(plan), 0)), load);
      StatesRight(rt, b, c.value.dataflow, 0) <==> InputsLoseNothing(rt, schemas, b, plan, r, 0)
  {
    hide CompileNode, StatesRight, InputsLoseNothing, Finds, Reads, BindingsFor;
    var ids := CompileNode(rt.host, schemas, plan, r).1.used;
    CompiledAligned(rt.host, schemas, plan, r);
    BindingFlags(ids, Reads(plan), 0);
    StatesExactly(rt, schemas, Loading(FlagsOf(BindingsFor(ids, Reads(plan), 0)), load), plan, r, 0);
  }

  // ----- A lost filter -------------------------------------------------------------------------

  const ALL_ROWS: Plan := IndexScan("t", "pk", Unbounded, None, None, false)

  const FIRST_ID: Expr := EqualTo(ColumnRef("t", "id", 0), Int32(1))

  const TWO_ROWS: seq<Row> := [[Int32(1)], [Int32(2)]]

  /** The failing input: rows 1 and 2 read in the order of an index, and the filter id = 1 over them.
      The binding of the scan claims to cover a filter, and what stands above starts with both rows. */
  lemma SkippedFilterLetsRowsIn(rt: Runtime, r: Resolver)
    requires rt.sources(r.Resolve("t").0) == TWO_ROWS
    ensures var (c, r1) := CompileNode(rt.host, IndexScans.OneTable(), Filter(ALL_ROWS, FIRST_ID), r);
      var flags := FlagsOf(BindingsFor(r1.used, Reads(Filter(ALL_ROWS, FIRST_ID)), 0));
      && c.Some? && Rows(rt, c.value.dataflow) == [[Int32(1)]]
      && Booted(rt, Loading(flags, n => TWO_ROWS), c.value.dataflow, 0) == TWO_ROWS
  {
    WholeScanCompiles(rt.host, r);
    var source := Compiled(Source(r.Resolve("t").0), TableLayout("t", 1));
    OnlyFirstPasses(rt, source);
    var r1 := r.Resolve("t").1;
    OneFlag(r1.used, Leaf("t", true));
    hide CompileNode, Resolver.Resolve, AcceptsRow, FilterSeq, BindingsFor, FlagsOf;
    assert Reads(Filter(ALL_ROWS, FIRST_ID)) == [Leaf("t", true)];
    var d := Filtered(rt.host, source, FIRST_ID).dataflow;
    assert Loading([true], n => TWO_ROWS).Skips(d.input, 0);
  }

  lemma WholeScanCompiles(host: Host, r: Resolver)
    ensures CompileNode(host, IndexScans.OneTable(), Filter(ALL_ROWS, FIRST_ID), r)
         == (Some(Filtered(host, Compiled(Source(r.Resolve("t").0), TableLayout("t", 1)), FIRST_ID)), r.Resolve("t").1)
    ensures "t" in r.Resolve("t").1.used
  {
    var columns := IndexScans.KeyColumn();
    hide Filtered, LookupIndexColumns;
  }

  lemma OnlyFirstPasses(rt: Runtime, source: Compiled)
    requires Rows(rt, source.dataflow) == TWO_ROWS && source.layout == TableLayout("t", 1)
    ensures Rows(rt, Filtered(rt.host, source, FIRST_ID).dataflow) == [[Int32(1)]]
  {
    var accepts := AcceptsRow(rt.host, CompilePredicate(rt.host, FIRST_ID));
    BoundFirst();
    CompiledExactly(rt.host, FIRST_ID, [Int32(1)]);
    CompiledExactly(rt.host, FIRST_ID, [Int32(2)]);
    assert Rows(rt, Filtered(rt.host, source, FIRST_ID).dataflow) == FilterSeq(TWO_ROWS, accepts);
    FilterTwo(accepts);
  }

  lemma BoundFirst()
    ensures Rebind(FIRST_ID, TableLayout("t", 1).Bind()) == FIRST_ID
  {
    assert TableLayout("t", 1).ResolveColumnIndex("t", 0) == 0;
  }

  lemma FilterTwo(accepts: Row -> bool)
    requires accepts([Int32(1)]) && !accepts([Int32(2)])
    ensures FilterSeq(TWO_ROWS, accepts) == [[Int32(1)]]
  {
    assert TWO_ROWS[1..] == [[Int32(2)]] && TWO_ROWS[1..][1..] == [];
    assert FilterSeq(TWO_ROWS[1..][1..], accepts) == [];
    assert FilterSeq(TWO_ROWS[1..], accepts) == [];
  }

  lemma OneFlag(ids: map<string, TableId>, leaf: Leaf)
    requires leaf.table in ids
    ensures FlagsOf(BindingsFor(ids, [leaf], 0)) == [leaf.covers]
  {
    assert [leaf][1..] == [];
  }
}
