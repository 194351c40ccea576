/** Joins without an equality across the sides (crates/database/src/dataflow_compiler.rs).

  When a condition yields no key positions, both sides are compiled to whole rows as keys: two tuples
  are paired when their flat rows are equal, whatever the condition says. */
module KeylessJoins {
  import opened Options
  import opened Values
  import opened Expressions
  import opened Layouts
  import opened Joins
  import opened Plans
  import opened PlanCompiler
  import opened IgnoredConjuncts

  /** The pairs with equal flat rows. */
  function WholeRows(tl: seq<string>, tr: seq<string>, width: Widths): (Env, Env) -> bool {
    (l: Env, r: Env) => Flatten(tl, width, l) == Flatten(tr, width, r)
  }

  lemma WholeRowsByRows(width: Widths, tl: seq<string>, tr: seq<string>)
    requires Disjoint(tl, tr)
    ensures ByRows(WholeRows(tl, tr, width), width, tl, tr)
  {
    forall l, r, l', r' | SameRows(width, tl, tr, l, r, l', r')
      ensures WholeRows(tl, tr, width)(l, r) == WholeRows(tl, tr, width)(l', r')
    {
      SidesOfMerged(width, tl, tr, l, r);
      SidesOfMerged(width, tl, tr, l', r');
      FlattenSame(tl, width, l, l');
      FlattenSame(tr, width, r, r');
    }
  }

  lemma SidesOfMerged(width: Widths, tl: seq<string>, tr: seq<string>, l: Env, r: Env)
    requires Disjoint(tl, tr) && Typed(l, tl, width) && Typed(r, tr, width)
    ensures forall t :: t in tl ==> t in tl + tr && Part(l + r, t, width) == Part(l, t, width)
    ensures forall t :: t in tr ==> t in tl + tr && Part(l + r, t, width) == Part(r, t, width)
  {}

  /** The same pairs are joined. */
  predicate SameMatches(ls: seq<Env>, rs: seq<Env>, on: (Env, Env) -> bool, other: (Env, Env) -> bool) {
    forall l, r :: l in ls && r in rs ==> on(l, r) == other(l, r)
  }

  /** Two joins show the same rows exactly when they join the same pairs. */
  lemma SameRowsNeedSameMatches(width: Widths, tl: seq<string>, tr: seq<string>, ls: seq<Env>, rs: seq<Env>,
                                on: (Env, Env) -> bool, other: (Env, Env) -> bool, joinType: JoinType, output: seq<string>)
    requires AllTyped(tl, width, ls) && AllTyped(tr, width, rs) && Disjoint(tl, tr)
    requires PaddingShows(width, tl, tr, ls, rs, joinType, output)
    requires ByRows(on, width, tl, tr) && ByRows(other, width, tl, tr)
    ensures MapSeq(JoinSeq(JoinWith(on, joinType, tl, tr), ls, rs), Shown(output, width))
         == MapSeq(JoinSeq(JoinWith(other, joinType, tl, tr), ls, rs), Shown(output, width))
       <==> SameMatches(ls, rs, on, other)
  {
    if SameMatches(ls, rs, on, other) {
      NoExtraSame(JoinWith(on, joinType, tl, tr), JoinWith(other, joinType, tl, tr), ls, rs);
    } else {
      var l, r :| l in ls && r in rs && on(l, r) != other(l, r);
      hide Shown, JoinSeq, PaddingShows, ByRows, Typed, JoinWith;
      if on(l, r) {
        LostPairShows(width, tl, tr, ls, rs, on, other, joinType, output, l, r);
      } else {
        LostPairShows(width, tl, tr, ls, rs, other, on, joinType, output, l, r);
      }
    }
  }

  /** The compiled join yields the environments joined by whole rows. */
  lemma KeylessJoinRows(rt: Runtime, width: Widths, tl: seq<string>, tr: seq<string>, ls: seq<Env>, rs: seq<Env>,
                        left: Compiled, right: Compiled, condition: Expr, joinType: JoinType, output: seq<string>)
    requires Preserved(rt, width, tl, ls, left) && Preserved(rt, width, tr, rs, right) && GoodJoin(tl, tr, output)
    requires EquiKeys(condition, left.layout, right.layout) == ([], [])
    ensures Rows(rt, CompileJoin(left, right, condition, joinType, output).dataflow)
         == MapSeq(JoinSeq(JoinWith(WholeRows(tl, tr, width), joinType, tl, tr), ls, rs), Shown(output, width))
  {
    var on := WholeRows(tl, tr, width);
    JoinNodePreserved(rt, width, tl, tr, ls, rs, left, right, on, joinType, OnWholeRow, OnWholeRow);
    var join := Compiled(Joining(left.dataflow, right.dataflow, OnWholeRow, OnWholeRow, joinType.KeepsLeft(),
                                 joinType.KeepsRight(), left.layout.TotalWidth(), right.layout.TotalWidth()),
                         Combined(left.layout, right.layout));
    var joined := JoinSeq(JoinWith(on, joinType, tl, tr), ls, rs);
    ReorderPreserved(rt, width, tl + tr, joined, join, output);
    ShownTwice(joined, output, width);
  }

  /** Tuples with equal flat rows, and no others, meet the condition. */
  ghost predicate WholeRowsDecide(host: Host, condition: Expr, width: Widths, tl: seq<string>, tr: seq<string>,
                                  ls: seq<Env>, rs: seq<Env>) {
    forall l, r :: l in ls && r in rs ==>
      (Flatten(tl, width, l) == Flatten(tr, width, r) <==> IsTrue(EvalWith(host, condition, ColumnIn(l + r))))
  }

  lemma SidesAreDisjoint(tl: seq<string>, tr: seq<string>, output: seq<string>)
    requires GoodJoin(tl, tr, output)
    ensures Disjoint(tl, tr)
  {}

  lemma CompiledKeylessExactly(rt: Runtime, width: Widths, tl: seq<string>, tr: seq<string>, ls: seq<Env>, rs: seq<Env>,
                               left: Compiled, right: Compiled, condition: Expr, joinType: JoinType, output: seq<string>)
    requires Preserved(rt, width, tl, ls, left) && Preserved(rt, width, tr, rs, right) && GoodJoin(tl, tr, output)
    requires EquiKeys(condition, left.layout, right.layout) == ([], [])
    requires PaddingShows(width, tl, tr, ls, rs, joinType, output)
    ensures Rows(rt, CompileJoin(left, right, condition, joinType, output).dataflow)
         == MapSeq(MapSeq(JoinSeq(JoinEnvs(rt.host, condition, joinType, tl, tr), ls, rs), Restrict(output)), Flattening(output, width))
       <==> WholeRowsDecide(rt.host, condition, width, tl, tr, ls, rs)
  {
    SidesAreDisjoint(tl, tr, output);
    assert AllTyped(tl, width, ls) && AllTyped(tr, width, rs);
    MatchesDecide(rt.host, condition, width, tl, tr, ls, rs);
    assert JoinEnvs(rt.host, condition, joinType, tl, tr) == JoinWith(Meets(rt.host, condition), joinType, tl, tr);
    hide *;
    KeylessJoinRows(rt, width, tl, tr, ls, rs, left, right, condition, joinType, output);
    ShownTwice(JoinSeq(JoinEnvs(rt.host, condition, joinType, tl, tr), ls, rs), output, width);
    WholeRowsByRows(width, tl, tr);
    ConditionByRows(rt.host, condition, width, tl, tr);
    var on, other := WholeRows(tl, tr, width), Meets(rt.host, condition);
    SameRowsNeedSameMatches(width, tl, tr, ls, rs, on, other, joinType, output);
  }

  lemma MatchesDecide(host: Host, condition: Expr, width: Widths, tl: seq<string>, tr: seq<string>, ls: seq<Env>, rs: seq<Env>)
    ensures SameMatches(ls, rs, WholeRows(tl, tr, width), Meets(host, condition))
       <==> WholeRowsDecide(host, condition, width, tl, tr, ls, rs)
  {
    hide Flatten, EvalWith;
  }

  /** On whole plans: without an equality across the sides the rows of the compiled join are the plan's
      exactly when the condition holds of the input tuples with equal flat rows and of no others. */
  lemma KeylessJoinsRightlyExactly(rt: Runtime, schemas: Schemas, db: Database, left: Plan, right: Plan, condition: Expr,
                                   joinType: JoinType, output: seq<string>, r: Resolver)
    requires RowsFit(schemas, db) && Relational(schemas, db, left) && Relational(schemas, db, right) && Whole(left) && Whole(right)
    requires GoodJoin(TablesOf(left), TablesOf(right), output)
    requires EquiKeys(condition, LayoutFor(TablesOf(left), WidthsOf(schemas, left)),
                      LayoutFor(TablesOf(right), WidthsOf(schemas, right))) == ([], [])
    requires var compiled := CompileNode(rt.host, schemas, Join(left, right, condition, joinType, output), r);
      compiled.0.Some? && Feeds(rt, compiled.1, db)
    requires PaddingShows(JoinWidths(TablesOf(left), WidthsOf(schemas, left), WidthsOf(schemas, right)), TablesOf(left),
                          TablesOf(right), Meaning(rt.host, schemas, db, left), Meaning(rt.host, schemas, db, right), joinType, output)
    ensures var plan := Join(left, right, condition, joinType, output);
      Rows(rt, CompileNode(rt.host, schemas, plan, r).0.value.dataflow)
      == MapSeq(Meaning(rt.host, schemas, db, plan), Flattening(output, WidthsOf(schemas, plan)))
      <==> WholeRowsDecide(rt.host, condition, WidthsOf(schemas, plan), TablesOf(left), TablesOf(right),
                           Meaning(rt.host, schemas, db, left), Meaning(rt.host, schemas, db, right))
  {
    var plan := Join(left, right, condition, joinType, output);
    JoinUnfolds(rt.host, schemas, db, plan, r);
    hide *;
    var l := CompileNode(rt.host, schemas, left, r);
    var c := CompileNode(rt.host, schemas, right, l.1);
    assert Disjoint(TablesOf(left), TablesOf(right)) by {
      SidesAreDisjoint(TablesOf(left), TablesOf(right), output);
    }
    InputsPreserved(rt, schemas, db, left, right, r);
    var ls, rs := Meaning(rt.host, schemas, db, left), Meaning(rt.host, schemas, db, right);
    var width := JoinWidths(TablesOf(left), WidthsOf(schemas, left), WidthsOf(schemas, right));
    CompiledKeylessExactly(rt, width, TablesOf(left), TablesOf(right), ls, rs, l.0.value, c.0.value, condition, joinType, output);
  }

  // ----- The failing input ---------------------------------------------------------------------

  /** The key is the whole row: `a JOIN b ON a.v < b.v` has one row, and the
      compiled join yields none. */
  lemma WholeRowKeysLoseRows(host: Host, aggregate: (seq<Row>, seq<nat>, seq<(nat, AggregateFunc)>) -> seq<Row>)
    ensures var rt, plan := Runtime(host, FromTables(), aggregate), PairJoin(LESS);
            var compiled := CompileNode(host, TwoTables(), plan, Unnumbered());
      && RowsFit(TwoTables(), OneRowEach()) && compiled.0.Some? && Feeds(rt, compiled.1, OneRowEach())
      && |Meaning(host, TwoTables(), OneRowEach(), plan)| == 1
      && Rows(rt, compiled.0.value.dataflow) == []
  {
    hide Meaning, CompileNode, Rows, EvalWith;
    assert ExtractJoinKeys(LESS, TableLayout("a", 2), TableLayout("b", 2)) == (OnWholeRow, OnWholeRow) by {
      NoEqualityKeys(TableLayout("a", 2), TableLayout("b", 2));
    }
    PairJoinCompiled(host, LESS, OnWholeRow);
    PairMeaning(host, LESS);
    ValuesCompared(host);
    assert A_ROW[1] != B_ROW[1];
    PairRows(Runtime(host, FromTables(), aggregate), OnWholeRow);
  }
}
