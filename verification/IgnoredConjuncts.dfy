/** Join conditions the compiled join ignores in part (crates/database/src/dataflow_compiler.rs).

  A join is compiled to the key columns of its equalities; every other conjunct is dropped. When that
  changes the rows of the join is stated on whole plans. */
module IgnoredConjuncts {
  import opened Options
  import opened Values
  import opened Expressions
  import opened Layouts
  import opened Joins
  import opened Plans
  import opened PlanCompiler

  function Conjunction(condition: Expr, other: Expr): Expr { Binary(condition, And, other) }

  /** Tuples with equal keys that fail the other conjunct. */
  predicate Fails(host: Host, condition: Expr, other: Expr, l: Env, r: Env) {
    IsTrue(EvalWith(host, condition, ColumnIn(l + r))) && !IsTrue(EvalWith(host, other, ColumnIn(l + r)))
  }

  ghost predicate SomePairFails(host: Host, condition: Expr, other: Expr, ls: seq<Env>, rs: seq<Env>) {
    exists l, r :: l in ls && r in rs && Fails(host, condition, other, l, r)
  }

  lemma ConjunctionIsStricter(host: Host, condition: Expr, other: Expr, joinType: JoinType, tl: seq<string>, tr: seq<string>,
                              ls: seq<Env>, rs: seq<Env>)
    ensures var j := JoinEnvs(host, condition, joinType, tl, tr);
            var strict := JoinEnvs(host, Conjunction(condition, other), joinType, tl, tr);
      && Stricter(j, strict, ls, rs)
      && forall l, r :: Extra(j, strict, l, r) <==> Fails(host, condition, other, l, r)
  {
    forall l: Env, r: Env
      ensures IsTrue(EvalWith(host, Conjunction(condition, other), ColumnIn(l + r)))
         <==> IsTrue(EvalWith(host, condition, ColumnIn(l + r))) && IsTrue(EvalWith(host, other, ColumnIn(l + r)))
    {}
  }

  // ----- What a flat row tells -----------------------------------------------------------------

  lemma {:induction false} FlattenTells(tables: seq<string>, width: Widths, env: Env, same: Env)
    requires PartsFit(tables, width, env) && PartsFit(tables, width, same)
    requires Flatten(tables, width, env) == Flatten(tables, width, same)
    ensures forall t :: t in tables ==> Part(env, t, width) == Part(same, t, width)
  {
    if tables != [] {
      var t := tables[0];
      assert t in tables;
      assert |Part(env, t, width)| == |Part(same, t, width)|;
      ConcatEqual(Part(env, t, width), Flatten(tables[1..], width, env), Part(same, t, width), Flatten(tables[1..], width, same));
      FlattenTells(tables[1..], width, env, same);
    }
  }

  /** Environments with the same tuples give every expression the same value. */
  lemma SamePartsSameValue(host: Host, e: Expr, tables: seq<string>, width: Widths, env: Env, same: Env)
    requires Typed(env, tables, width) && Typed(same, tables, width)
    requires forall t :: t in tables ==> Part(env, t, width) == Part(same, t, width)
    ensures EvalWith(host, e, ColumnIn(env)) == EvalWith(host, e, ColumnIn(same))
  {
    forall c | c in Columns(e) ensures ColumnIn(env)(Same()(c)) == ColumnIn(same)(c) {
      PartTellsColumn(tables, width, env, c);
      PartTellsColumn(tables, width, same, c);
    }
    RebindMeaning(host, e, Same(), ColumnIn(env), ColumnIn(same));
    RebindSame(e);
  }

  lemma PartTellsColumn(tables: seq<string>, width: Widths, env: Env, c: ColumnRef)
    requires Typed(env, tables, width)
    ensures ColumnIn(env)(c)
         == if c.table in tables && c.index < |Part(env, c.table, width)| then Part(env, c.table, width)[c.index] else Null
  {}

  predicate AllNulls(row: Row) { forall i :: 0 <= i < |row| ==> row[i] == Null }

  /** The flat row of the output tables. */
  function Shown(output: seq<string>, width: Widths): Env -> Row {
    (env: Env) => Flatten(output, width, Restrict(output)(env))
  }

  lemma ShownParts(output: seq<string>, tables: seq<string>, width: Widths, env: Env, same: Env)
    requires Typed(env, tables, width) && Typed(same, tables, width)
    requires forall t :: t in output <==> t in tables
    requires Shown(output, width)(env) == Shown(output, width)(same)
    ensures forall t :: t in tables ==> Part(env, t, width) == Part(same, t, width)
  {
    var e, s := Restrict(output)(env), Restrict(output)(same);
    RestrictTyped(width, tables, output, env);
    RestrictTyped(width, tables, output, same);
    TypedFits(output, width, e);
    TypedFits(output, width, s);
    FlattenTells(output, width, e, s);
    forall t | t in tables ensures Part(env, t, width) == Part(same, t, width) {
      assert Part(e, t, width) == Part(env, t, width) && Part(s, t, width) == Part(same, t, width);
    }
  }

  // ----- A failing pair shows ------------------------------------------------------------------

  /** Every table is in the output, and the input rows that an outer join can pair with padding hold
      some value: padded rows can be told from merged ones. */
  ghost predicate PaddingShows(width: Widths, tl: seq<string>, tr: seq<string>, ls: seq<Env>, rs: seq<Env>, joinType: JoinType,
                               output: seq<string>) {
    && (forall t :: t in output <==> t in tl + tr)
    && (joinType.KeepsLeft() ==> forall r :: r in rs ==> !AllNulls(Flatten(tr, width, r)))
    && (joinType.KeepsRight() ==> forall l :: l in ls ==> !AllNulls(Flatten(tl, width, l)))
  }

  /** A merged row is no padded row. */
  lemma MergedIsNotPadded(width: Widths, tl: seq<string>, tr: seq<string>, output: seq<string>, l: Env, r: Env, kept: Env)
    requires Typed(l, tl, width) && Typed(r, tr, width) && Disjoint(tl, tr) && forall t :: t in output <==> t in tl + tr
    ensures Typed(kept, tl, width) && Shown(output, width)(l + r) == Shown(output, width)(kept + NoTuples(tr)) ==>
              AllNulls(Flatten(tr, width, r))
    ensures Typed(kept, tr, width) && Shown(output, width)(l + r) == Shown(output, width)(NoTuples(tl) + kept) ==>
              AllNulls(Flatten(tl, width, l))
  {
    MergedTyped(width, tl, tr, l, r);
    NoTuplesTyped(width, tl);
    NoTuplesTyped(width, tr);
    if Typed(kept, tl, width) && Shown(output, width)(l + r) == Shown(output, width)(kept + NoTuples(tr)) {
      MergedTyped(width, tl, tr, kept, NoTuples(tr));
      ShownParts(output, tl + tr, width, l + r, kept + NoTuples(tr));
      SideIsNull(width, tr, l + r, kept + NoTuples(tr), r);
    }
    if Typed(kept, tr, width) && Shown(output, width)(l + r) == Shown(output, width)(NoTuples(tl) + kept) {
      MergedTyped(width, tl, tr, NoTuples(tl), kept);
      ShownParts(output, tl + tr, width, l + r, NoTuples(tl) + kept);
      assert forall t :: t in tl ==> t !in tr;
      SideIsNull(width, tl, l + r, NoTuples(tl) + kept, l);
    }
  }

  lemma SideIsNull(width: Widths, side: seq<string>, merged: Env, padded: Env, env: Env)
    requires forall t :: t in side ==> Part(merged, t, width) == Part(padded, t, width)
    requires forall t :: t in side ==> Part(padded, t, width) == Nulls(width(t))
    requires forall t :: t in side ==> Part(merged, t, width) == Part(env, t, width)
    ensures AllNulls(Flatten(side, width, env))
  {
    NoTuplesRow(width, side, side);
    FlattenSame(side, width, env, NoTuples(side));
  }

  /** Whether a pair is joined depends on its tuples only. */
  ghost predicate ByRows(on: (Env, Env) -> bool, width: Widths, tl: seq<string>, tr: seq<string>) {
    forall l, r, l', r' ::
      SameRows(width, tl, tr, l, r, l', r') ==> on(l, r) == on(l', r')
  }

  ghost predicate SameRows(width: Widths, tl: seq<string>, tr: seq<string>, l: Env, r: Env, l': Env, r': Env) {
    && Typed(l, tl, width) && Typed(r, tr, width) && Typed(l', tl, width) && Typed(r', tr, width)
    && forall t :: t in tl + tr ==> Part(l + r, t, width) == Part(l' + r', t, width)
  }

  lemma ConditionByRows(host: Host, condition: Expr, width: Widths, tl: seq<string>, tr: seq<string>)
    ensures ByRows(Meets(host, condition), width, tl, tr)
  {
    forall l, r, l', r' | SameRows(width, tl, tr, l, r, l', r')
      ensures Meets(host, condition)(l, r) == Meets(host, condition)(l', r')
    {
      MergedTyped(width, tl, tr, l, r);
      MergedTyped(width, tl, tr, l', r');
      SamePartsSameValue(host, condition, tl + tr, width, l + r, l' + r');
    }
  }

  /** A joined pair shows another row than one that is not joined. */
  lemma OtherPairDiffers(width: Widths, tl: seq<string>, tr: seq<string>, on: (Env, Env) -> bool,
                         output: seq<string>, l0: Env, r0: Env, l: Env, r: Env)
    requires Typed(l, tl, width) && Typed(r, tr, width) && Typed(l0, tl, width) && Typed(r0, tr, width)
    requires forall t :: t in output <==> t in tl + tr
    requires ByRows(on, width, tl, tr) && on(l, r) && !on(l0, r0)
    ensures Shown(output, width)(l + r) != Shown(output, width)(l0 + r0)
  {
    MergedTyped(width, tl, tr, l, r);
    MergedTyped(width, tl, tr, l0, r0);
    if Shown(output, width)(l + r) == Shown(output, width)(l0 + r0) {
      ShownParts(output, tl + tr, width, l + r, l0 + r0);
      assert SameRows(width, tl, tr, l, r, l0, r0);
    }
  }

  /** A pair that one join has and the other lost: its row is shown by the first and not by the second. */
  lemma LostPairShows(width: Widths, tl: seq<string>, tr: seq<string>, ls: seq<Env>, rs: seq<Env>,
                      on: (Env, Env) -> bool, other: (Env, Env) -> bool, joinType: JoinType, output: seq<string>, l0: Env, r0: Env)
    requires AllTyped(tl, width, ls) && AllTyped(tr, width, rs) && Disjoint(tl, tr)
    requires PaddingShows(width, tl, tr, ls, rs, joinType, output) && ByRows(other, width, tl, tr)
    requires l0 in ls && r0 in rs && on(l0, r0) && !other(l0, r0)
    ensures var row, show := Shown(output, width)(l0 + r0), Shown(output, width);
      && row in MapSeq(JoinSeq(JoinWith(on, joinType, tl, tr), ls, rs), show)
      && row !in MapSeq(JoinSeq(JoinWith(other, joinType, tl, tr), ls, rs), show)
  {
    var j := JoinWith(on, joinType, tl, tr);
    var joined := JoinSeq(JoinWith(other, joinType, tl, tr), ls, rs);
    MatchIsJoined(j, l0, r0, ls, rs);
    MappedIn(JoinSeq(j, ls, rs), Shown(output, width), l0 + r0);
    OthersDiffer(width, tl, tr, ls, rs, other, joinType, output, l0, r0);
    hide JoinWith, Shown, Typed, JoinSeq, PaddingShows, ByRows;
    forall row | row in MapSeq(joined, Shown(output, width)) ensures row != Shown(output, width)(l0 + r0) {
      var k :| 0 <= k < |joined| && row == Shown(output, width)(joined[k]);
      assert joined[k] in joined;
    }
  }

  lemma OthersDiffer(width: Widths, tl: seq<string>, tr: seq<string>, ls: seq<Env>, rs: seq<Env>,
                     on: (Env, Env) -> bool, joinType: JoinType, output: seq<string>, l0: Env, r0: Env)
    requires AllTyped(tl, width, ls) && AllTyped(tr, width, rs) && Disjoint(tl, tr)
    requires PaddingShows(width, tl, tr, ls, rs, joinType, output) && ByRows(on, width, tl, tr)
    requires l0 in ls && r0 in rs && !on(l0, r0)
    ensures forall env :: env in JoinSeq(JoinWith(on, joinType, tl, tr), ls, rs) ==>
              Shown(output, width)(env) != Shown(output, width)(l0 + r0)
  {
    var j := JoinWith(on, joinType, tl, tr);
    var good := (env: Env) => Shown(output, width)(env) != Shown(output, width)(l0 + r0);
    hide Typed, Disjoint, Shown, AllNulls, Flatten, NoTuples, ByRows;
    forall l, r | l in ls && r in rs && j.on(l, r) ensures good(j.merge(l, r)) {
      OtherPairDiffers(width, tl, tr, on, output, l0, r0, l, r);
    }
    forall l | l in ls && j.keepLeft ensures good(j.padRight(l)) {
      MergedIsNotPadded(width, tl, tr, output, l0, r0, l);
    }
    forall r | r in rs && j.keepRight ensures good(j.padLeft(r)) {
      MergedIsNotPadded(width, tl, tr, output, l0, r0, r);
    }
    JoinElements(j, ls, rs, good);
  }

  /** The row of a failing pair is among the compiled rows and not among the rows of the plan. */
  lemma FailingPairShows(host: Host, width: Widths, tl: seq<string>, tr: seq<string>, ls: seq<Env>, rs: seq<Env>,
                         condition: Expr, other: Expr, joinType: JoinType, output: seq<string>, l0: Env, r0: Env)
    requires AllTyped(tl, width, ls) && AllTyped(tr, width, rs) && Disjoint(tl, tr)
    requires PaddingShows(width, tl, tr, ls, rs, joinType, output)
    requires l0 in ls && r0 in rs && Fails(host, condition, other, l0, r0)
    ensures var row, show := Shown(output, width)(l0 + r0), Shown(output, width);
      && row in MapSeq(JoinSeq(JoinEnvs(host, condition, joinType, tl, tr), ls, rs), show)
      && row !in MapSeq(JoinSeq(JoinEnvs(host, Conjunction(condition, other), joinType, tl, tr), ls, rs), show)
  {
    ConditionByRows(host, Conjunction(condition, other), width, tl, tr);
    hide Shown, JoinSeq, PaddingShows, ByRows, Typed;
    LostPairShows(width, tl, tr, ls, rs, Meets(host, condition), Meets(host, Conjunction(condition, other)), joinType, output, l0, r0);
  }

  lemma MappedIn<A, B>(s: seq<A>, f: A -> B, a: A)
    requires a in s
    ensures f(a) in MapSeq(s, f)
  {
    var k :| 0 <= k < |s| && s[k] == a;
    assert MapSeq(s, f)[k] == f(a);
  }

  lemma InnerIsLonger(host: Host, tl: seq<string>, tr: seq<string>, ls: seq<Env>, rs: seq<Env>,
                      condition: Expr, other: Expr, joinType: JoinType)
    requires !joinType.KeepsLeft() && !joinType.KeepsRight() && SomePairFails(host, condition, other, ls, rs)
    ensures |JoinSeq(JoinEnvs(host, Conjunction(condition, other), joinType, tl, tr), ls, rs)|
          < |JoinSeq(JoinEnvs(host, condition, joinType, tl, tr), ls, rs)|
  {
    var j, strict := JoinEnvs(host, condition, joinType, tl, tr), JoinEnvs(host, Conjunction(condition, other), joinType, tl, tr);
    ConjunctionIsStricter(host, condition, other, joinType, tl, tr, ls, rs);
    ExtraIsLonger(j, strict, ls, rs);
  }

  /** The joins under both conditions show the same rows exactly when no pair fails. An outer join
      needs rows it can tell from padding; an inner join needs nothing. */
  lemma SameRowsExactly(host: Host, width: Widths, tl: seq<string>, tr: seq<string>, ls: seq<Env>, rs: seq<Env>,
                        condition: Expr, other: Expr, joinType: JoinType, output: seq<string>)
    requires AllTyped(tl, width, ls) && AllTyped(tr, width, rs) && Disjoint(tl, tr)
    requires joinType.KeepsLeft() || joinType.KeepsRight() ==> PaddingShows(width, tl, tr, ls, rs, joinType, output)
    ensures MapSeq(JoinSeq(JoinEnvs(host, condition, joinType, tl, tr), ls, rs), Shown(output, width))
         == MapSeq(JoinSeq(JoinEnvs(host, Conjunction(condition, other), joinType, tl, tr), ls, rs), Shown(output, width))
       <==> !SomePairFails(host, condition, other, ls, rs)
  {
    if SomePairFails(host, condition, other, ls, rs) {
      if joinType.KeepsLeft() || joinType.KeepsRight() {
        var l, r :| l in ls && r in rs && Fails(host, condition, other, l, r);
        FailingPairShows(host, width, tl, tr, ls, rs, condition, other, joinType, output, l, r);
      } else {
        InnerIsLonger(host, tl, tr, ls, rs, condition, other, joinType);
      }
    } else {
      ConjunctionIsStricter(host, condition, other, joinType, tl, tr, ls, rs);
      NoExtraSame(JoinEnvs(host, condition, joinType, tl, tr), JoinEnvs(host, Conjunction(condition, other), joinType, tl, tr), ls, rs);
    }
  }

  /** Why an outer join needs that: a match of nothing but NULLs looks like padding, so losing it does
      not show although the pair fails. */
  lemma NullRowHidesFailure(host: Host, width: Widths, tl: seq<string>, tr: seq<string>, condition: Expr, other: Expr,
                            output: seq<string>, l: Env, r: Env)
    requires Typed(l, tl, width) && Typed(r, tr, width) && Disjoint(tl, tr) && forall t :: t in output <==> t in tl + tr
    requires Fails(host, condition, other, l, r) && AllNulls(Flatten(tr, width, r))
    ensures SomePairFails(host, condition, other, [l], [r])
    ensures MapSeq(JoinSeq(JoinEnvs(host, condition, LeftOuter, tl, tr), [l], [r]), Shown(output, width))
         == MapSeq(JoinSeq(JoinEnvs(host, Conjunction(condition, other), LeftOuter, tl, tr), [l], [r]), Shown(output, width))
  {
    assert l in [l] && r in [r];
    ConjunctionIsStricter(host, condition, other, LeftOuter, tl, tr, [l], [r]);
    LeftPair(JoinEnvs(host, condition, LeftOuter, tl, tr), l, r);
    LeftPair(JoinEnvs(host, Conjunction(condition, other), LeftOuter, tl, tr), l, r);
    hide JoinEnvs, Fails;
    NullRowLooksPadded(width, tl, tr, output, l, r);
  }

  lemma LeftPair<L, R, O>(j: Joiner<L, R, O>, l: L, r: R)
    requires j.keepLeft && !j.keepRight
    ensures JoinSeq(j, [l], [r]) == [if j.on(l, r) then j.merge(l, r) else j.padRight(l)]
  {
    assert [r][1..] == [] && [l][1..] == [];
    assert Matches(j, l, [r]) == (if j.on(l, r) then [j.merge(l, r)] else []) + Matches(j, l, []);
    assert LeftRows(j, [l], [r])
        == (if Matches(j, l, [r]) == [] then [j.padRight(l)] else Matches(j, l, [r])) + LeftRows(j, [], [r]);
  }

  lemma NullRowLooksPadded(width: Widths, tl: seq<string>, tr: seq<string>, output: seq<string>, l: Env, r: Env)
    requires Typed(l, tl, width) && Typed(r, tr, width) && Disjoint(tl, tr) && forall t :: t in output <==> t in tl + tr
    requires AllNulls(Flatten(tr, width, r))
    ensures Shown(output, width)(l + r) == Shown(output, width)(l + NoTuples(tr))
  {
    NullRowParts(width, tr, r);
    var merged, padded := Restrict(output)(l + r), Restrict(output)(l + NoTuples(tr));
    hide AllNulls, Flatten;
    forall t | t in output ensures Part(merged, t, width) == Part(padded, t, width) {
      if t in tr {
        assert Part(merged, t, width) == Part(r, t, width) && Part(padded, t, width) == Part(NoTuples(tr), t, width);
      }
    }
    FlattenSame(output, width, merged, padded);
  }

  lemma NullRowParts(width: Widths, tables: seq<string>, env: Env)
    requires Typed(env, tables, width) && AllNulls(Flatten(tables, width, env))
    ensures forall t :: t in tables ==> Part(env, t, width) == Part(NoTuples(tables), t, width)
  {
    TypedFits(tables, width, env);
    NoTuplesTyped(width, tables);
    TypedFits(tables, width, NoTuples(tables));
    NoTuplesRow(width, tables, tables);
    FlattenWidth(tables, width, env);
    assert Flatten(tables, width, env) == Flatten(tables, width, NoTuples(tables));
    hide Typed, AllNulls, Flatten, Part;
    FlattenTells(tables, width, env, NoTuples(tables));
  }

  // ----- The compiled join ---------------------------------------------------------------------

  lemma ShownTwice(envs: seq<Env>, output: seq<string>, width: Widths)
    ensures MapSeq(MapSeq(envs, Restrict(output)), Flattening(output, width)) == MapSeq(envs, Shown(output, width))
  {}

  /** With a conjunct that yields no key positions, the compiled join yields the joined environments
      exactly when no two input tuples with equal keys fail the conjunct. */
  lemma CompiledJoinExactly(rt: Runtime, width: Widths, tl: seq<string>, tr: seq<string>, ls: seq<Env>, rs: seq<Env>,
                            left: Compiled, right: Compiled, condition: Expr, other: Expr, joinType: JoinType, output: seq<string>)
    requires Preserved(rt, width, tl, ls, left) && Preserved(rt, width, tr, rs, right)
    requires GoodJoin(tl, tr, output) && EquiCondition(tl, tr, width, condition)
    requires EquiKeys(other, left.layout, right.layout) == ([], [])
    requires joinType.KeepsLeft() || joinType.KeepsRight() ==> PaddingShows(width, tl, tr, ls, rs, joinType, output)
    ensures Rows(rt, CompileJoin(left, right, Conjunction(condition, other), joinType, output).dataflow)
         == MapSeq(MapSeq(JoinSeq(JoinEnvs(rt.host, Conjunction(condition, other), joinType, tl, tr), ls, rs), Restrict(output)),
                   Flattening(output, width))
       <==> !SomePairFails(rt.host, condition, other, ls, rs)
  {
    OtherConjunctsAreIgnored(left, right, condition, other, joinType, output);
    JoinPreserved(rt, width, tl, tr, ls, rs, left, right, condition, joinType, output);
    SameRowsExactly(rt.host, width, tl, tr, ls, rs, condition, other, joinType, output);
    ShownTwice(JoinSeq(JoinEnvs(rt.host, condition, joinType, tl, tr), ls, rs), output, width);
    ShownTwice(JoinSeq(JoinEnvs(rt.host, Conjunction(condition, other), joinType, tl, tr), ls, rs), output, width);
  }

  /** On whole plans: the rows of the compiled join are the plan's exactly when no two input tuples
      with equal keys fail the conjunct that the compiler ignores. */
  lemma JoinsRightlyExactly(rt: Runtime, schemas: Schemas, db: Database, left: Plan, right: Plan, condition: Expr, other: Expr,
                            joinType: JoinType, output: seq<string>, r: Resolver)
    requires RowsFit(schemas, db) && Relational(schemas, db, Join(left, right, condition, joinType, output))
    requires EquiKeys(other, LayoutFor(TablesOf(left), WidthsOf(schemas, left)), LayoutFor(TablesOf(right), WidthsOf(schemas, right)))
          == ([], [])
    requires var compiled := CompileNode(rt.host, schemas, Join(left, right, Conjunction(condition, other), joinType, output), r);
      compiled.0.Some? && Feeds(rt, compiled.1, db)
    requires var ls, rs := Meaning(rt.host, schemas, db, left), Meaning(rt.host, schemas, db, right);
      joinType.KeepsLeft() || joinType.KeepsRight() ==>
        PaddingShows(JoinWidths(TablesOf(left), WidthsOf(schemas, left), WidthsOf(schemas, right)),
                     TablesOf(left), TablesOf(right), ls, rs, joinType, output)
    ensures var plan := Join(left, right, Conjunction(condition, other), joinType, output);
      Rows(rt, CompileNode(rt.host, schemas, plan, r).0.value.dataflow)
      == MapSeq(Meaning(rt.host, schemas, db, plan), Flattening(output, WidthsOf(schemas, plan)))
      <==> !SomePairFails(rt.host, condition, other, Meaning(rt.host, schemas, db, left), Meaning(rt.host, schemas, db, right))
  {
    var plan := Join(left, right, Conjunction(condition, other), joinType, output);
    JoinUnfolds(rt.host, schemas, db, plan, r);
    RelationalJoin(schemas, db, Join(left, right, condition, joinType, output));
    hide *;
    var l := CompileNode(rt.host, schemas, left, r);
    var c := CompileNode(rt.host, schemas, right, l.1);
    InputsPreserved(rt, schemas, db, left, right, r);
    var ls, rs := Meaning(rt.host, schemas, db, left), Meaning(rt.host, schemas, db, right);
    var width := JoinWidths(TablesOf(left), WidthsOf(schemas, left), WidthsOf(schemas, right));
    CompiledJoinExactly(rt, width, TablesOf(left), TablesOf(right), ls, rs, l.0.value, c.0.value, condition, other, joinType, output);
  }

  lemma JoinUnfolds(host: Host, schemas: Schemas, db: Database, plan: Plan, r: Resolver)
    requires plan.Join?
    ensures var l := CompileNode(host, schemas, plan.left, r);
            var c := CompileNode(host, schemas, plan.right, l.1);
            var compiled := CompileNode(host, schemas, plan, r);
            var inputs := (TablesOf(plan.left), TablesOf(plan.right));
      && (compiled.0.Some? ==>
            && l.0.Some? && c.0.Some? && compiled.1 == c.1
            && compiled.0.value == CompileJoin(l.0.value, c.0.value, plan.condition, plan.joinType, plan.outputTables))
      && Meaning(host, schemas, db, plan)
      == MapSeq(JoinSeq(JoinEnvs(host, plan.condition, plan.joinType, inputs.0, inputs.1),
                        Meaning(host, schemas, db, plan.left), Meaning(host, schemas, db, plan.right)),
                Restrict(plan.outputTables))
      && WidthsOf(schemas, plan) == JoinWidths(inputs.0, WidthsOf(schemas, plan.left), WidthsOf(schemas, plan.right))
  {
    hide CompileJoin, JoinSeq, JoinEnvs, Restrict, CompileLeaf;
  }

  lemma RelationalJoin(schemas: Schemas, db: Database, plan: Plan)
    requires Relational(schemas, db, plan) && plan.Join?
    ensures Relational(schemas, db, plan.left) && Relational(schemas, db, plan.right) && Whole(plan.left) && Whole(plan.right)
    ensures var (tl, tr) := (TablesOf(plan.left), TablesOf(plan.right));
      && Disjoint(tl, tr) && GoodJoin(tl, tr, plan.outputTables)
      && EquiCondition(tl, tr, JoinWidths(tl, WidthsOf(schemas, plan.left), WidthsOf(schemas, plan.right)), plan.condition)
  {}

  lemma InputsPreserved(rt: Runtime, schemas: Schemas, db: Database, left: Plan, right: Plan, r: Resolver)
    requires RowsFit(schemas, db) && Relational(schemas, db, left) && Relational(schemas, db, right)
    requires Whole(left) && Whole(right) && Disjoint(TablesOf(left), TablesOf(right))
    requires var l := CompileNode(rt.host, schemas, left, r);
      l.0.Some? && CompileNode(rt.host, schemas, right, l.1).0.Some? && Feeds(rt, CompileNode(rt.host, schemas, right, l.1).1, db)
    ensures var l := CompileNode(rt.host, schemas, left, r);
            var c := CompileNode(rt.host, schemas, right, l.1);
            var width := JoinWidths(TablesOf(left), WidthsOf(schemas, left), WidthsOf(schemas, right));
      && Preserved(rt, width, TablesOf(left), Meaning(rt.host, schemas, db, left), l.0.value)
      && Preserved(rt, width, TablesOf(right), Meaning(rt.host, schemas, db, right), c.0.value)
      && l.0.value.layout == LayoutFor(TablesOf(left), WidthsOf(schemas, left))
      && c.0.value.layout == LayoutFor(TablesOf(right), WidthsOf(schemas, right))
  {
    hide Relational, Meaning, CompileNode, Whole, TablesOf, WidthsOf, RowsFit, Covers;
    var l := CompileNode(rt.host, schemas, left, r);
    var c := CompileNode(rt.host, schemas, right, l.1);
    CompileExtends(rt.host, schemas, right, l.1);
    FeedsEarlier(rt, l.1, c.1, db);
    CompilePreserves(rt, schemas, db, left, r);
    CompilePreserves(rt, schemas, db, right, l.1);
    SidesPreserved(rt, WidthsOf(schemas, left), WidthsOf(schemas, right), TablesOf(left), TablesOf(right),
                   Meaning(rt.host, schemas, db, left), Meaning(rt.host, schemas, db, right), l.0.value, c.0.value);
  }

  // ----- The failing inputs --------------------------------------------------------------------

  const KEYS: Expr := Binary(Column(ColumnRef("a", "k", 0)), Eq, Column(ColumnRef("b", "k", 0)))

  const GREATER: Expr := Binary(Column(ColumnRef("a", "v", 1)), Gt, Column(ColumnRef("b", "v", 1)))

  const LESS: Expr := Binary(Column(ColumnRef("a", "v", 1)), Lt, Column(ColumnRef("b", "v", 1)))

  function TwoTables(): Schemas {
    map["a" := Schema(["k", "v"], [], None), "b" := Schema(["k", "v"], [], None)]
  }

  const A_ROW: Row := [Int64(1), Int64(1)]

  const B_ROW: Row := [Int64(1), Int64(2)]

  function OneRowEach(): Database { map["a" := [A_ROW], "b" := [B_ROW]] }

  function FromTables(): TableId -> seq<Row> { (id: TableId) => if id == 1 then [A_ROW] else [B_ROW] }

  function Unnumbered(): Resolver { Resolver(map[], map[], 1) }

  function PairJoin(condition: Expr): Plan { Join(TableScan("a"), TableScan("b"), condition, Inner, ["a", "b"]) }

  /** The two tables joined by the given keys. */
  function PairJoining(key: KeySpec): Dataflow { Joining(Source(1), Source(2), key, key, false, false, 2, 2) }

  lemma PairJoinCompiled(host: Host, condition: Expr, key: KeySpec)
    requires ExtractJoinKeys(condition, TableLayout("a", 2), TableLayout("b", 2)) == (key, key)
    ensures CompileNode(host, TwoTables(), PairJoin(condition), Unnumbered())
         == (Some(Compiled(PairJoining(key), Layout(["a", "b"], [2, 2]))), Resolver(map[], map["a" := 1, "b" := 2], 3))
  {
    var l, r := TableLayout("a", 2), TableLayout("b", 2);
    PairLayout(l, r);
    PairSources();
    assert CompileNode(host, TwoTables(), TableScan("a"), Unnumbered()) == CompileSource(TwoTables(), "a", Unnumbered());
    assert CompileNode(host, TwoTables(), TableScan("b"), ANumbered()) == CompileSource(TwoTables(), "b", ANumbered());
    hide EquiKeys, ExtractJoinKeys, Combined, JoinLayout, CompileSource, TwoTables, Unnumbered, ANumbered;
  }

  function ANumbered(): Resolver { Resolver(map[], map["a" := 1], 2) }

  lemma PairSources()
    ensures CompileSource(TwoTables(), "a", Unnumbered()) == (Some(Compiled(Source(1), TableLayout("a", 2))), ANumbered())
    ensures CompileSource(TwoTables(), "b", ANumbered())
         == (Some(Compiled(Source(2), TableLayout("b", 2))), Resolver(map[], map["a" := 1, "b" := 2], 3))
  {
    assert ANumbered().used["b" := 2] == map["a" := 1, "b" := 2];
  }

  lemma PairLayout(l: Layout, r: Layout)
    requires l == TableLayout("a", 2) && r == TableLayout("b", 2)
    ensures Combined(l, r) == Layout(["a", "b"], [2, 2])
    ensures JoinLayout(Combined(l, r), Layout([], []), ["a", "b"]) == Layout(["a", "b"], [2, 2])
    ensures l.TotalWidth() == r.TotalWidth() == 2
  {
    var width: Widths := (t: string) => 2;
    assert l == LayoutFor(["a"], width) && r == LayoutFor(["b"], width);
    assert ["a"] + ["b"] == ["a", "b"];
    assert LayoutFor(["a", "b"], width) == Layout(["a", "b"], [2, 2]) && LayoutFor([], width) == Layout([], []);
    assert Total([2]) == 2 + Total([2][1..]);
    hide LayoutFor, JoinLayout, Total;
    JoinLayoutFor(["a"], ["b"], ["a", "b"], width);
    JoinLayoutFor(["a", "b"], [], ["a", "b"], width);
  }

  lemma AloneResolves(table: string, width: nat, index: nat)
    ensures TableLayout(table, width).ResolveColumnIndex(table, index) == index
  {
    assert OffsetOf([table], [width], table) == Some(0);
  }

  lemma OnePair<L, R, O>(j: Joiner<L, R, O>, l: L, r: R)
    requires !j.keepLeft && !j.keepRight
    ensures JoinSeq(j, [l], [r]) == if j.on(l, r) then [j.merge(l, r)] else []
  {
    assert [r][1..] == [] && [l][1..] == [];
    assert Matches(j, l, [r]) == (if j.on(l, r) then [j.merge(l, r)] else []) + Matches(j, l, []);
    assert LeftRows(j, [l], [r]) == Matches(j, l, [r]) + LeftRows(j, [], [r]);
  }

  /** By `k` alone. */
  lemma GreaterKeys()
    ensures ExtractJoinKeys(Conjunction(KEYS, GREATER), TableLayout("a", 2), TableLayout("b", 2)) == (OnColumns([0]), OnColumns([0]))
  {
    var l, r := TableLayout("a", 2), TableLayout("b", 2);
    EqualityKeys(l, r);
    NoEqualityKeys(l, r);
    assert EquiKeys(Conjunction(KEYS, GREATER), l, r) == ([0] + [], [0] + []);
    assert [0] + [] == [0];
  }

  lemma EqualityKeys(l: Layout, r: Layout)
    requires l == TableLayout("a", 2) && r == TableLayout("b", 2)
    ensures EquiKeys(KEYS, l, r) == ([0], [0])
  {
    assert l.ContainsTable("a") && r.ContainsTable("b");
    AloneResolves("a", 2, 0);
    AloneResolves("b", 2, 0);
    hide TableLayout, OffsetOf;
  }

  lemma NoEqualityKeys(l: Layout, r: Layout)
    ensures EquiKeys(GREATER, l, r) == ([], []) && EquiKeys(LESS, l, r) == ([], [])
  {}

  lemma ValuesCompared(host: Host)
    ensures var column := ColumnIn(Alone("a")(A_ROW) + Alone("b")(B_ROW));
      EvalWith(host, GREATER, column) == Boolean(false) && EvalWith(host, LESS, column) == Boolean(true)
  {
    var column := ColumnIn(Alone("a")(A_ROW) + Alone("b")(B_ROW));
    assert column(ColumnRef("a", "v", 1)) == Int64(1) && column(ColumnRef("b", "v", 1)) == Int64(2);
  }

  lemma PairMeaning(host: Host, condition: Expr)
    ensures |Meaning(host, TwoTables(), OneRowEach(), PairJoin(condition))|
         == if IsTrue(EvalWith(host, condition, ColumnIn(Alone("a")(A_ROW) + Alone("b")(B_ROW)))) then 1 else 0
  {
    var a, b := Alone("a")(A_ROW), Alone("b")(B_ROW);
    var j := JoinEnvs(host, condition, Inner, ["a"], ["b"]);
    assert Scan(OneRowEach(), "a") == [a] && Scan(OneRowEach(), "b") == [b];
    JoinUnfolds(host, TwoTables(), OneRowEach(), PairJoin(condition), Unnumbered());
    assert Meaning(host, TwoTables(), OneRowEach(), TableScan("a")) == [a];
    assert Meaning(host, TwoTables(), OneRowEach(), TableScan("b")) == [b];
    assert !j.keepLeft && !j.keepRight;
    assert j.on(a, b) == IsTrue(EvalWith(host, condition, ColumnIn(a + b)));
    hide Meaning, EvalWith, JoinEnvs, CompileNode;
    OnePair(j, a, b);
  }

  lemma PairRows(rt: Runtime, key: KeySpec)
    requires rt.sources(1) == [A_ROW] && rt.sources(2) == [B_ROW]
    ensures Rows(rt, PairJoining(key)) == if KeyOf(key, A_ROW) == KeyOf(key, B_ROW) then [A_ROW + B_ROW] else []
  {
    OnePair(JoinRows(key, key, false, false, 2, 2), A_ROW, B_ROW);
    assert Rows(rt, Source(1)) == [A_ROW] && Rows(rt, Source(2)) == [B_ROW];
  }

  /** Two one-row tables with equal keys: `a JOIN b ON a.k = b.k AND a.v > b.v` has no rows, and the
      compiled join yields one. */
  lemma IgnoredConjunctLetsRowsIn(host: Host, aggregate: (seq<Row>, seq<nat>, seq<(nat, AggregateFunc)>) -> seq<Row>)
    ensures var rt, plan := Runtime(host, FromTables(), aggregate), PairJoin(Conjunction(KEYS, GREATER));
            var compiled := CompileNode(host, TwoTables(), plan, Unnumbered());
      && RowsFit(TwoTables(), OneRowEach()) && compiled.0.Some? && Feeds(rt, compiled.1, OneRowEach())
      && Meaning(host, TwoTables(), OneRowEach(), plan) == []
      && Rows(rt, compiled.0.value.dataflow) == [A_ROW + B_ROW]
  {
    hide Meaning, CompileNode, Rows, KeyOf;
    GreaterKeys();
    PairJoinCompiled(host, Conjunction(KEYS, GREATER), OnColumns([0]));
    PairMeaning(host, Conjunction(KEYS, GREATER));
    ValuesCompared(host);
    OneKey(A_ROW, 0);
    OneKey(B_ROW, 0);
    PairRows(Runtime(host, FromTables(), aggregate), OnColumns([0]));
  }
}
