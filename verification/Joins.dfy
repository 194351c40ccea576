/** Mapping, filtering and joining lists of tuples, independent of what the tuples are. */
module Joins {
  function MapSeq<A, B>(s: seq<A>, f: A -> B): (r: seq<B>)
    ensures |r| == |s| && forall i :: 0 <= i < |s| ==> r[i] == f(s[i])
  {
    seq(|s|, i requires 0 <= i < |s| => f(s[i]))
  }

  function FilterSeq<A>(s: seq<A>, p: A -> bool): seq<A> {
    if s == [] then [] else (if p(s[0]) then [s[0]] else []) + FilterSeq(s[1..], p)
  }

  /** How two lists are joined; `keepLeft` and `keepRight` ask for the unmatched tuples. */
  datatype Joiner<!L, !R, !O> = Joiner(
    on: (L, R) -> bool,
    merge: (L, R) -> O,
    padRight: L -> O,
    padLeft: R -> O,
    keepLeft: bool,
    keepRight: bool)

  function Matches<L, R, O>(j: Joiner<L, R, O>, l: L, rs: seq<R>): seq<O> {
    if rs == [] then [] else (if j.on(l, rs[0]) then [j.merge(l, rs[0])] else []) + Matches(j, l, rs[1..])
  }

  function LeftRows<L, R, O>(j: Joiner<L, R, O>, ls: seq<L>, rs: seq<R>): seq<O> {
    if ls == [] then []
    else
      var matches := Matches(j, ls[0], rs);
      (if matches == [] && j.keepLeft then [j.padRight(ls[0])] else matches) + LeftRows(j, ls[1..], rs)
  }

  predicate Unmatched<L, R, O>(j: Joiner<L, R, O>, ls: seq<L>, r: R) {
    forall i :: 0 <= i < |ls| ==> !j.on(ls[i], r)
  }

  function RightRows<L, R, O>(j: Joiner<L, R, O>, ls: seq<L>, rs: seq<R>): seq<O> {
    if rs == [] then []
    else (if Unmatched(j, ls, rs[0]) then [j.padLeft(rs[0])] else []) + RightRows(j, ls, rs[1..])
  }

  /** Every left tuple with its matches, or padded; then the right tuples nothing matched. */
  function JoinSeq<L, R, O>(j: Joiner<L, R, O>, ls: seq<L>, rs: seq<R>): seq<O> {
    LeftRows(j, ls, rs) + if j.keepRight then RightRows(j, ls, rs) else []
  }

  // ----- Mapping a whole computation -----------------------------------------------------------

  lemma {:induction false} FilterMap<A, B>(s: seq<A>, f: A -> B, p: A -> bool, q: B -> bool)
    requires forall i :: 0 <= i < |s| ==> q(f(s[i])) == p(s[i])
    ensures FilterSeq(MapSeq(s, f), q) == MapSeq(FilterSeq(s, p), f)
  {
    if s != [] {
      assert MapSeq(s, f)[1..] == MapSeq(s[1..], f);
      assert q(f(s[0])) == p(s[0]);
      FilterMap(s[1..], f, p, q);
    }
  }

  lemma {:induction false} FilterElements<A>(s: seq<A>, p: A -> bool)
    ensures forall a :: a in FilterSeq(s, p) ==> a in s && p(a)
  {
    if s != [] {
      FilterElements(s[1..], p);
    }
  }

  ghost predicate Related<L, R, O, L2, R2, O2>(j: Joiner<L, R, O>, j2: Joiner<L2, R2, O2>, l: L, r: R,
                                               fl: L -> L2, fr: R -> R2, fo: O -> O2) {
    && j2.on(fl(l), fr(r)) == j.on(l, r)
    && fo(j.merge(l, r)) == j2.merge(fl(l), fr(r))
  }

  ghost predicate Simulates<L, R, O, L2, R2, O2>(j: Joiner<L, R, O>, j2: Joiner<L2, R2, O2>, ls: seq<L>, rs: seq<R>,
                                                 fl: L -> L2, fr: R -> R2, fo: O -> O2) {
    && j2.keepLeft == j.keepLeft && j2.keepRight == j.keepRight
    && (forall l, k :: l in ls && 0 <= k < |rs| ==> Related(j, j2, l, rs[k], fl, fr, fo))
    && (forall l :: l in ls ==> fo(j.padRight(l)) == j2.padRight(fl(l)))
    && (forall k :: 0 <= k < |rs| ==> fo(j.padLeft(rs[k])) == j2.padLeft(fr(rs[k])))
  }

  lemma {:induction false} MatchesMap<L, R, O, L2, R2, O2>(j: Joiner<L, R, O>, j2: Joiner<L2, R2, O2>, l: L, rs: seq<R>,
                                                           fl: L -> L2, fr: R -> R2, fo: O -> O2)
    requires forall k :: 0 <= k < |rs| ==> Related(j, j2, l, rs[k], fl, fr, fo)
    ensures Matches(j2, fl(l), MapSeq(rs, fr)) == MapSeq(Matches(j, l, rs), fo)
  {
    if rs != [] {
      assert MapSeq(rs, fr)[1..] == MapSeq(rs[1..], fr);
      assert Related(j, j2, l, rs[0], fl, fr, fo);
      MatchesMap(j, j2, l, rs[1..], fl, fr, fo);
    }
  }

  lemma {:induction false} LeftMap<L, R, O, L2, R2, O2>(j: Joiner<L, R, O>, j2: Joiner<L2, R2, O2>, ls: seq<L>, rs: seq<R>,
                                                        fl: L -> L2, fr: R -> R2, fo: O -> O2)
    requires Simulates(j, j2, ls, rs, fl, fr, fo)
    ensures LeftRows(j2, MapSeq(ls, fl), MapSeq(rs, fr)) == MapSeq(LeftRows(j, ls, rs), fo)
  {
    if ls != [] {
      var l := ls[0];
      assert l in ls;
      MatchesMap(j, j2, l, rs, fl, fr, fo);
      assert MapSeq(ls, fl)[1..] == MapSeq(ls[1..], fl);
      assert forall l :: l in ls[1..] ==> l in ls;
      assert Simulates(j, j2, ls[1..], rs, fl, fr, fo);
      hide Simulates, Related, Matches;
      LeftMap(j, j2, ls[1..], rs, fl, fr, fo);
      var matches := Matches(j, l, rs);
      var first := if matches == [] && j.keepLeft then [j.padRight(l)] else matches;
      MapConcat(first, LeftRows(j, ls[1..], rs), fo);
    }
  }

  lemma MapConcat<A, B>(a: seq<A>, b: seq<A>, f: A -> B)
    ensures MapSeq(a + b, f) == MapSeq(a, f) + MapSeq(b, f)
  {}

  lemma {:induction false} RightMap<L, R, O, L2, R2, O2>(j: Joiner<L, R, O>, j2: Joiner<L2, R2, O2>, ls: seq<L>, rs: seq<R>,
                                                         fl: L -> L2, fr: R -> R2, fo: O -> O2)
    requires Simulates(j, j2, ls, rs, fl, fr, fo)
    ensures RightRows(j2, MapSeq(ls, fl), MapSeq(rs, fr)) == MapSeq(RightRows(j, ls, rs), fo)
  {
    if rs != [] {
      assert MapSeq(rs, fr)[1..] == MapSeq(rs[1..], fr);
      assert Simulates(j, j2, ls, rs[1..], fl, fr, fo);
      RightMap(j, j2, ls, rs[1..], fl, fr, fo);
      UnmatchedMap(j, j2, ls, rs[0], fl, fr, fo);
      var first := if Unmatched(j, ls, rs[0]) then [j.padLeft(rs[0])] else [];
      MapConcat(first, RightRows(j, ls, rs[1..]), fo);
    }
  }

  lemma UnmatchedMap<L, R, O, L2, R2, O2>(j: Joiner<L, R, O>, j2: Joiner<L2, R2, O2>, ls: seq<L>, r: R,
                                          fl: L -> L2, fr: R -> R2, fo: O -> O2)
    requires forall l :: l in ls ==> Related(j, j2, l, r, fl, fr, fo)
    ensures Unmatched(j2, MapSeq(ls, fl), fr(r)) <==> Unmatched(j, ls, r)
  {
    forall i | 0 <= i < |ls| ensures j2.on(MapSeq(ls, fl)[i], fr(r)) == j.on(ls[i], r) {
      assert Related(j, j2, ls[i], r, fl, fr, fo);
    }
  }

  /** A join of images is the image of the join. */
  lemma JoinSimulates<L, R, O, L2, R2, O2>(j: Joiner<L, R, O>, j2: Joiner<L2, R2, O2>, ls: seq<L>, rs: seq<R>,
                                           fl: L -> L2, fr: R -> R2, fo: O -> O2)
    requires Simulates(j, j2, ls, rs, fl, fr, fo)
    ensures JoinSeq(j2, MapSeq(ls, fl), MapSeq(rs, fr)) == MapSeq(JoinSeq(j, ls, rs), fo)
  {
    LeftMap(j, j2, ls, rs, fl, fr, fo);
    RightMap(j, j2, ls, rs, fl, fr, fo);
    MapConcat(LeftRows(j, ls, rs), if j.keepRight then RightRows(j, ls, rs) else [], fo);
  }

  // ----- What a join can contain ---------------------------------------------------------------

  lemma {:induction false} MatchesElements<L, R, O>(j: Joiner<L, R, O>, l: L, rs: seq<R>, good: O -> bool)
    requires forall r :: r in rs && j.on(l, r) ==> good(j.merge(l, r))
    ensures forall o :: o in Matches(j, l, rs) ==> good(o)
  {
    if rs != [] {
      assert rs[0] in rs;
      MatchesElements(j, l, rs[1..], good);
    }
  }

  lemma {:induction false} LeftElements<L, R, O>(j: Joiner<L, R, O>, ls: seq<L>, rs: seq<R>, good: O -> bool)
    requires forall l, r :: l in ls && r in rs && j.on(l, r) ==> good(j.merge(l, r))
    requires forall l :: l in ls && j.keepLeft ==> good(j.padRight(l))
    ensures forall o :: o in LeftRows(j, ls, rs) ==> good(o)
  {
    if ls != [] {
      assert ls[0] in ls;
      MatchesElements(j, ls[0], rs, good);
      LeftElements(j, ls[1..], rs, good);
    }
  }

  lemma {:induction false} RightElements<L, R, O>(j: Joiner<L, R, O>, ls: seq<L>, rs: seq<R>, good: O -> bool)
    requires forall r :: r in rs ==> good(j.padLeft(r))
    ensures forall o :: o in RightRows(j, ls, rs) ==> good(o)
  {
    if rs != [] {
      assert rs[0] in rs;
      RightElements(j, ls, rs[1..], good);
    }
  }

  /** A join holds merged matches and, where asked for, padded tuples. */
  lemma JoinElements<L, R, O>(j: Joiner<L, R, O>, ls: seq<L>, rs: seq<R>, good: O -> bool)
    requires forall l, r :: l in ls && r in rs && j.on(l, r) ==> good(j.merge(l, r))
    requires forall l :: l in ls && j.keepLeft ==> good(j.padRight(l))
    requires forall r :: r in rs && j.keepRight ==> good(j.padLeft(r))
    ensures forall o :: o in JoinSeq(j, ls, rs) ==> good(o)
  {
    LeftElements(j, ls, rs, good);
    if j.keepRight {
      RightElements(j, ls, rs, good);
    }
  }

  lemma {:induction false} MatchIsKept<L, R, O>(j: Joiner<L, R, O>, l: L, r: R, rs: seq<R>)
    requires r in rs && j.on(l, r)
    ensures j.merge(l, r) in Matches(j, l, rs)
  {
    if rs[0] != r {
      MatchIsKept(j, l, r, rs[1..]);
    }
  }

  /** Every match is in the join. */
  lemma {:induction false} MatchIsJoined<L, R, O>(j: Joiner<L, R, O>, l: L, r: R, ls: seq<L>, rs: seq<R>)
    requires l in ls && r in rs && j.on(l, r)
    ensures j.merge(l, r) in LeftRows(j, ls, rs)
  {
    if ls[0] == l {
      MatchIsKept(j, l, r, rs);
    } else {
      MatchIsJoined(j, l, r, ls[1..], rs);
    }
  }

  // ----- Exactly what a join holds -------------------------------------------------------------

  predicate UnmatchedLeft<L, R, O>(j: Joiner<L, R, O>, l: L, rs: seq<R>) {
    forall i :: 0 <= i < |rs| ==> !j.on(l, rs[i])
  }

  ghost predicate IsMatch<L, R, O>(j: Joiner<L, R, O>, l: L, rs: seq<R>, o: O) {
    exists i :: 0 <= i < |rs| && j.on(l, rs[i]) && o == j.merge(l, rs[i])
  }

  /** A left tuple with a match, or one without where it is kept. */
  ghost predicate FromLeft<L, R, O>(j: Joiner<L, R, O>, l: L, rs: seq<R>, o: O) {
    IsMatch(j, l, rs, o) || (j.keepLeft && UnmatchedLeft(j, l, rs) && o == j.padRight(l))
  }

  lemma {:induction false} MatchesExactly<L, R, O>(j: Joiner<L, R, O>, l: L, rs: seq<R>, o: O)
    ensures o in Matches(j, l, rs) <==> IsMatch(j, l, rs, o)
    ensures Matches(j, l, rs) == [] <==> UnmatchedLeft(j, l, rs)
  {
    if rs != [] {
      var rest := rs[1..];
      MatchesExactly(j, l, rest, o);
      assert forall i :: 0 <= i < |rest| ==> rest[i] == rs[i + 1];
      if i :| 0 <= i < |rs| && j.on(l, rs[i]) && o == j.merge(l, rs[i]) {
        assert i > 0 ==> rest[i - 1] == rs[i];
      }
      if i :| 0 <= i < |rs| && j.on(l, rs[i]) {
        assert i > 0 ==> rest[i - 1] == rs[i];
      }
    }
  }

  lemma {:induction false} LeftExactly<L, R, O>(j: Joiner<L, R, O>, ls: seq<L>, rs: seq<R>, o: O)
    ensures o in LeftRows(j, ls, rs) <==> exists i :: 0 <= i < |ls| && FromLeft(j, ls[i], rs, o)
  {
    if ls != [] {
      var rest := ls[1..];
      MatchesExactly(j, ls[0], rs, o);
      LeftExactly(j, rest, rs, o);
      hide Matches, IsMatch, UnmatchedLeft;
      if o in LeftRows(j, rest, rs) {
        var i :| 0 <= i < |rest| && FromLeft(j, rest[i], rs, o);
        assert FromLeft(j, ls[i + 1], rs, o);
      }
      if i :| 0 <= i < |ls| && FromLeft(j, ls[i], rs, o) {
        assert i > 0 ==> FromLeft(j, rest[i - 1], rs, o);
      }
    }
  }

  lemma {:induction false} RightExactly<L, R, O>(j: Joiner<L, R, O>, ls: seq<L>, rs: seq<R>, o: O)
    ensures o in RightRows(j, ls, rs) <==> exists k :: 0 <= k < |rs| && Unmatched(j, ls, rs[k]) && o == j.padLeft(rs[k])
  {
    if rs != [] {
      var rest := rs[1..];
      RightExactly(j, ls, rest, o);
      if o in RightRows(j, ls, rest) {
        var k :| 0 <= k < |rest| && Unmatched(j, ls, rest[k]) && o == j.padLeft(rest[k]);
        assert rs[k + 1] == rest[k];
      }
      if k :| 0 <= k < |rs| && Unmatched(j, ls, rs[k]) && o == j.padLeft(rs[k]) {
        assert k > 0 ==> rest[k - 1] == rs[k];
      }
    }
  }

  /** A join holds exactly the merged matches and the padded unmatched tuples of the sides it keeps. */
  lemma JoinHoldsExactly<L, R, O>(j: Joiner<L, R, O>, ls: seq<L>, rs: seq<R>, o: O)
    ensures o in JoinSeq(j, ls, rs) <==>
              || (exists i :: 0 <= i < |ls| && FromLeft(j, ls[i], rs, o))
              || (j.keepRight && exists k :: 0 <= k < |rs| && Unmatched(j, ls, rs[k]) && o == j.padLeft(rs[k]))
  {
    LeftExactly(j, ls, rs, o);
    RightExactly(j, ls, rs, o);
  }

  // ----- Two conditions ------------------------------------------------------------------------

  /** The joiners differ in their condition only, and what the second one matches the first one does. */
  ghost predicate Stricter<L(!new), R(!new), O(!new)>(j: Joiner<L, R, O>, strict: Joiner<L, R, O>, ls: seq<L>, rs: seq<R>) {
    && strict.keepLeft == j.keepLeft && strict.keepRight == j.keepRight
    && (forall l, r :: strict.merge(l, r) == j.merge(l, r))
    && (forall l :: strict.padRight(l) == j.padRight(l))
    && (forall r :: strict.padLeft(r) == j.padLeft(r))
    && (forall l, r :: l in ls && r in rs && strict.on(l, r) ==> j.on(l, r))
  }

  /** A pair only the first condition matches. */
  predicate Extra<L, R, O>(j: Joiner<L, R, O>, strict: Joiner<L, R, O>, l: L, r: R) {
    j.on(l, r) && !strict.on(l, r)
  }

  lemma {:induction false} StricterMatches<L(!new), R(!new), O(!new)>(j: Joiner<L, R, O>, strict: Joiner<L, R, O>, l: L, rs: seq<R>)
    requires Stricter(j, strict, [l], rs)
    ensures |Matches(strict, l, rs)| <= |Matches(j, l, rs)|
    ensures (forall r :: r in rs ==> !Extra(j, strict, l, r)) ==> Matches(strict, l, rs) == Matches(j, l, rs)
    ensures (exists r :: r in rs && Extra(j, strict, l, r)) ==> |Matches(strict, l, rs)| < |Matches(j, l, rs)|
  {
    if rs != [] {
      var rest := rs[1..];
      assert rs[0] in rs && forall r :: r in rest ==> r in rs;
      assert l in [l];
      StricterMatches(j, strict, l, rest);
      assert forall r :: r in rs ==> r == rs[0] || r in rest;
    }
  }

  /** Without an extra pair the joins are equal. */
  lemma {:induction false} NoExtraSameLeft<L(!new), R(!new), O(!new)>(j: Joiner<L, R, O>, strict: Joiner<L, R, O>, ls: seq<L>, rs: seq<R>)
    requires Stricter(j, strict, ls, rs) && forall l, r :: l in ls && r in rs ==> !Extra(j, strict, l, r)
    ensures LeftRows(strict, ls, rs) == LeftRows(j, ls, rs)
  {
    if ls != [] {
      assert ls[0] in ls && forall l :: l in ls[1..] ==> l in ls;
      StricterMatches(j, strict, ls[0], rs);
      NoExtraSameLeft(j, strict, ls[1..], rs);
    }
  }

  lemma {:induction false} NoExtraSameRight<L(!new), R(!new), O(!new)>(j: Joiner<L, R, O>, strict: Joiner<L, R, O>, ls: seq<L>, rs: seq<R>)
    requires Stricter(j, strict, ls, rs) && forall l, r :: l in ls && r in rs ==> !Extra(j, strict, l, r)
    ensures RightRows(strict, ls, rs) == RightRows(j, ls, rs)
  {
    if rs != [] {
      assert rs[0] in rs && forall r :: r in rs[1..] ==> r in rs;
      forall i | 0 <= i < |ls| ensures strict.on(ls[i], rs[0]) == j.on(ls[i], rs[0]) {
        assert ls[i] in ls && !Extra(j, strict, ls[i], rs[0]);
      }
      NoExtraSameRight(j, strict, ls, rs[1..]);
    }
  }

  lemma NoExtraSame<L(!new), R(!new), O(!new)>(j: Joiner<L, R, O>, strict: Joiner<L, R, O>, ls: seq<L>, rs: seq<R>)
    requires Stricter(j, strict, ls, rs) && forall l, r :: l in ls && r in rs ==> !Extra(j, strict, l, r)
    ensures JoinSeq(strict, ls, rs) == JoinSeq(j, ls, rs)
  {
    NoExtraSameLeft(j, strict, ls, rs);
    NoExtraSameRight(j, strict, ls, rs);
  }

  /** An inner join gets longer with any extra pair. */
  lemma {:induction false} ExtraIsLonger<L(!new), R(!new), O(!new)>(j: Joiner<L, R, O>, strict: Joiner<L, R, O>, ls: seq<L>, rs: seq<R>)
    requires Stricter(j, strict, ls, rs) && !j.keepLeft
    ensures |LeftRows(strict, ls, rs)| <= |LeftRows(j, ls, rs)|
    ensures (exists l, r :: l in ls && r in rs && Extra(j, strict, l, r)) ==>
              |LeftRows(strict, ls, rs)| < |LeftRows(j, ls, rs)|
  {
    if ls != [] {
      assert ls[0] in ls && forall l :: l in ls[1..] ==> l in ls;
      StricterMatches(j, strict, ls[0], rs);
      ExtraIsLonger(j, strict, ls[1..], rs);
      assert forall l :: l in ls ==> l == ls[0] || l in ls[1..];
    }
  }
}
