/** Sorted sequences and their prefixes, over any linear order.

  A window that holds the first rows of an ordered result is patched by dropping some rows and
  merging in others. The lemmas say how much of such a window is still a prefix of the result. */
module OrderedWindow {

  /** `le` is a linear order on the values that satisfy `ok`. */
  ghost predicate Linear<T(!new)>(le: (T, T) -> bool, ok: T -> bool) {
    && (forall x, y :: ok(x) && ok(y) ==> le(x, y) || le(y, x))
    && (forall x, y :: ok(x) && ok(y) && le(x, y) && le(y, x) ==> x == y)
    && (forall x, y, z :: ok(x) && ok(y) && ok(z) && le(x, y) && le(y, z) ==> le(x, z))
  }

  ghost predicate All<T>(s: seq<T>, ok: T -> bool) {
    forall i :: 0 <= i < |s| ==> ok(s[i])
  }

  ghost predicate Sorted<T>(le: (T, T) -> bool, s: seq<T>) {
    forall i, j :: 0 <= i < j < |s| ==> le(s[i], s[j])
  }

  function Take<T>(s: seq<T>, n: int): seq<T> {
    if n <= 0 then [] else if |s| <= n then s else s[..n]
  }

  function Keep<T>(s: seq<T>, p: T -> bool): seq<T> {
    if s == [] then [] else (if p(s[0]) then [s[0]] else []) + Keep(s[1..], p)
  }

  function Merge<T>(le: (T, T) -> bool, x: seq<T>, y: seq<T>): seq<T> {
    if x == [] then y
    else if y == [] then x
    else if le(y[0], x[0]) then [y[0]] + Merge(le, x, y[1..])
    else [x[0]] + Merge(le, x[1..], y)
  }

  function Sort<T>(le: (T, T) -> bool, s: seq<T>): seq<T> {
    if s == [] then [] else Merge(le, Sort(le, s[1..]), [s[0]])
  }

  // ----- Contents --------------------------------------------------------------------------

  lemma {:induction false} MergeContents<T>(le: (T, T) -> bool, x: seq<T>, y: seq<T>)
    ensures multiset(Merge(le, x, y)) == multiset(x) + multiset(y)
    ensures |Merge(le, x, y)| == |x| + |y|
  {
    if x != [] && y != [] {
      assert x == [x[0]] + x[1..] && y == [y[0]] + y[1..];
      if le(y[0], x[0]) {
        MergeContents(le, x, y[1..]);
      } else {
        MergeContents(le, x[1..], y);
      }
    }
  }

  lemma {:induction false} SortContents<T>(le: (T, T) -> bool, s: seq<T>)
    ensures multiset(Sort(le, s)) == multiset(s)
    ensures |Sort(le, s)| == |s|
  {
    if s != [] {
      SortContents(le, s[1..]);
      MergeContents(le, Sort(le, s[1..]), [s[0]]);
      assert s == [s[0]] + s[1..];
    }
  }

  lemma {:induction false} KeepContents<T>(s: seq<T>, p: T -> bool, v: T)
    ensures multiset(Keep(s, p))[v] == if p(v) then multiset(s)[v] else 0
  {
    if s != [] {
      KeepContents(s[1..], p, v);
      assert s == [s[0]] + s[1..];
    }
  }

  lemma SameContentsAll<T>(s: seq<T>, t: seq<T>, ok: T -> bool)
    requires All(s, ok) && multiset(t) <= multiset(s)
    ensures All(t, ok)
  {
    forall i | 0 <= i < |t|
      ensures ok(t[i])
    {
      assert t[i] in multiset(t);
      assert t[i] in s;
    }
  }

  lemma {:induction false} KeepAppend<T>(s: seq<T>, t: seq<T>, p: T -> bool)
    ensures Keep(s + t, p) == Keep(s, p) + Keep(t, p)
  {
    if s == [] {
      assert s + t == t;
    } else {
      KeepAppend(s[1..], t, p);
      var all := s + t;
      assert all[0] == s[0] && all[1..] == s[1..] + t;
      AppendAssociates(if p(s[0]) then [s[0]] else [], Keep(s[1..], p), Keep(t, p));
    }
  }

  lemma AppendAssociates<T>(a: seq<T>, b: seq<T>, c: seq<T>)
    ensures (a + b) + c == a + (b + c)
  {
  }

  lemma {:induction false} KeepShorter<T>(s: seq<T>, p: T -> bool)
    ensures |Keep(s, p)| <= |s|
    ensures forall i :: 0 <= i < |Keep(s, p)| ==> Keep(s, p)[i] in s && p(Keep(s, p)[i])
  {
    if s != [] {
      KeepShorter(s[1..], p);
    }
  }

  lemma {:induction false} KeepSplit<T>(s: seq<T>, p: T -> bool, q: T -> bool)
    requires forall v :: v in s ==> q(v) == !p(v)
    ensures multiset(s) == multiset(Keep(s, p)) + multiset(Keep(s, q))
    ensures |s| == |Keep(s, p)| + |Keep(s, q)|
  {
    if s != [] {
      KeepSplit(s[1..], p, q);
      assert s == [s[0]] + s[1..];
    }
  }

  // ----- Order -----------------------------------------------------------------------------

  lemma HeadFirst<T(!new)>(le: (T, T) -> bool, ok: T -> bool, x: seq<T>, y: seq<T>, v: T)
    requires Linear(le, ok) && All(x, ok) && All(y, ok)
    requires Sorted(le, x) && Sorted(le, y) && x != [] && y != []
    requires v in x || v in y
    ensures le(if le(y[0], x[0]) then y[0] else x[0], v)
  {
    var side := if v in x then x else y;
    var k :| 0 <= k < |side| && side[k] == v;
    assert k == 0 || le(side[0], side[k]);
    assert ok(x[0]) && ok(y[0]) && ok(side[k]);
  }

  lemma ConsSorted<T>(le: (T, T) -> bool, head: T, tail: seq<T>)
    requires Sorted(le, tail) && forall v :: v in tail ==> le(head, v)
    ensures Sorted(le, [head] + tail)
  {
  }

  lemma FromMerge<T>(le: (T, T) -> bool, x: seq<T>, y: seq<T>, v: T)
    requires v in Merge(le, x, y)
    ensures v in x || v in y
  {
    MergeContents(le, x, y);
    assert v in multiset(Merge(le, x, y));
  }

  lemma {:induction false} MergeSorted<T(!new)>(le: (T, T) -> bool, ok: T -> bool, x: seq<T>, y: seq<T>)
    requires Linear(le, ok) && All(x, ok) && All(y, ok)
    requires Sorted(le, x) && Sorted(le, y)
    ensures Sorted(le, Merge(le, x, y)) && All(Merge(le, x, y), ok)
  {
    if x != [] && y != [] {
      var takeY := le(y[0], x[0]);
      var x', y' := if takeY then x else x[1..], if takeY then y[1..] else y;
      MergeSorted(le, ok, x', y');
      forall v | v in Merge(le, x', y')
        ensures le(if takeY then y[0] else x[0], v)
      {
        FromMerge(le, x', y', v);
        HeadFirst(le, ok, x, y, v);
      }
      ConsSorted(le, if takeY then y[0] else x[0], Merge(le, x', y'));
    }
  }

  lemma {:induction false} SortSorted<T(!new)>(le: (T, T) -> bool, ok: T -> bool, s: seq<T>)
    requires Linear(le, ok) && All(s, ok)
    ensures Sorted(le, Sort(le, s)) && All(Sort(le, s), ok)
  {
    if s != [] {
      SortSorted(le, ok, s[1..]);
      MergeSorted(le, ok, Sort(le, s[1..]), [s[0]]);
    }
  }

  /** A sorted arrangement is determined by its contents. */
  lemma {:induction false} SortedUnique<T(!new)>(le: (T, T) -> bool, ok: T -> bool, s: seq<T>, t: seq<T>)
    requires Linear(le, ok) && All(s, ok)
    requires Sorted(le, s) && Sorted(le, t) && multiset(s) == multiset(t)
    ensures s == t
  {
    hide *;
    assert |s| == |multiset(s)| && |t| == |multiset(t)|;
    if s != [] {
      SameHead(le, ok, s, t);
      TailContents(s);
      TailContents(t);
      TailSorted(le, ok, s, s);
      TailSorted(le, ok, s, t);
      SortedUnique(le, ok, s[1..], t[1..]);
      assert s == [s[0]] + s[1..] && t == [t[0]] + t[1..];
    }
  }

  lemma SameHead<T(!new)>(le: (T, T) -> bool, ok: T -> bool, s: seq<T>, t: seq<T>)
    requires Linear(le, ok) && All(s, ok) && s != [] && t != []
    requires Sorted(le, s) && Sorted(le, t) && multiset(s) == multiset(t)
    ensures s[0] == t[0]
  {
    SameContentsAll(s, t, ok);
    assert s[0] in multiset(t) && t[0] in multiset(s);
    var i :| 0 <= i < |t| && t[i] == s[0];
    var j :| 0 <= j < |s| && s[j] == t[0];
    assert ok(s[0]) && ok(t[0]);
  }

  lemma TailContents<T>(s: seq<T>)
    requires s != []
    ensures multiset(s[1..]) == multiset(s) - multiset{s[0]}
  {
    assert s == [s[0]] + s[1..];
  }

  lemma TailSorted<T>(le: (T, T) -> bool, ok: T -> bool, s: seq<T>, t: seq<T>)
    requires s != [] && All(s, ok) && t != [] && Sorted(le, t)
    ensures All(s[1..], ok) && Sorted(le, t[1..])
  {}

  lemma {:induction false} KeepSorted<T(!new)>(le: (T, T) -> bool, s: seq<T>, p: T -> bool)
    requires Sorted(le, s)
    ensures Sorted(le, Keep(s, p))
  {
    if s != [] {
      KeepSorted(le, s[1..], p);
      KeepShorter(s[1..], p);
    }
  }

  /** Filtering commutes with sorting. */
  lemma KeepOfSort<T(!new)>(le: (T, T) -> bool, ok: T -> bool, s: seq<T>, p: T -> bool)
    requires Linear(le, ok) && All(s, ok)
    ensures Keep(Sort(le, s), p) == Sort(le, Keep(s, p)) && All(Keep(s, p), ok)
  {
    SortSorted(le, ok, s);
    SortContents(le, s);
    KeepSorted(le, Sort(le, s), p);
    forall v
      ensures multiset(Keep(Sort(le, s), p))[v] == multiset(Keep(s, p))[v]
    {
      KeepContents(s, p, v);
      KeepContents(Sort(le, s), p, v);
    }
    assert multiset(Keep(Sort(le, s), p)) == multiset(Keep(s, p));
    KeepShorter(s, p);
    SortContents(le, Keep(s, p));
    SortSorted(le, ok, Keep(s, p));
    SortedUnique(le, ok, Sort(le, Keep(s, p)), Keep(Sort(le, s), p));
  }

  /** Merging is sorting the union. */
  lemma MergeIsSort<T(!new)>(le: (T, T) -> bool, ok: T -> bool, x: seq<T>, y: seq<T>, all: seq<T>)
    requires Linear(le, ok) && All(x, ok) && All(y, ok)
    requires Sorted(le, x) && Sorted(le, y)
    requires multiset(all) == multiset(x) + multiset(y)
    ensures Sort(le, all) == Merge(le, x, y)
  {
    MergeSorted(le, ok, x, y);
    MergeContents(le, x, y);
    SameContentsAll(Merge(le, x, y), all, ok);
    SortSorted(le, ok, all);
    SortContents(le, all);
    SortedUnique(le, ok, Sort(le, all), Merge(le, x, y));
  }

  // ----- Prefixes --------------------------------------------------------------------------

  /** Merging looks no further into its inputs than it emits. */
  lemma {:induction false} MergeTake<T>(le: (T, T) -> bool, x: seq<T>, x': seq<T>, y: seq<T>, y': seq<T>, n: nat)
    requires Take(x, n) == Take(x', n) && Take(y, n) == Take(y', n)
    ensures Take(Merge(le, x, y), n) == Take(Merge(le, x', y'), n)
    decreases n, |x| + |y|
  {
    if n > 0 && x != [] && y != [] {
      assert Take(x, n)[0] == x[0] && Take(y, n)[0] == y[0];
      assert x' != [] && x'[0] == x[0] && y' != [] && y'[0] == y[0];
      TakeTail(x, x', n);
      TakeTail(y, y', n);
      TakeLess(x, x', n, n - 1);
      TakeLess(y, y', n, n - 1);
      if le(y[0], x[0]) {
        MergeTake(le, x, x', y[1..], y'[1..], n - 1);
        TakeCons(y[0], Merge(le, x, y[1..]), n);
        TakeCons(y[0], Merge(le, x', y'[1..]), n);
      } else {
        MergeTake(le, x[1..], x'[1..], y, y', n - 1);
        TakeCons(x[0], Merge(le, x[1..], y), n);
        TakeCons(x[0], Merge(le, x'[1..], y'), n);
      }
    } else if n > 0 {
      assert x == [] ==> x' == [];
      assert y == [] ==> y' == [];
      assert x' == [] ==> x == [];
    }
  }

  lemma TakeTail<T>(s: seq<T>, t: seq<T>, n: nat)
    requires n > 0 && s != [] && t != [] && Take(s, n) == Take(t, n)
    ensures Take(s[1..], n - 1) == Take(t[1..], n - 1)
  {
    assert Take(s[1..], n - 1) == Take(s, n)[1..];
    assert Take(t[1..], n - 1) == Take(t, n)[1..];
  }

  lemma TakeLess<T>(s: seq<T>, t: seq<T>, n: int, m: int)
    requires m <= n && Take(s, n) == Take(t, n)
    ensures Take(s, m) == Take(t, m)
  {
    assert Take(s, m) == Take(Take(s, n), m);
    assert Take(t, m) == Take(Take(t, n), m);
  }

  lemma TakeCons<T>(v: T, s: seq<T>, n: nat)
    requires n > 0
    ensures Take([v] + s, n) == [v] + Take(s, n - 1)
  {
  }

  lemma TakeOfFront<T>(front: seq<T>, x: seq<T>, y: seq<T>, n: int)
    requires n <= |front|
    ensures Take(front + x, n) == Take(front + y, n)
  {
    if n > 0 {
      assert (front + x)[..n] == front[..n] && (front + y)[..n] == front[..n];
    }
  }

  /** Dropping at most `a` of the first `n` elements leaves the first `n - a` of the rest alone. */
  lemma KeepTake<T>(s: seq<T>, t: seq<T>, p: T -> bool, q: T -> bool, n: int, a: nat)
    requires Take(s, n) == Take(t, n)
    requires forall v :: v in s ==> q(v) == !p(v)
    requires |Keep(s, q)| <= a
    ensures Take(Keep(s, p), n - a) == Take(Keep(t, p), n - a)
  {
    if n > 0 && |s| >= n {
      var front := s[..n];
      assert s == front + s[n..] && t == front + t[n..];
      KeepFront(front, s[n..], p, q, a);
      KeepAppend(front, t[n..], p);
      TakeOfFront(Keep(front, p), Keep(s[n..], p), Keep(t[n..], p), n - a);
    } else if n > 0 {
      assert s == t;
    }
  }

  lemma KeepFront<T>(front: seq<T>, back: seq<T>, p: T -> bool, q: T -> bool, a: nat)
    requires forall v :: v in front ==> q(v) == !p(v)
    requires |Keep(front + back, q)| <= a
    ensures Keep(front + back, p) == Keep(front, p) + Keep(back, p)
    ensures |Keep(front, p)| >= |front| - a
  {
    KeepAppend(front, back, p);
    KeepAppend(front, back, q);
    KeepSplit(front, p, q);
  }

  lemma SuffixSorted<T>(le: (T, T) -> bool, ok: T -> bool, w: seq<T>, v: seq<T>)
    requires Sorted(le, w + v) && All(w + v, ok)
    ensures Sorted(le, v) && All(v, ok)
  {
    var all := w + v;
    assert forall i :: 0 <= i < |v| ==> all[|w| + i] == v[i];
  }

  lemma PrefixNeedsEndFirst<T(!new)>(le: (T, T) -> bool, w: seq<T>, dropped: seq<T>, rest: seq<T>, f: seq<T>)
    requires Sorted(le, f) && multiset(f) == multiset(w + dropped) + multiset(rest)
    requires w == Take(f, |w|) && w != [] && rest != []
    ensures le(w[|w| - 1], rest[0])
  {
    var n := |w|;
    assert f == w + f[n..];
    assert multiset(f[n..]) == multiset(f) - multiset(w);
    assert multiset(w + dropped) == multiset(w) + multiset(dropped);
    assert rest[0] in multiset(rest) && rest[0] in multiset(f[n..]);
    var k :| 0 <= k < |f[n..]| && f[n..][k] == rest[0];
    assert f[n + k] == rest[0] && w[n - 1] == f[n - 1];
  }

  lemma EndFirstMakesPrefix<T(!new)>(le: (T, T) -> bool, ok: T -> bool, w: seq<T>, dropped: seq<T>, rest: seq<T>, f: seq<T>)
    requires Linear(le, ok) && All(f, ok)
    requires Sorted(le, f) && Sorted(le, w + dropped) && Sorted(le, rest)
    requires multiset(f) == multiset(w + dropped) + multiset(rest)
    requires w == [] || rest == [] || le(w[|w| - 1], rest[0])
    ensures w == Take(f, |w|)
  {
    var n := |w|;
    assert multiset(w + dropped) == multiset(w) + multiset(dropped);
    SameContentsAll(f, w + dropped, ok);
    SameContentsAll(f, rest, ok);
    SuffixSorted(le, ok, w, dropped);
    MergeSorted(le, ok, dropped, rest);
    MergeContents(le, dropped, rest);
    var tail := Merge(le, dropped, rest);
    GlueSorted(le, ok, w, dropped, rest);
    SortedUnique(le, ok, f, w + tail);
  }

  /** The end of the window comes before everything merged behind it. */
  lemma GlueSorted<T(!new)>(le: (T, T) -> bool, ok: T -> bool, w: seq<T>, dropped: seq<T>, rest: seq<T>)
    requires Linear(le, ok) && All(w + dropped, ok) && All(rest, ok)
    requires Sorted(le, w + dropped) && Sorted(le, rest) && Sorted(le, Merge(le, dropped, rest))
    requires w == [] || rest == [] || le(w[|w| - 1], rest[0])
    ensures Sorted(le, w + Merge(le, dropped, rest))
  {
    var tail := Merge(le, dropped, rest);
    var g, n := w + tail, |w|;
    forall i, j | 0 <= i < j < |g|
      ensures le(g[i], g[j])
    {
      if j < n {
        assert (w + dropped)[i] == g[i] && (w + dropped)[j] == g[j];
      } else if i < n {
        assert g[j] == tail[j - n];
        EndBeforeTail(le, ok, w, dropped, rest, i, g[j]);
      }
    }
  }

  /** `w` is a prefix of `f` exactly when nothing in `f` beyond `w` has to come before the end of
      `w`. */
  lemma PrefixExactly<T(!new)>(le: (T, T) -> bool, ok: T -> bool, w: seq<T>, dropped: seq<T>, rest: seq<T>, f: seq<T>)
    requires Linear(le, ok) && All(f, ok)
    requires Sorted(le, f) && Sorted(le, w + dropped) && Sorted(le, rest)
    requires multiset(f) == multiset(w + dropped) + multiset(rest)
    ensures w == Take(f, |w|) <==> w == [] || rest == [] || le(w[|w| - 1], rest[0])
  {
    if w == Take(f, |w|) && w != [] && rest != [] {
      PrefixNeedsEndFirst(le, w, dropped, rest, f);
    }
    if w == [] || rest == [] || le(w[|w| - 1], rest[0]) {
      EndFirstMakesPrefix(le, ok, w, dropped, rest, f);
    }
  }

  /** The same for the first `n` of a sorted `all`. */
  lemma CutExactly<T(!new)>(le: (T, T) -> bool, ok: T -> bool, all: seq<T>, rest: seq<T>, f: seq<T>, n: nat)
    requires Linear(le, ok) && All(f, ok)
    requires Sorted(le, f) && Sorted(le, all) && Sorted(le, rest)
    requires multiset(f) == multiset(all) + multiset(rest)
    ensures var w := Take(all, n);
            w == Take(f, |w|) <==> w == [] || rest == [] || le(w[|w| - 1], rest[0])
  {
    var w := Take(all, n);
    var dropped := all[|w|..];
    assert w + dropped == all;
    PrefixExactly(le, ok, w, dropped, rest, f);
  }

  /** Rows merged in no later than the last kept row leave the end of the window before `v`. */
  lemma CutMergeEnd<T(!new)>(le: (T, T) -> bool, ok: T -> bool, kept: seq<T>, added: seq<T>, n: nat, v: T)
    requires Linear(le, ok) && All(kept, ok) && All(added, ok) && ok(v)
    requires Sorted(le, kept) && Sorted(le, added)
    requires kept != [] && le(kept[|kept| - 1], v)
    requires added == [] || le(added[|added| - 1], kept[|kept| - 1])
    ensures var w := Take(Merge(le, kept, added), n);
            w == [] || le(w[|w| - 1], v)
  {
    var w := Take(Merge(le, kept, added), n);
    if w != [] {
      var end := w[|w| - 1];
      MergeContents(le, kept, added);
      assert end in multiset(Merge(le, kept, added));
      if end in kept {
        LastIsLargest(le, ok, kept, end);
      } else {
        assert end in added;
        LastIsLargest(le, ok, added, end);
        Chain(le, ok, end, added[|added| - 1], kept[|kept| - 1]);
      }
      Chain(le, ok, end, kept[|kept| - 1], v);
    }
  }

  lemma LastIsLargest<T(!new)>(le: (T, T) -> bool, ok: T -> bool, s: seq<T>, v: T)
    requires Linear(le, ok) && All(s, ok) && Sorted(le, s) && v in s
    ensures ok(v) && ok(s[|s| - 1]) && le(v, s[|s| - 1])
  {
    var k :| 0 <= k < |s| && s[k] == v;
    assert k == |s| - 1 || le(s[k], s[|s| - 1]);
  }

  lemma Chain<T(!new)>(le: (T, T) -> bool, ok: T -> bool, x: T, y: T, z: T)
    requires Linear(le, ok) && ok(x) && ok(y) && ok(z) && le(x, y) && le(y, z)
    ensures le(x, z)
  {
  }

  lemma EndBeforeTail<T(!new)>(le: (T, T) -> bool, ok: T -> bool, w: seq<T>, dropped: seq<T>, rest: seq<T>, i: nat, v: T)
    requires Linear(le, ok) && All(w + dropped, ok) && All(rest, ok)
    requires Sorted(le, w + dropped) && Sorted(le, rest)
    requires i < |w| && v in Merge(le, dropped, rest)
    requires rest == [] || le(w[|w| - 1], rest[0])
    ensures le(w[i], v)
  {
    var all := w + dropped;
    MergeContents(le, dropped, rest);
    assert v in multiset(Merge(le, dropped, rest));
    if v in dropped {
      var k :| 0 <= k < |dropped| && dropped[k] == v;
      assert all[i] == w[i] && all[|w| + k] == v;
    } else {
      var k :| 0 <= k < |rest| && rest[k] == v;
      var last := all[|w| - 1];
      assert ok(all[i]) && ok(last) && ok(rest[0]) && ok(rest[k]);
      assert i == |w| - 1 || le(all[i], last);
      assert k == 0 || le(rest[0], rest[k]);
    }
  }
}
