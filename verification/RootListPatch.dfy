/** Patching the cached root list of a GraphQL response (crates/database/src/convert.rs), and the patches
  the renderer produces (crates/gql/src/batch_render.rs).

  A patch is replayed on the previous array: removals in groups from the back, insertions in groups
  from the front, then updates. */
module RootListPatch {
  import opened Options

  datatype Patch =
    | StablePositions(positions: seq<nat>)
    | Splice(removed: seq<nat>, inserted: seq<nat>, updated: seq<nat>)

  // ----- Arrays --------------------------------------------------------------------------------

  function Least(a: nat, b: nat): nat { if a < b then a else b }

  /** JavaScript's `splice`: positions and counts beyond the end are cut off. */
  function SpliceArray<J>(list: seq<J>, start: nat, deleteCount: nat, items: seq<J>): seq<J> {
    var from := Least(start, |list|);
    var to := Least(from + deleteCount, |list|);
    list[..from] + items + list[to..]
  }

  predicate Ascending(s: seq<nat>) { forall i, j :: 0 <= i < j < |s| ==> s[i] < s[j] }

  predicate Distinct<T(==)>(s: seq<T>) { forall i, j :: 0 <= i < j < |s| ==> s[i] != s[j] }

  function InsertSorted(s: seq<nat>, x: nat): (t: seq<nat>)
    ensures |t| == |s| + 1 && forall y: nat :: y in t <==> y == x || y in s
  {
    if s == [] || x <= s[0] then [x] + s else [s[0]] + InsertSorted(s[1..], x)
  }

  function Sort(s: seq<nat>): (t: seq<nat>)
    ensures |t| == |s| && forall y: nat :: y in t <==> y in s
  {
    if s == [] then [] else InsertSorted(Sort(s[1..]), s[0])
  }

  lemma {:induction false} InsertAscends(s: seq<nat>, x: nat)
    requires Ascending(s) && x !in s
    ensures Ascending(InsertSorted(s, x))
  {
    if s != [] && x > s[0] {
      InsertAscends(s[1..], x);
      var rest := InsertSorted(s[1..], x);
      forall j | 0 <= j < |rest| ensures s[0] < rest[j] {
        assert rest[j] in rest;
      }
    }
  }

  lemma {:induction false} SortAscends(s: seq<nat>)
    requires Distinct(s)
    ensures Ascending(Sort(s))
  {
    if s != [] {
      SortAscends(s[1..]);
      assert s[0] !in s[1..];
      InsertAscends(Sort(s[1..]), s[0]);
    }
  }

  // ----- Groups --------------------------------------------------------------------------------

  predicate Covers(groups: seq<(nat, nat)>, x: nat) {
    exists i :: 0 <= i < |groups| && groups[i].0 <= x < groups[i].1
  }

  /** Non-empty ranges in ascending order with gaps between them. */
  predicate Separate(groups: seq<(nat, nat)>) {
    && (forall i :: 0 <= i < |groups| ==> groups[i].0 < groups[i].1)
    && (forall i, j :: 0 <= i < j < |groups| ==> groups[i].1 < groups[j].0)
  }

  lemma CoversAppend(groups: seq<(nat, nat)>, start: nat, end: nat, x: nat)
    ensures Covers(groups + [(start, end)], x) <==> Covers(groups, x) || start <= x < end
  {
    var more := groups + [(start, end)];
    if Covers(groups, x) {
      var i :| 0 <= i < |groups| && groups[i].0 <= x < groups[i].1;
      assert more[i] == groups[i];
    }
    if start <= x < end {
      assert more[|groups|] == (start, end);
    }
  }

  /** The maximal runs of ascending positions, as ranges. */
  method ContiguousInsertGroups(positions: seq<nat>) returns (groups: seq<(nat, nat)>)
    ensures forall x: nat :: Covers(groups, x) <==> x in positions
    ensures Ascending(positions) ==> Separate(groups)
  {
    groups := [];
    if positions == [] {
      return;
    }
    var start: nat, end: nat := positions[0], positions[0] + 1;
    for i := 1 to |positions|
      invariant start < end && positions[i - 1] == end - 1
      invariant forall x: nat :: Covers(groups, x) || start <= x < end <==> x in positions[..i]
      invariant Ascending(positions) ==> Separate(groups) && forall k :: 0 <= k < |groups| ==> groups[k].1 < start
    {
      var position := positions[i];
      assert positions[..i + 1] == positions[..i] + [position];
      if position == end {
        end := end + 1;
      } else {
        forall x: nat ensures Covers(groups + [(start, end)], x) <==> Covers(groups, x) || start <= x < end {
          CoversAppend(groups, start, end, x);
        }
        groups := groups + [(start, end)];
        start, end := position, position + 1;
      }
    }
    assert positions[..|positions|] == positions;
    forall x: nat ensures Covers(groups + [(start, end)], x) <==> Covers(groups, x) || start <= x < end {
      CoversAppend(groups, start, end, x);
    }
    groups := groups + [(start, end)];
  }

  /** Removal groups as ranges in ascending order; the groups themselves are (start, length) from the
      back. */
  function Ranges(groups: seq<(nat, nat)>): (ranges: seq<(nat, nat)>)
    ensures |ranges| == |groups| && forall i :: 0 <= i < |ranges| ==> ranges[i] == Span(groups[|groups| - 1 - i])
  {
    seq(|groups|, i requires 0 <= i < |groups| => Span(groups[|groups| - 1 - i]))
  }

  function Span(group: (nat, nat)): (nat, nat) {
    (group.0, group.0 + group.1)
  }

  predicate Spans(groups: seq<(nat, nat)>, ranges: seq<(nat, nat)>) {
    |ranges| == |groups| && forall k :: 0 <= k < |groups| ==> ranges[k] == Span(groups[k])
  }

  function Reverse<T>(s: seq<T>): (r: seq<T>)
    ensures |r| == |s| && forall i :: 0 <= i < |s| ==> r[i] == s[|s| - 1 - i]
  {
    if s == [] then [] else Reverse(s[1..]) + [s[0]]
  }

  /** The maximal runs of the positions, whatever their order, from the back. */
  method ContiguousRemoveGroups(removed: seq<nat>) returns (groups: seq<(nat, nat)>)
    ensures forall x: nat :: Covers(Ranges(groups), x) <==> x in removed
    ensures Distinct(removed) ==> Separate(Ranges(groups))
  {
    hide Ranges, Reverse;
    groups := [];
    if removed == [] {
      return;
    }
    var positions := Sort(removed);
    if Distinct(removed) {
      SortAscends(removed);
    }
    var start: nat, len: nat := positions[0], 1;
    ghost var ranges: seq<(nat, nat)> := [];
    for i := 1 to |positions|
      invariant len > 0 && positions[i - 1] == start + len - 1
      invariant Spans(groups, ranges)
      invariant forall x: nat :: Covers(ranges, x) || start <= x < start + len <==> x in positions[..i]
      invariant Ascending(positions) ==> Separate(ranges) && forall k :: 0 <= k < |ranges| ==> ranges[k].1 < start
    {
      var position := positions[i];
      assert positions[..i + 1] == positions[..i] + [position];
      if position == start + len {
        len := len + 1;
      } else {
        CloseRange(ranges, start, start + len);
        groups := groups + [(start, len)];
        ranges := ranges + [(start, start + len)];
        start, len := position, 1;
      }
    }
    assert positions[..|positions|] == positions;
    CloseRange(ranges, start, start + len);
    groups := groups + [(start, len)];
    ranges := ranges + [(start, start + len)];
    RangesOfReversed(groups, ranges);
    groups := Reverse(groups);
  }

  lemma RangesOfReversed(groups: seq<(nat, nat)>, ranges: seq<(nat, nat)>)
    requires Spans(groups, ranges)
    ensures Ranges(Reverse(groups)) == ranges
  {
    hide *;
    SpansLength(groups, ranges);
    var reversed := Ranges(Reverse(groups));
    forall k | 0 <= k < |ranges| ensures reversed[k] == ranges[k] {
      RangeAt(groups, ranges, k);
    }
  }

  lemma SpansLength(groups: seq<(nat, nat)>, ranges: seq<(nat, nat)>)
    requires Spans(groups, ranges)
    ensures |Ranges(Reverse(groups))| == |ranges| == |groups|
  {}

  lemma RangeAt(groups: seq<(nat, nat)>, ranges: seq<(nat, nat)>, k: nat)
    requires Spans(groups, ranges) && k < |groups|
    ensures Ranges(Reverse(groups))[k] == ranges[k]
  {
    hide Reverse, Span, Ranges;
    var back := Reverse(groups);
    assert Ranges(back)[k] == Span(back[|back| - 1 - k]);
  }

  lemma CloseRange(groups: seq<(nat, nat)>, start: nat, end: nat)
    ensures forall x: nat :: Covers(groups + [(start, end)], x) <==> Covers(groups, x) || start <= x < end
  {
    forall x: nat ensures Covers(groups + [(start, end)], x) <==> Covers(groups, x) || start <= x < end {
      CoversAppend(groups, start, end, x);
    }
  }

  // ----- Removing ------------------------------------------------------------------------------

  /** The elements from position `k` on that are not removed. */
  function Kept<J>(list: seq<J>, removed: seq<nat>, k: nat): seq<J>
    decreases |list| - k
  {
    if k >= |list| then [] else (if k in removed then [] else [list[k]]) + Kept(list, removed, k + 1)
  }

  lemma {:induction false} KeptStretch<J>(list: seq<J>, removed: seq<nat>, from: nat, to: nat)
    requires from <= to <= |list| && forall k: nat :: from <= k < to ==> k !in removed
    ensures Kept(list, removed, from) == list[from..to] + Kept(list, removed, to)
    decreases (to as int) - from
  {
    if from < to {
      KeptStretch(list, removed, from + 1, to);
      Associate([list[from]], list[from + 1..to], Kept(list, removed, to));
      assert list[from..to] == [list[from]] + list[from + 1..to];
    }
  }

  lemma Associate<J>(a: seq<J>, b: seq<J>, c: seq<J>)
    ensures a + (b + c) == (a + b) + c
  {}

  lemma {:induction false} RemovedStretch<J>(list: seq<J>, removed: seq<nat>, from: nat, to: nat)
    requires from <= to <= |list| && forall k: nat :: from <= k < to ==> k in removed
    ensures Kept(list, removed, from) == Kept(list, removed, to)
    decreases (to as int) - from
  {
    if from < to {
      RemovedStretch(list, removed, from + 1, to);
    }
  }

  /** The first `n` ranges hold the removed positions below `end`. */
  ghost predicate Open(ranges: seq<(nat, nat)>, removed: seq<nat>, n: nat, end: nat) {
    && n <= |ranges|
    && (n > 0 ==> ranges[n - 1].1 <= end)
    && forall x: nat :: x in removed && x < end ==> Covers(ranges[..n], x)
  }

  /** Splicing the groups out from the back leaves exactly the elements that are not removed. */
  method RemoveGroups<J>(previous: seq<J>, removed: seq<nat>) returns (next: seq<J>)
    requires Distinct(removed) && forall x :: x in removed ==> x < |previous|
    ensures next == Kept(previous, removed, 0)
  {
    var groups := ContiguousRemoveGroups(removed);
    ghost var ranges := Ranges(groups);
    ghost var end: nat := |previous|;
    AllOpen(ranges, removed, |previous|);
    next := previous;
    for i := 0 to |groups|
      invariant end <= |previous| && next == previous[..end] + Kept(previous, removed, end)
      invariant Open(ranges, removed, |groups| - i, end)
    {
      assert ranges[|groups| - 1 - i] == (groups[i].0, groups[i].0 + groups[i].1);
      RemoveStep(previous, removed, ranges, |groups| - 1 - i, end);
      next := SpliceArray(next, groups[i].0, groups[i].1, []);
      end := groups[i].0;
    }
    assert forall x: nat :: x < end ==> x !in removed;
    KeptStretch(previous, removed, 0, end);
  }

  lemma AllOpen(ranges: seq<(nat, nat)>, removed: seq<nat>, size: nat)
    requires Separate(ranges) && forall x: nat :: Covers(ranges, x) <==> x in removed
    requires forall x :: x in removed ==> x < size
    ensures Open(ranges, removed, |ranges|, size)
  {
    if ranges != [] {
      assert Covers(ranges, ranges[|ranges| - 1].1 - 1);
    }
    assert ranges[..|ranges|] == ranges;
  }

  lemma RemoveStep<J>(previous: seq<J>, removed: seq<nat>, ranges: seq<(nat, nat)>, last: nat, end: nat)
    requires last < |ranges| && Separate(ranges) && forall x: nat :: Covers(ranges, x) <==> x in removed
    requires Open(ranges, removed, last + 1, end) && end <= |previous|
    ensures var (from, to) := ranges[last];
      && SpliceArray(previous[..end] + Kept(previous, removed, end), from, to - from, [])
           == previous[..from] + Kept(previous, removed, from)
      && Open(ranges, removed, last, from)
  {
    var (from, to) := ranges[last];
    LastRange(ranges, removed, last, end);
    KeptStretch(previous, removed, to, end);
    RemovedStretch(previous, removed, from, to);
    SpliceOut(previous, from, to, end, Kept(previous, removed, end));
  }

  lemma CoveredBelow(ranges: seq<(nat, nat)>, last: nat, x: nat)
    requires last < |ranges| && Separate(ranges)
    ensures Covers(ranges[..last + 1], x) ==> x < ranges[last].1
  {
    if Covers(ranges[..last + 1], x) {
      var i :| 0 <= i < last + 1 && ranges[..last + 1][i].0 <= x < ranges[..last + 1][i].1;
      assert i < last ==> ranges[i].1 < ranges[last].0;
    }
  }

  /** Between the last open range and the part already done nothing is removed. */
  lemma LastRange(ranges: seq<(nat, nat)>, removed: seq<nat>, last: nat, end: nat)
    requires last < |ranges| && Separate(ranges) && ranges[last].1 <= end
    requires forall x: nat :: Covers(ranges, x) <==> x in removed
    requires forall x: nat :: x in removed && x < end ==> Covers(ranges[..last + 1], x)
    ensures forall x: nat :: ranges[last].1 <= x < end ==> x !in removed
    ensures forall x: nat :: ranges[last].0 <= x < ranges[last].1 ==> x in removed
    ensures forall x: nat :: x in removed && x < ranges[last].0 ==> Covers(ranges[..last], x)
    ensures last > 0 ==> ranges[last - 1].1 <= ranges[last].0
  {
    var open := ranges[..last + 1];
    forall x: nat ensures Covers(open, x) ==> x < ranges[last].1 {
      CoveredBelow(ranges, last, x);
    }
    forall x: nat | ranges[last].0 <= x < ranges[last].1 ensures x in removed {
      assert Covers(ranges, x);
    }
    forall x: nat | x in removed && x < ranges[last].0 ensures Covers(ranges[..last], x) {
      var i :| 0 <= i < last + 1 && ranges[..last + 1][i].0 <= x < ranges[..last + 1][i].1;
      assert ranges[..last][i] == ranges[i];
    }
  }

  lemma SpliceOut<J>(previous: seq<J>, start: nat, to: nat, end: nat, tail: seq<J>)
    requires start <= to <= end <= |previous|
    ensures SpliceArray(previous[..end] + tail, start, to - start, []) == previous[..start] + (previous[to..end] + tail)
  {}

  // ----- Inserting -----------------------------------------------------------------------------

  /** How many positions below `n` are not inserted. */
  function Rank(inserted: seq<nat>, n: nat): nat {
    if n == 0 then 0 else Rank(inserted, n - 1) + if n - 1 in inserted then 0 else 1
  }

  lemma {:induction false} RankOutside(inserted: seq<nat>, from: nat, to: nat)
    requires from <= to && forall k: nat :: from <= k < to ==> k !in inserted
    ensures Rank(inserted, to) == Rank(inserted, from) + (to - from)
  {
    if from < to {
      RankOutside(inserted, from, to - 1);
    }
  }

  lemma {:induction false} RankInside(inserted: seq<nat>, from: nat, to: nat)
    requires from <= to && forall k: nat :: from <= k < to ==> k in inserted
    ensures Rank(inserted, to) == Rank(inserted, from)
  {
    if from < to {
      RankInside(inserted, from, to - 1);
    }
  }

  lemma {:induction false} RankGrows(inserted: seq<nat>, from: nat, to: nat)
    requires from <= to
    ensures Rank(inserted, from) <= Rank(inserted, to)
  {
    if from < to {
      RankGrows(inserted, from, to - 1);
    }
  }

  lemma RankOfOld(inserted: seq<nat>, n: nat, size: nat)
    requires n < size && n !in inserted
    ensures Rank(inserted, n) < Rank(inserted, size)
  {
    RankGrows(inserted, n + 1, size);
  }

  /** What the array holds at position `n` once everything below is in place. */
  function Placed<J>(kept: seq<J>, inserted: seq<nat>, current: seq<J>, n: nat): J
    requires n < |current| && Rank(inserted, |current|) == |kept|
  {
    if n in inserted then current[n]
    else
      RankOfOld(inserted, n, |current|);
      kept[Rank(inserted, n)]
  }

  /** The first `n` positions of the array are final; the kept elements that belong behind follow. */
  ghost predicate PlacedTo<J>(list: seq<J>, kept: seq<J>, inserted: seq<nat>, current: seq<J>, n: nat) {
    && n <= |current| && Rank(inserted, |current|) == |kept|
    && Rank(inserted, n) <= |kept|
    && |list| == n + |kept| - Rank(inserted, n)
    && (forall k: nat :: k < n ==> list[k] == Placed(kept, inserted, current, k))
    && (forall k: nat :: n <= k < |list| ==> list[k] == kept[Rank(inserted, n) + (k - n)])
  }

  /** Positions that are not inserted are in place already. */
  lemma PlacedFurther<J>(list: seq<J>, kept: seq<J>, inserted: seq<nat>, current: seq<J>, from: nat, to: nat)
    requires PlacedTo(list, kept, inserted, current, from) && from <= to <= |current|
    requires forall k: nat :: from <= k < to ==> k !in inserted
    ensures PlacedTo(list, kept, inserted, current, to)
  {
    RankOutside(inserted, from, to);
    RankGrows(inserted, to, |current|);
    forall k: nat | k < to ensures k < |list| && list[k] == Placed(kept, inserted, current, k) {
      if k >= from {
        RankOutside(inserted, from, k);
      }
    }
  }

  lemma PlacedRun<J>(list: seq<J>, kept: seq<J>, inserted: seq<nat>, current: seq<J>, from: nat, to: nat)
    requires PlacedTo(list, kept, inserted, current, from) && from <= to <= |current|
    requires forall k: nat :: from <= k < to ==> k in inserted
    ensures PlacedTo(SpliceArray(list, from, 0, current[from..to]), kept, inserted, current, to)
  {
    RankInside(inserted, from, to);
    var next := SpliceArray(list, from, 0, current[from..to]);
    assert next == list[..from] + current[from..to] + list[from..];
  }

  /** The next group starts where nothing was skipped but kept elements. */
  lemma NextGroup(groups: seq<(nat, nat)>, inserted: seq<nat>, i: nat, done: nat, size: nat)
    requires i < |groups| && Separate(groups) && forall x: nat :: Covers(groups, x) <==> x in inserted
    requires if i == 0 then done == 0 else done == groups[i - 1].1
    requires forall x :: x in inserted ==> x < size
    ensures done <= groups[i].0 && groups[i].1 <= size
    ensures forall k: nat :: done <= k < groups[i].0 ==> k !in inserted
    ensures forall k: nat :: groups[i].0 <= k < groups[i].1 ==> k in inserted
  {
    forall k: nat ensures done <= k < groups[i].0 ==> !Covers(groups, k) {
      NotBetween(groups, i, done, k);
    }
    forall k: nat | groups[i].0 <= k < groups[i].1 ensures Covers(groups, k) {}
    assert Covers(groups, groups[i].1 - 1);
  }

  lemma NotBetween(groups: seq<(nat, nat)>, i: nat, done: nat, k: nat)
    requires i < |groups| && Separate(groups)
    requires if i == 0 then done == 0 else done == groups[i - 1].1
    ensures done <= k < groups[i].0 ==> !Covers(groups, k)
  {
    forall j | 0 <= j < |groups| ensures done <= k < groups[i].0 ==> !(groups[j].0 <= k < groups[j].1) {
      if j < i {
        assert groups[j].1 <= done;
      }
    }
  }

  lemma NoneBehind(groups: seq<(nat, nat)>, inserted: seq<nat>, done: nat)
    requires Separate(groups) && forall x: nat :: Covers(groups, x) <==> x in inserted
    requires done == if groups == [] then 0 else groups[|groups| - 1].1
    ensures forall k: nat :: done <= k ==> k !in inserted
  {
    forall k: nat ensures done <= k ==> !Covers(groups, k) {
      forall j | 0 <= j < |groups| ensures done <= k ==> !(groups[j].0 <= k < groups[j].1) {
        assert groups[j].1 <= done;
      }
    }
  }

  /** Splicing the groups in from the front puts every inserted element at its position. */
  method InsertGroups<J>(kept: seq<J>, inserted: seq<nat>, current: seq<J>) returns (next: seq<J>)
    requires Ascending(inserted) && (forall x :: x in inserted ==> x < |current|)
    requires Rank(inserted, |current|) == |kept|
    ensures |next| == |current|
    ensures forall n: nat :: n < |current| ==> next[n] == Placed(kept, inserted, current, n)
  {
    var groups := ContiguousInsertGroups(inserted);
    next := kept;
    ghost var done: nat := 0;
    for i := 0 to |groups|
      invariant done == if i == 0 then 0 else groups[i - 1].1
      invariant PlacedTo(next, kept, inserted, current, done)
    {
      var (start, end) := groups[i];
      NextGroup(groups, inserted, i, done, |current|);
      PlacedFurther(next, kept, inserted, current, done, start);
      PlacedRun(next, kept, inserted, current, start, end);
      next := SpliceArray(next, start, 0, current[start..end]);
      done := end;
    }
    NoneBehind(groups, inserted, done);
    PlacedFurther(next, kept, inserted, current, done, |current|);
  }

  // ----- Replaying a patch ---------------------------------------------------------------------

  /** The array after the patched positions are set. */
  function Updated<J>(list: seq<J>, positions: seq<nat>, current: seq<J>): (r: seq<J>)
    requires |list| == |current|
    ensures |r| == |list|
    ensures forall n: nat :: n < |list| ==> r[n] == if n in positions then current[n] else list[n]
  {
    seq(|list|, n requires 0 <= n < |list| => if n in positions then current[n] else list[n])
  }

  method SetPositions<J>(list: seq<J>, positions: seq<nat>, current: seq<J>) returns (next: seq<J>)
    requires |list| == |current|
    ensures next == Updated(list, positions, current)
  {
    next := list;
    for i := 0 to |positions|
      invariant next == Updated(list, positions[..i], current)
    {
      assert positions[..i + 1] == positions[..i] + [positions[i]];
      if positions[i] < |current| {
        next := next[positions[i] := current[positions[i]]];
      }
    }
    assert positions[..|positions|] == positions;
  }

  /** The positions of a splice patch fit the previous and the new list. */
  ghost predicate FitsLists(patch: Patch, oldSize: nat, newSize: nat)
    requires patch.Splice?
  {
    && Distinct(patch.removed) && (forall x :: x in patch.removed ==> x < oldSize)
    && Ascending(patch.inserted) && (forall x :: x in patch.inserted ==> x < newSize)
    && Rank(patch.inserted, newSize) == Rank(patch.removed, oldSize)
  }

  lemma {:induction false} KeptCount<J>(list: seq<J>, removed: seq<nat>, k: nat)
    requires k <= |list|
    ensures |Kept(list, removed, k)| == Rank(removed, |list|) - Rank(removed, k)
    decreases |list| - k
  {
    if k < |list| {
      KeptCount(list, removed, k + 1);
    }
  }

  lemma {:induction false} KeptAt<J>(list: seq<J>, removed: seq<nat>, k: nat, p: nat)
    requires k <= p < |list| && p !in removed
    ensures Rank(removed, k) <= Rank(removed, p)
    ensures Rank(removed, p) - Rank(removed, k) < |Kept(list, removed, k)|
    ensures Kept(list, removed, k)[Rank(removed, p) - Rank(removed, k)] == list[p]
    decreases |list| - k
  {
    if k < p {
      KeptAt(list, removed, k + 1, p);
    }
  }

  /** The array a splice patch leaves at position `n`. */
  function Replayed<J>(previous: seq<J>, patch: Patch, current: seq<J>, n: nat): J
    requires patch.Splice? && FitsLists(patch, |previous|, |current|) && n < |current|
  {
    KeptCount(previous, patch.removed, 0);
    if n in patch.updated then current[n] else Placed(Kept(previous, patch.removed, 0), patch.inserted, current, n)
  }

  method ReplaySplice<J>(previous: seq<J>, patch: Patch, current: seq<J>) returns (next: seq<J>)
    requires patch.Splice? && FitsLists(patch, |previous|, |current|)
    ensures |next| == |current| && forall n: nat :: n < |current| ==> next[n] == Replayed(previous, patch, current, n)
  {
    KeptCount(previous, patch.removed, 0);
    next := RemoveGroups(previous, patch.removed);
    next := InsertGroups(next, patch.inserted, current);
    next := SetPositions(next, patch.updated, current);
  }

  /** A position that stays holds the kept element of its rank. */
  ghost predicate Unchanged<J>(previous: seq<J>, patch: Patch, current: seq<J>)
    requires patch.Splice? && FitsLists(patch, |previous|, |current|)
  {
    KeptCount(previous, patch.removed, 0);
    forall n: nat :: n < |current| && n !in patch.inserted && n !in patch.updated ==>
      Placed(Kept(previous, patch.removed, 0), patch.inserted, current, n) == current[n]
  }

  /** Replaying yields exactly the new list if and only if the positions the patch does not mention
      are unchanged. */
  lemma ReplaysExactly<J>(previous: seq<J>, patch: Patch, current: seq<J>)
    requires patch.Splice? && FitsLists(patch, |previous|, |current|)
    ensures (forall n: nat :: n < |current| ==> Replayed(previous, patch, current, n) == current[n])
       <==> Unchanged(previous, patch, current)
  {
    KeptCount(previous, patch.removed, 0);
    if forall n: nat :: n < |current| ==> Replayed(previous, patch, current, n) == current[n] {
      forall n: nat | n < |current| && n !in patch.inserted && n !in patch.updated
        ensures Placed(Kept(previous, patch.removed, 0), patch.inserted, current, n) == current[n]
      {
        assert Replayed(previous, patch, current, n) == current[n];
      }
    }
  }

  // ----- The cached root list ------------------------------------------------------------------

  function Encoded<V, J>(encode: V -> J, items: seq<V>): (list: seq<J>)
    ensures |list| == |items| && forall i :: 0 <= i < |items| ==> list[i] == encode(items[i])
  {
    seq(|items|, i requires 0 <= i < |items| => encode(items[i]))
  }

  /** Whether a patch leads from the previous list to the current one. */
  ghost predicate Describes<J>(previous: Option<seq<J>>, patch: Option<Patch>, current: seq<J>)
    requires previous.Some? && patch.Some? && patch.value.Splice? ==> FitsLists(patch.value, |previous.value|, |current|)
  {
    previous.Some? && patch.Some? ==>
      match patch.value
      case StablePositions(positions) =>
        |previous.value| == |current| ==>
          forall n: nat :: n < |current| && n !in positions ==> previous.value[n] == current[n]
      case Splice(_, _, _) => Unchanged(previous.value, patch.value, current)
  }

  class RootListCache<J> {
    var list: Option<seq<J>>

    constructor ()
      ensures list == None
    {
      list := None;
    }

    /** Patches the cached array, or encodes all items when there is nothing to patch. The array is the
        encoded list if and only if the patch describes the change. */
    method Respond<V>(items: seq<V>, encode: V -> J, patch: Option<Patch>) returns (next: seq<J>)
      requires list.Some? && patch.Some? && patch.value.Splice? ==> FitsLists(patch.value, |list.value|, |items|)
      modifies this
      ensures list == Some(next) && |next| == |items|
      ensures next == Encoded(encode, items) <==> Describes(old(list), patch, Encoded(encode, items))
    {
      var current := Encoded(encode, items);
      if list.Some? && patch.Some? && patch.value.StablePositions? && |list.value| == |items| {
        next := SetPositions(list.value, patch.value.positions, current);
      } else if list.Some? && patch.Some? && patch.value.Splice? {
        next := ReplaySplice(list.value, patch.value, current);
        ReplaysExactly(list.value, patch.value, current);
        SameAt(next, current);
      } else {
        next := current;
      }
      list := Some(next);
    }
  }

  lemma SameAt<J>(a: seq<J>, b: seq<J>)
    requires |a| == |b|
    ensures a == b <==> forall n: nat :: n < |a| ==> a[n] == b[n]
  {}

  // ----- The patches of the renderer -----------------------------------------------------------

  /** A root row of the new result: its id, whether its version changed or it was marked dirty, and what
      rendering it yields. */
  datatype RootRow<V> = RootRow(id: nat, dirty: bool, rendered: V)

  function IdsOf<V>(rows: seq<RootRow<V>>): (ids: seq<nat>)
    ensures |ids| == |rows| && forall i :: 0 <= i < |rows| ==> ids[i] == rows[i].id
  {
    seq(|rows|, i requires 0 <= i < |rows| => rows[i].id)
  }

  function PositionOf(ids: seq<nat>, id: nat): (at: nat)
    requires id in ids
    ensures at < |ids| && ids[at] == id
  {
    if ids[0] == id then 0 else 1 + PositionOf(ids[1..], id)
  }

  /** The positions of the cached rows that are gone, and of the new rows that were not there. */
  ghost predicate Gone(oldIds: seq<nat>, newIds: seq<nat>, removed: seq<nat>) {
    forall x: nat {:trigger x in removed} :: x in removed <==> x < |oldIds| && oldIds[x] !in newIds
  }

  /** The rows that stay keep their order. */
  ghost predicate KeepsOrder(oldIds: seq<nat>, newIds: seq<nat>, n: nat)
    requires n <= |newIds|
  {
    forall i, j {:trigger PositionOf(oldIds, newIds[i]), PositionOf(oldIds, newIds[j])} ::
      0 <= i < j < n && newIds[i] in oldIds && newIds[j] in oldIds ==>
        PositionOf(oldIds, newIds[i]) < PositionOf(oldIds, newIds[j])
  }

  /** The old position behind the last row before `n` that stays. */
  function OldEnd(oldIds: seq<nat>, newIds: seq<nat>, n: nat): nat
    requires n <= |newIds|
  {
    if n == 0 then 0
    else if newIds[n - 1] in oldIds then PositionOf(oldIds, newIds[n - 1]) + 1
    else OldEnd(oldIds, newIds, n - 1)
  }

  lemma {:induction false} OldEndBound(oldIds: seq<nat>, newIds: seq<nat>, n: nat)
    requires n <= |newIds|
    ensures OldEnd(oldIds, newIds, n) <= |oldIds|
    ensures OldEnd(oldIds, newIds, n) > 0 ==>
              exists m :: 0 <= m < n && newIds[m] in oldIds && PositionOf(oldIds, newIds[m]) + 1 == OldEnd(oldIds, newIds, n)
    ensures forall m :: 0 <= m < n && newIds[m] in oldIds && KeepsOrder(oldIds, newIds, n) ==>
              PositionOf(oldIds, newIds[m]) < OldEnd(oldIds, newIds, n)
  {
    if n > 0 {
      OldEndBound(oldIds, newIds, n - 1);
    }
  }

  /** An old row between two neighbouring rows that stay is gone. */
  lemma BetweenIsGone(oldIds: seq<nat>, newIds: seq<nat>, removed: seq<nat>, n: nat, end: nat, p: nat)
    requires Distinct(oldIds) && Gone(oldIds, newIds, removed) && KeepsOrder(oldIds, newIds, |newIds|)
    requires n <= |newIds| && OldEnd(oldIds, newIds, n) <= p < end <= |oldIds|
    requires forall m :: n <= m < |newIds| && newIds[m] in oldIds ==> end <= PositionOf(oldIds, newIds[m])
    ensures p in removed
  {
    OldEndBound(oldIds, newIds, n);
    var id := oldIds[p];
    forall m | 0 <= m < |newIds| ensures newIds[m] != id {
      if newIds[m] in oldIds && m < n {
        assert PositionOf(oldIds, newIds[m]) < OldEnd(oldIds, newIds, n);
      }
      IdAt(oldIds, p);
    }
  }

  lemma IdAt(ids: seq<nat>, p: nat)
    requires Distinct(ids) && p < |ids|
    ensures PositionOf(ids, ids[p]) == p
  {}

  /** As many rows stay before a new position as before the matching old one. */
  lemma RanksStart(oldIds: seq<nat>, newIds: seq<nat>, removed: seq<nat>, inserted: seq<nat>)
    ensures Rank(inserted, 0) == Rank(removed, OldEnd(oldIds, newIds, 0)) == 0
  {}

  lemma {:induction false} RanksAgree(oldIds: seq<nat>, newIds: seq<nat>, removed: seq<nat>, inserted: seq<nat>, n: nat)
    requires Distinct(oldIds) && Gone(oldIds, newIds, removed) && Gone(newIds, oldIds, inserted)
    requires KeepsOrder(oldIds, newIds, |newIds|) && n <= |newIds|
    ensures Rank(inserted, n) == Rank(removed, OldEnd(oldIds, newIds, n))
    decreases n
  {
    hide *;
    if n == 0 {
      RanksStart(oldIds, newIds, removed, inserted);
    } else {
      RanksAgree(oldIds, newIds, removed, inserted, n - 1);
      if newIds[n - 1] in oldIds {
        StayingRank(oldIds, newIds, removed, n - 1);
        StayingCounts(oldIds, newIds, removed, inserted, n - 1);
      } else {
        NewCounts(oldIds, newIds, inserted, n - 1);
      }
    }
  }

  lemma StayingCounts(oldIds: seq<nat>, newIds: seq<nat>, removed: seq<nat>, inserted: seq<nat>, n: nat)
    requires Gone(oldIds, newIds, removed) && Gone(newIds, oldIds, inserted) && n < |newIds| && newIds[n] in oldIds
    ensures Rank(inserted, n + 1) == Rank(inserted, n) + 1
    ensures var p := PositionOf(oldIds, newIds[n]); Rank(removed, p + 1) == Rank(removed, p) + 1
    ensures OldEnd(oldIds, newIds, n + 1) == PositionOf(oldIds, newIds[n]) + 1
  {
    assert PositionOf(oldIds, newIds[n]) !in removed && n !in inserted;
  }

  lemma NewCounts(oldIds: seq<nat>, newIds: seq<nat>, inserted: seq<nat>, n: nat)
    requires Gone(newIds, oldIds, inserted) && n < |newIds| && newIds[n] !in oldIds
    ensures Rank(inserted, n + 1) == Rank(inserted, n)
    ensures OldEnd(oldIds, newIds, n + 1) == OldEnd(oldIds, newIds, n)
  {
    assert n in inserted;
  }

  lemma StayingRank(oldIds: seq<nat>, newIds: seq<nat>, removed: seq<nat>, n: nat)
    requires Distinct(oldIds) && Gone(oldIds, newIds, removed) && KeepsOrder(oldIds, newIds, |newIds|)
    requires n < |newIds| && newIds[n] in oldIds
    ensures Rank(removed, PositionOf(oldIds, newIds[n])) == Rank(removed, OldEnd(oldIds, newIds, n))
  {
    var p, end := PositionOf(oldIds, newIds[n]), OldEnd(oldIds, newIds, n);
    OldEndBound(oldIds, newIds, n);
    forall q: nat | end <= q < p ensures q in removed {
      BetweenIsGone(oldIds, newIds, removed, n, p, q);
    }
    RankInside(removed, end, p);
  }

  lemma TotalsAgree(oldIds: seq<nat>, newIds: seq<nat>, removed: seq<nat>, inserted: seq<nat>)
    requires Distinct(oldIds) && Gone(oldIds, newIds, removed) && Gone(newIds, oldIds, inserted)
    requires KeepsOrder(oldIds, newIds, |newIds|)
    ensures Rank(inserted, |newIds|) == Rank(removed, |oldIds|)
  {
    var end := OldEnd(oldIds, newIds, |newIds|);
    RanksAgree(oldIds, newIds, removed, inserted, |newIds|);
    OldEndBound(oldIds, newIds, |newIds|);
    forall q: nat | end <= q < |oldIds| ensures q in removed {
      BetweenIsGone(oldIds, newIds, removed, |newIds|, |oldIds|, q);
    }
    RankInside(removed, end, |oldIds|);
  }

  /** The element kept for a row that stays is its cached one. */
  lemma KeptForRow<J>(oldIds: seq<nat>, newIds: seq<nat>, removed: seq<nat>, inserted: seq<nat>, list: seq<J>, current: seq<J>, n: nat)
    requires Distinct(oldIds) && Gone(oldIds, newIds, removed) && Gone(newIds, oldIds, inserted)
    requires KeepsOrder(oldIds, newIds, |newIds|) && |list| == |oldIds| && |current| == |newIds|
    requires n < |newIds| && newIds[n] in oldIds
    ensures Rank(inserted, |current|) == |Kept(list, removed, 0)|
    ensures Placed(Kept(list, removed, 0), inserted, current, n) == list[PositionOf(oldIds, newIds[n])]
  {
    TotalsAgree(oldIds, newIds, removed, inserted);
    RankOfRow(oldIds, newIds, removed, inserted, n);
    PlacedIsKept(list, removed, inserted, current, n, PositionOf(oldIds, newIds[n]));
  }

  lemma PlacedIsKept<J>(list: seq<J>, removed: seq<nat>, inserted: seq<nat>, current: seq<J>, n: nat, p: nat)
    requires n < |current| && p < |list| && n !in inserted && p !in removed
    requires Rank(inserted, n) == Rank(removed, p) && Rank(inserted, |current|) == Rank(removed, |list|)
    ensures Rank(inserted, |current|) == |Kept(list, removed, 0)|
    ensures Placed(Kept(list, removed, 0), inserted, current, n) == list[p]
  {
    KeptCount(list, removed, 0);
    KeptAt(list, removed, 0, p);
  }

  lemma RankOfRow(oldIds: seq<nat>, newIds: seq<nat>, removed: seq<nat>, inserted: seq<nat>, n: nat)
    requires Distinct(oldIds) && Gone(oldIds, newIds, removed) && Gone(newIds, oldIds, inserted)
    requires KeepsOrder(oldIds, newIds, |newIds|) && n < |newIds| && newIds[n] in oldIds
    ensures PositionOf(oldIds, newIds[n]) !in removed && n !in inserted
    ensures Rank(inserted, n) == Rank(removed, PositionOf(oldIds, newIds[n]))
  {
    RanksAgree(oldIds, newIds, removed, inserted, n);
    StayingRank(oldIds, newIds, removed, n);
  }

  /** What the renderer puts at a position: the cached item of an unchanged row, else the rendered one. */
  function ItemAt<V>(oldIds: seq<nat>, oldItems: seq<V>, row: RootRow<V>): V
    requires |oldIds| == |oldItems|
  {
    if row.id in oldIds && !row.dirty then oldItems[PositionOf(oldIds, row.id)] else row.rendered
  }

  predicate NeedsUpdate<V(==)>(oldIds: seq<nat>, oldItems: seq<V>, row: RootRow<V>)
    requires |oldIds| == |oldItems|
  {
    row.id in oldIds && row.dirty && oldItems[PositionOf(oldIds, row.id)] != row.rendered
  }

  /** The renderer's splice: no patch if a row moved, else the new items and what changed. */
  method TryRenderSplice<V(==)>(oldIds: seq<nat>, oldItems: seq<V>, rows: seq<RootRow<V>>)
    returns (result: Option<(seq<V>, Patch)>)
    requires |oldIds| == |oldItems| && Distinct(oldIds) && Distinct(IdsOf(rows))
    ensures result.None? <==> !KeepsOrder(oldIds, IdsOf(rows), |rows|)
    ensures result.Some? ==> var (items, patch) := result.value;
      && patch.Splice? && Distinct(patch.removed) && Ascending(patch.inserted)
      && Gone(oldIds, IdsOf(rows), patch.removed) && Gone(IdsOf(rows), oldIds, patch.inserted)
      && |items| == |rows|
      && (forall n :: 0 <= n < |rows| ==> items[n] == ItemAt(oldIds, oldItems, rows[n]))
      && (forall n: nat :: n in patch.updated <==> n < |rows| && NeedsUpdate(oldIds, oldItems, rows[n]))
  {
    var newIds := IdsOf(rows);
    var removed := MissingFrom(oldIds, newIds);
    ghost var ascending := removed;
    removed := Reverse(removed);
    ReverseMembers(ascending);
    var inserted := MissingFrom(newIds, oldIds);
    var ordered := InOrder(oldIds, newIds);
    if !ordered {
      return None;
    }
    var items, updated := RenderItems(oldIds, oldItems, rows);
    result := Some((items, Splice(removed, inserted, updated)));
  }

  lemma ReverseMembers(s: seq<nat>)
    ensures forall x :: x in Reverse(s) <==> x in s
    ensures Ascending(s) ==> Distinct(Reverse(s))
  {
    forall x | x in s ensures x in Reverse(s) {
      var i :| 0 <= i < |s| && s[i] == x;
      assert Reverse(s)[|s| - 1 - i] == x;
    }
  }

  /** Walks the rows that stay and stops at one that moved back. */
  method InOrder(oldIds: seq<nat>, newIds: seq<nat>) returns (ordered: bool)
    requires Distinct(oldIds) && Distinct(newIds)
    ensures ordered <==> KeepsOrder(oldIds, newIds, |newIds|)
  {
    var lastOldPosition: Option<nat> := None;
    for n := 0 to |newIds|
      invariant KeepsOrder(oldIds, newIds, n)
      invariant lastOldPosition == if OldEnd(oldIds, newIds, n) == 0 then None else Some(OldEnd(oldIds, newIds, n) - 1)
    {
      if newIds[n] in oldIds {
        var oldPosition := PositionOf(oldIds, newIds[n]);
        if lastOldPosition.Some? && oldPosition < lastOldPosition.value {
          MovedBack(oldIds, newIds, n);
          return false;
        }
        StaysBehind(oldIds, newIds, n);
        lastOldPosition := Some(oldPosition);
      } else {
        assert KeepsOrder(oldIds, newIds, n + 1);
      }
    }
    return true;
  }

  method RenderItems<V(==)>(oldIds: seq<nat>, oldItems: seq<V>, rows: seq<RootRow<V>>) returns (items: seq<V>, updated: seq<nat>)
    requires |oldIds| == |oldItems|
    ensures |items| == |rows| && forall n :: 0 <= n < |rows| ==> items[n] == ItemAt(oldIds, oldItems, rows[n])
    ensures forall n: nat :: n in updated <==> n < |rows| && NeedsUpdate(oldIds, oldItems, rows[n])
  {
    items, updated := [], [];
    for n := 0 to |rows|
      invariant |items| == n && forall k :: 0 <= k < n ==> items[k] == ItemAt(oldIds, oldItems, rows[k])
      invariant forall k: nat :: k in updated <==> k < n && NeedsUpdate(oldIds, oldItems, rows[k])
    {
      var row := rows[n];
      if row.id in oldIds && !row.dirty {
        items := items + [oldItems[PositionOf(oldIds, row.id)]];
      } else if row.id in oldIds {
        if oldItems[PositionOf(oldIds, row.id)] == row.rendered {
          items := items + [oldItems[PositionOf(oldIds, row.id)]];
        } else {
          updated := updated + [n];
          items := items + [row.rendered];
        }
      } else {
        items := items + [row.rendered];
      }
    }
  }

  /** The positions of the ids that do not occur among the others, in ascending order. */
  method MissingFrom(ids: seq<nat>, others: seq<nat>) returns (positions: seq<nat>)
    ensures Gone(ids, others, positions) && Ascending(positions)
  {
    positions := [];
    for i := 0 to |ids|
      invariant forall x: nat :: x in positions <==> x < i && ids[x] !in others
      invariant Ascending(positions)
    {
      if ids[i] !in others {
        assert forall k :: 0 <= k < |positions| ==> positions[k] in positions;
        positions := positions + [i];
      }
    }
  }

  lemma MovedBack(oldIds: seq<nat>, newIds: seq<nat>, n: nat)
    requires n < |newIds| && newIds[n] in oldIds && PositionOf(oldIds, newIds[n]) + 1 < OldEnd(oldIds, newIds, n)
    ensures !KeepsOrder(oldIds, newIds, |newIds|)
  {
    OldEndBound(oldIds, newIds, n);
  }

  lemma StaysBehind(oldIds: seq<nat>, newIds: seq<nat>, n: nat)
    requires n < |newIds| && Distinct(newIds) && KeepsOrder(oldIds, newIds, n)
    requires newIds[n] in oldIds && PositionOf(oldIds, newIds[n]) + 1 >= OldEnd(oldIds, newIds, n)
    ensures KeepsOrder(oldIds, newIds, n + 1)
  {
    OldEndBound(oldIds, newIds, n);
    forall i | 0 <= i < n && newIds[i] in oldIds ensures PositionOf(oldIds, newIds[i]) < PositionOf(oldIds, newIds[n]) {
      assert newIds[i] != newIds[n];
    }
  }

  /** A patch of the renderer describes the change from the cached list to the new items, so that
      replaying it on the encoded list gives the encoded items. */
  lemma RenderedPatchDescribes<V, J>(oldIds: seq<nat>, oldItems: seq<V>, rows: seq<RootRow<V>>, items: seq<V>, patch: Patch,
                                     encode: V -> J)
    requires |oldIds| == |oldItems| && Distinct(oldIds) && Distinct(IdsOf(rows)) && KeepsOrder(oldIds, IdsOf(rows), |rows|)
    requires patch.Splice? && Distinct(patch.removed) && Ascending(patch.inserted)
    requires Gone(oldIds, IdsOf(rows), patch.removed) && Gone(IdsOf(rows), oldIds, patch.inserted)
    requires |items| == |rows| && forall n :: 0 <= n < |rows| ==> items[n] == ItemAt(oldIds, oldItems, rows[n])
    requires forall n: nat :: n in patch.updated <==> n < |rows| && NeedsUpdate(oldIds, oldItems, rows[n])
    ensures FitsLists(patch, |oldItems|, |items|)
    ensures Describes(Some(Encoded(encode, oldItems)), Some(patch), Encoded(encode, items))
  {
    var newIds, previous, current := IdsOf(rows), Encoded(encode, oldItems), Encoded(encode, items);
    TotalsAgree(oldIds, newIds, patch.removed, patch.inserted);
    KeptCount(previous, patch.removed, 0);
    forall n: nat | n < |current| && n !in patch.inserted && n !in patch.updated
      ensures Placed(Kept(previous, patch.removed, 0), patch.inserted, current, n) == current[n]
    {
      KeptForRow(oldIds, newIds, patch.removed, patch.inserted, previous, current, n);
    }
  }
}
