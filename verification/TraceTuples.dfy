/** Rows put together from stretches of stored rows without copying them
  (crates/incremental/src/trace.rs).

  A tuple is a list of segments; what it stands for are its cells, one per position. A cell is empty
  where a stretch reaches past the tuple it was taken from. */
module TraceTuples {
  import opened Options
  import opened Values
  import opened Expressions
  import opened Layouts

  /** A shared row. Rows are told apart by address, and one address holds one row. */
  datatype Stored = Stored(address: nat, values: Row)

  datatype Kind = FromRow(row: Stored, start: nat) | AllNull | Missing

  datatype Segment = Segment(start: nat, length: nat, kind: Kind)

  datatype Tuple = Tuple(length: nat, segments: seq<Segment>)

  // ----- Cells ---------------------------------------------------------------------------------

  type Cells = seq<Option<Value>>

  function CellAt(kind: Kind, offset: nat): Option<Value> {
    match kind
    case FromRow(row, start) => RowLookup(row.values)(start + offset)
    case AllNull => Some(Null)
    case Missing => None
  }

  function CellsOf(s: Segment): (cells: Cells)
    ensures |cells| == s.length && forall i :: 0 <= i < s.length ==> cells[i] == CellAt(s.kind, i)
  {
    seq(s.length, i requires 0 <= i < s.length => CellAt(s.kind, i))
  }

  function CellsIn(segments: seq<Segment>): Cells {
    if segments == [] then [] else CellsIn(segments[..|segments| - 1]) + CellsOf(segments[|segments| - 1])
  }

  /** Every segment starts where the previous one ends. */
  ghost predicate Contiguous(segments: seq<Segment>) {
    forall k :: 0 <= k < |segments| ==> segments[k].length > 0 && segments[k].start == |CellsIn(segments[..k])|
  }

  ghost predicate WellFormed(t: Tuple) { Contiguous(t.segments) && t.length == |CellsIn(t.segments)| }

  /** `length` cells from position `from`; positions past the end are empty. */
  function Stretch(cells: Cells, from: nat, length: nat): (r: Cells)
    ensures |r| == length
  {
    seq(length, i requires 0 <= i < length => if from + i < |cells| then cells[from + i] else None)
  }

  function NullCells(n: nat): (cells: Cells)
    ensures |cells| == n
  {
    seq(n, i => Some(Null))
  }

  function ConcatCells(left: Cells, right: Cells, leftWidth: nat): Cells { Stretch(left, 0, leftWidth) + right }

  function ProjectCells(cells: Cells, columns: seq<nat>): (r: Cells)
    ensures |r| == |columns|
  {
    seq(|columns|, i requires 0 <= i < |columns| => if columns[i] < |cells| then cells[columns[i]] else None)
  }

  function AllPresent(row: Row): (cells: Cells)
    ensures |cells| == |row|
  {
    seq(|row|, i requires 0 <= i < |row| => Some(row[i]))
  }

  function LookupIn(cells: Cells): Lookup { (i: nat) => if i < |cells| then cells[i] else None }

  /** The row a tuple materializes to: its cells without the empty ones. */
  function Present(cells: Cells): Row {
    if cells == [] then [] else (if cells[0].Some? then [cells[0].value] else []) + Present(cells[1..])
  }

  lemma {:induction false} PresentConcat(a: Cells, b: Cells)
    ensures Present(a + b) == Present(a) + Present(b)
  {
    if a == [] {
      assert a + b == b;
    } else {
      PresentConcat(a[1..], b);
      assert (a + b)[1..] == a[1..] + b;
      AppendRows(if a[0].Some? then [a[0].value] else [], Present(a[1..]), Present(b));
    }
  }

  lemma AppendRows(a: Row, b: Row, c: Row)
    ensures (a + b) + c == a + (b + c)
  {}

  lemma {:induction false} PresentOfRow(row: Row)
    ensures Present(AllPresent(row)) == row
  {
    if row != [] {
      PresentOfRow(row[1..]);
      assert AllPresent(row)[1..] == AllPresent(row[1..]);
      assert row == [row[0]] + row[1..];
    }
  }

  /** No cell behind an empty one has a value. */
  ghost predicate Solid(cells: Cells) {
    forall i, j :: 0 <= i < j < |cells| && cells[j].Some? ==> cells[i].Some?
  }

  ghost predicate LooksLike(cells: Cells, row: Row) { forall i: nat :: LookupIn(cells)(i) == RowLookup(row)(i) }

  /** A tuple answers every lookup like its materialized row if and only if no value follows an empty
      cell: materializing drops empty cells and so moves the values behind them. */
  lemma {:induction false} LooksLikeRowExactly(cells: Cells)
    ensures LooksLike(cells, Present(cells)) <==> Solid(cells)
    decreases |cells|
  {
    if cells == [] {
    } else if cells[0].Some? {
      LooksLikeRowExactly(cells[1..]);
      HeadPresent(cells);
      SolidTail(cells);
    } else {
      HeadEmpty(cells);
    }
  }

  lemma HeadPresent(cells: Cells)
    requires cells != [] && cells[0].Some?
    ensures LooksLike(cells, Present(cells)) <==> LooksLike(cells[1..], Present(cells[1..]))
  {
    var tail, row := cells[1..], Present(cells[1..]);
    assert Present(cells) == [cells[0].value] + row;
    assert forall i: nat :: LookupIn(cells)(i + 1) == LookupIn(tail)(i);
    assert forall i: nat :: RowLookup(Present(cells))(i + 1) == RowLookup(row)(i);
    if LooksLike(cells, Present(cells)) {
      forall i: nat ensures LookupIn(tail)(i) == RowLookup(row)(i) {
        assert LookupIn(cells)(i + 1) == RowLookup(Present(cells))(i + 1);
      }
    }
    if LooksLike(tail, row) {
      forall i: nat ensures LookupIn(cells)(i) == RowLookup(Present(cells))(i) {
        if i > 0 {
          assert LookupIn(tail)(i - 1) == RowLookup(row)(i - 1);
          assert LookupIn(cells)((i - 1) + 1) == LookupIn(tail)(i - 1);
          assert RowLookup(Present(cells))((i - 1) + 1) == RowLookup(row)(i - 1);
        }
      }
    }
  }

  lemma SolidTail(cells: Cells)
    requires cells != [] && cells[0].Some?
    ensures Solid(cells) <==> Solid(cells[1..])
  {
    if Solid(cells[1..]) {
      forall i, j | 0 <= i < j < |cells| && cells[j].Some? ensures cells[i].Some? {
        if i > 0 {
          assert cells[1..][j - 1].Some? && cells[1..][i - 1] == cells[i];
        }
      }
    }
    if Solid(cells) {
      forall i, j | 0 <= i < j < |cells[1..]| && cells[1..][j].Some? ensures cells[1..][i].Some? {
        assert cells[j + 1].Some? && cells[i + 1] == cells[1..][i];
      }
    }
  }

  lemma HeadEmpty(cells: Cells)
    requires cells != [] && cells[0].None?
    ensures LooksLike(cells, Present(cells)) <==> Solid(cells)
  {
    PresentMembers(cells);
    if Present(cells) == [] {
      assert forall i :: 0 <= i < |cells| ==> cells[i].None?;
    } else {
      assert LookupIn(cells)(0) != RowLookup(Present(cells))(0);
      var j :| 0 <= j < |cells| && cells[j].Some?;
      assert !(cells[j].Some? ==> cells[0].Some?);
    }
  }

  lemma {:induction false} PresentMembers(cells: Cells)
    ensures Present(cells) == [] <==> forall i :: 0 <= i < |cells| ==> cells[i].None?
  {
    if cells != [] {
      PresentMembers(cells[1..]);
      if forall i :: 0 <= i < |cells| ==> cells[i].None? {
        assert cells[0].None?;
        assert forall i :: 0 <= i < |cells[1..]| ==> cells[1..][i] == cells[i + 1];
      } else if cells[0].None? {
        var i :| 0 <= i < |cells| && cells[i].Some?;
        assert cells[1..][i - 1].Some?;
      }
    }
  }

  lemma RowIsSolid(row: Row)
    ensures Solid(AllPresent(row)) && LooksLike(AllPresent(row), row)
  {
    PresentOfRow(row);
    LooksLikeRowExactly(AllPresent(row));
  }

  /** Projecting a column the tuple lacks in front of one it has: the lookup and the row disagree. */
  lemma MissingColumnMovesValues(v: Value)
    ensures var cells := ProjectCells(AllPresent([v]), [1, 0]);
      LookupIn(cells)(0) == None && Present(cells) == [v]
  {
    var cells := ProjectCells(AllPresent([v]), [1, 0]);
    assert cells[1..] == [Some(v)];
    assert Present([Some(v)]) == [v] + Present([Some(v)][1..]);
  }

  // ----- Appending segments --------------------------------------------------------------------

  /** `s` carries on where `last` ends. */
  predicate Continues(last: Segment, s: Segment) {
    && last.start + last.length == s.start
    && match (last.kind, s.kind)
       case (AllNull, AllNull) => true
       case (Missing, Missing) => true
       case (FromRow(row, start), FromRow(row', start')) => row == row' && start + last.length == start'
       case (_, _) => false
  }

  function PushSegment(segments: seq<Segment>, s: Segment): seq<Segment> {
    if s.length == 0 then segments
    else if segments != [] && Continues(segments[|segments| - 1], s) then
      var last := segments[|segments| - 1];
      segments[..|segments| - 1] + [last.(length := last.length + s.length)]
    else segments + [s]
  }

  lemma CellsLast(segments: seq<Segment>, s: Segment)
    ensures CellsIn(segments + [s]) == CellsIn(segments) + CellsOf(s)
  {
    assert (segments + [s])[..|segments|] == segments;
  }

  lemma ContiguousLast(segments: seq<Segment>, s: Segment)
    requires Contiguous(segments) && s.length > 0 && s.start == |CellsIn(segments)|
    ensures Contiguous(segments + [s])
  {
    var all := segments + [s];
    forall k | 0 <= k < |all| ensures all[k].length > 0 && all[k].start == |CellsIn(all[..k])| {
      if k < |segments| {
        assert all[..k] == segments[..k];
      } else {
        assert all[..k] == segments;
      }
    }
  }

  lemma ContiguousFront(segments: seq<Segment>)
    requires Contiguous(segments) && segments != []
    ensures var front, last := segments[..|segments| - 1], segments[|segments| - 1];
      && Contiguous(front) && CellsIn(segments) == CellsIn(front) + CellsOf(last)
      && last.length > 0 && last.start == |CellsIn(front)|
  {
    hide CellsOf;
    var front := segments[..|segments| - 1];
    forall k | 0 <= k < |front| ensures front[k].length > 0 && front[k].start == |CellsIn(front[..k])| {
      assert front[..k] == segments[..k];
    }
  }

  /** Pushing a segment adds its cells, whether or not it is merged into the last one. */
  lemma PushAddsCells(segments: seq<Segment>, s: Segment)
    requires Contiguous(segments) && s.start == |CellsIn(segments)|
    ensures Contiguous(PushSegment(segments, s))
    ensures CellsIn(PushSegment(segments, s)) == CellsIn(segments) + CellsOf(s)
  {
    hide Contiguous, CellsIn, Continues;
    if s.length == 0 {
      assert CellsOf(s) == [];
    } else if segments != [] && Continues(segments[|segments| - 1], s) {
      MergeAddsCells(segments, s);
    } else {
      CellsLast(segments, s);
      ContiguousLast(segments, s);
    }
  }

  lemma MergeAddsCells(segments: seq<Segment>, s: Segment)
    requires Contiguous(segments) && segments != [] && Continues(segments[|segments| - 1], s)
    ensures var front, last := segments[..|segments| - 1], segments[|segments| - 1];
      var merged := front + [last.(length := last.length + s.length)];
      Contiguous(merged) && CellsIn(merged) == CellsIn(segments) + CellsOf(s)
  {
    var front, last := segments[..|segments| - 1], segments[|segments| - 1];
    var longer := last.(length := last.length + s.length);
    hide Contiguous, CellsIn, CellsOf;
    ContiguousFront(segments);
    ContiguousLast(front, longer);
    CellsLast(front, longer);
    MergedCells(last, s);
    AppendCells(CellsIn(front), CellsOf(last), CellsOf(s));
  }

  lemma MergedCells(last: Segment, s: Segment)
    requires Continues(last, s)
    ensures CellsOf(last.(length := last.length + s.length)) == CellsOf(last) + CellsOf(s)
  {
    var longer := last.(length := last.length + s.length);
    forall i | 0 <= i < longer.length ensures CellsOf(longer)[i] == (CellsOf(last) + CellsOf(s))[i] {
      assert CellsOf(longer)[i] == CellAt(last.kind, i);
      if i >= last.length {
        assert CellsOf(s)[i - last.length] == CellAt(s.kind, i - last.length);
      }
    }
  }

  lemma AppendCells(a: Cells, b: Cells, c: Cells)
    ensures (a + b) + c == a + (b + c)
  {}

  function Least(a: nat, b: nat): nat { if a < b then a else b }

  function Greatest(a: nat, b: nat): nat { if a < b then b else a }

  function Shifted(kind: Kind, distance: nat): Kind {
    if kind.FromRow? then kind.(start := kind.start + distance) else kind
  }

  /** The cells of a stretch up to position `done` have been appended. */
  ghost predicate Copied(segments: seq<Segment>, before: Cells, cells: Cells, from: nat, done: nat)
  {
    && Contiguous(segments) && from <= done <= |cells|
    && CellsIn(segments) == before + cells[from..done]
  }

  /** Appends `length` cells of `t` from position `from` on. */
  method AppendLayoutRange(segments: seq<Segment>, t: Tuple, from: nat, length: nat, outputStart: nat)
    returns (grown: seq<Segment>)
    requires Contiguous(segments) && WellFormed(t) && outputStart == |CellsIn(segments)|
    ensures Contiguous(grown) && CellsIn(grown) == CellsIn(segments) + Stretch(CellsIn(t.segments), from, length)
  {
    hide Contiguous, CellsIn, CellsOf, PushSegment;
    if length == 0 {
      return segments;
    }
    ghost var before, cells := CellsIn(segments), CellsIn(t.segments);
    var end := Least(from + length, t.length);
    if from >= end {
      var missing := Segment(outputStart, length, Missing);
      PushAddsCells(segments, missing);
      MissingCells(missing, cells, from);
      return PushSegment(segments, missing);
    }
    grown := AppendOverlaps(segments, t, from, end, outputStart);
    if end < from + length {
      var missing := Segment(outputStart + (end - from), from + length - end, Missing);
      PushAddsCells(grown, missing);
      MissingCells(missing, cells, end);
      AppendCells(before, cells[from..end], CellsOf(missing));
      grown := PushSegment(grown, missing);
    }
    StretchParts(cells, from, end, length);
  }

  lemma MissingCells(missing: Segment, cells: Cells, from: nat)
    requires missing.kind == Missing && from >= |cells|
    ensures CellsOf(missing) == Stretch(cells, from, missing.length)
  {}

  lemma StretchParts(cells: Cells, from: nat, end: nat, length: nat)
    requires from <= end <= |cells| && end <= from + length
    requires end == |cells| || end == from + length
    ensures Stretch(cells, from, length) == cells[from..end] + Stretch(cells, end, from + length - end)
  {}

  function Clamp(x: nat, low: nat, high: nat): (r: nat)
    requires low <= high
    ensures low <= r <= high
  {
    Least(Greatest(x, low), high)
  }

  /** The loop over the segments of `t`. */
  method AppendOverlaps(segments: seq<Segment>, t: Tuple, from: nat, end: nat, outputStart: nat)
    returns (grown: seq<Segment>)
    requires Contiguous(segments) && WellFormed(t) && outputStart == |CellsIn(segments)| && from < end <= t.length
    ensures Contiguous(grown) && CellsIn(grown) == CellsIn(segments) + CellsIn(t.segments)[from..end]
  {
    ghost var before, cells := CellsIn(segments), CellsIn(t.segments);
    grown := segments;
    for k := 0 to |t.segments|
      invariant Copied(grown, before, cells, from, Clamp(|CellsIn(t.segments[..k])|, from, end))
    {
      grown := AppendOverlap(grown, t, k, from, end, outputStart, before);
    }
    assert t.segments[..|t.segments|] == t.segments;
  }

  /** One step of the loop: the part of segment `k` inside the stretch. */
  method AppendOverlap(grown0: seq<Segment>, t: Tuple, k: nat, from: nat, end: nat, outputStart: nat, ghost before: Cells)
    returns (grown: seq<Segment>)
    requires WellFormed(t) && k < |t.segments| && from <= end <= t.length && outputStart == |before|
    requires Copied(grown0, before, CellsIn(t.segments), from, Clamp(|CellsIn(t.segments[..k])|, from, end))
    ensures Copied(grown, before, CellsIn(t.segments), from, Clamp(|CellsIn(t.segments[..k + 1])|, from, end))
  {
    hide Contiguous, CellsIn, CellsOf, PushSegment, Shifted, Clamp, Copied;
    var segment := t.segments[k];
    SegmentEnds(t.segments, k);
    ClampSteps(segment.start, segment.length, from, end);
    var overlapStart := Greatest(segment.start, from);
    var overlapEnd := Least(segment.start + segment.length, end);
    if overlapStart >= overlapEnd {
      return grown0;
    }
    var part := Segment(outputStart + (overlapStart - from), overlapEnd - overlapStart,
                        Shifted(segment.kind, overlapStart - segment.start));
    PartCells(t.segments, k, part, overlapStart, overlapEnd);
    CopyPart(grown0, before, CellsIn(t.segments), from, overlapStart, part);
    grown := PushSegment(grown0, part);
  }

  lemma ClampSteps(start: nat, length: nat, from: nat, end: nat)
    requires from <= end
    ensures var overlapStart, overlapEnd := Greatest(start, from), Least(start + length, end);
      if overlapStart >= overlapEnd then Clamp(start, from, end) == Clamp(start + length, from, end)
      else Clamp(start, from, end) == overlapStart && Clamp(start + length, from, end) == overlapEnd
  {}

  lemma CopyPart(segments: seq<Segment>, before: Cells, cells: Cells, from: nat, done: nat, part: Segment)
    requires Copied(segments, before, cells, from, done)
    requires part.start == |before| + (done - from)
    requires done + part.length <= |cells| && CellsOf(part) == cells[done..done + part.length]
    ensures Copied(PushSegment(segments, part), before, cells, from, done + part.length)
  {
    hide Contiguous, CellsIn, CellsOf, PushSegment;
    PushAddsCells(segments, part);
    CopyFurther(before, cells, from, done, done + part.length);
  }

  lemma CopyFurther(before: Cells, cells: Cells, from: nat, middle: nat, end: nat)
    requires from <= middle <= end <= |cells|
    ensures (before + cells[from..middle]) + cells[middle..end] == before + cells[from..end]
  {
    assert cells[from..middle] + cells[middle..end] == cells[from..end];
    AppendCells(before, cells[from..middle], cells[middle..end]);
  }

  lemma PartCells(segments: seq<Segment>, k: nat, part: Segment, start: nat, end: nat)
    requires Contiguous(segments) && k < |segments|
    requires segments[k].start <= start <= end <= segments[k].start + segments[k].length
    requires part.length == end - start && part.kind == Shifted(segments[k].kind, start - segments[k].start)
    ensures end <= |CellsIn(segments)| && CellsOf(part) == CellsIn(segments)[start..end]
  {
    hide Contiguous, CellsIn, CellAt, CellsOf, Shifted;
    SegmentEnds(segments, k);
    forall i: nat | i < part.length ensures CellsOf(part)[i] == CellsIn(segments)[start + i] {
      PartCell(segments, k, part, start, i);
    }
    SameCells(CellsOf(part), CellsIn(segments), start);
  }

  lemma SameCells(part: Cells, cells: Cells, start: nat)
    requires start + |part| <= |cells| && forall i: nat :: i < |part| ==> part[i] == cells[start + i]
    ensures part == cells[start..start + |part|]
  {}

  lemma PartCell(segments: seq<Segment>, k: nat, part: Segment, start: nat, i: nat)
    requires Contiguous(segments) && k < |segments| && i < part.length
    requires segments[k].start <= start && start + part.length <= segments[k].start + segments[k].length
    requires part.kind == Shifted(segments[k].kind, start - segments[k].start)
    ensures start + i < |CellsIn(segments)| && CellsOf(part)[i] == CellsIn(segments)[start + i]
  {
    hide Contiguous, CellsIn, CellAt, CellsOf, Shifted;
    var distance: nat := start - segments[k].start;
    CellInSegment(segments, k, distance + i);
    ShiftedCell(segments[k].kind, distance, i);
  }

  lemma ShiftedCell(kind: Kind, distance: nat, i: nat)
    ensures CellAt(Shifted(kind, distance), i) == CellAt(kind, distance + i)
  {}

  lemma {:induction false} SegmentEnds(segments: seq<Segment>, k: nat)
    requires Contiguous(segments) && k < |segments|
    ensures segments[k].start == |CellsIn(segments[..k])|
    ensures |CellsIn(segments[..k + 1])| == segments[k].start + segments[k].length <= |CellsIn(segments)|
    decreases |segments|
  {
    hide Contiguous, CellsIn, CellsOf;
    ContiguousFront(segments);
    if k == |segments| - 1 {
      assert segments[..k + 1] == segments;
    } else {
      var front := segments[..|segments| - 1];
      SegmentEnds(front, k);
      assert front[..k] == segments[..k] && front[..k + 1] == segments[..k + 1];
    }
  }

  /** The cells of segment `k` lie at its start. */
  lemma {:induction false} CellInSegment(segments: seq<Segment>, k: nat, i: nat)
    requires Contiguous(segments) && k < |segments| && i < segments[k].length
    ensures segments[k].start + i < |CellsIn(segments)|
    ensures CellsIn(segments)[segments[k].start + i] == CellAt(segments[k].kind, i)
    decreases |segments|
  {
    hide Contiguous, CellsIn, CellsOf, CellAt;
    ContiguousFront(segments);
    var front, last := segments[..|segments| - 1], segments[|segments| - 1];
    if k == |segments| - 1 {
      assert CellsOf(last)[i] == CellAt(last.kind, i);
    } else {
      CellInSegment(front, k, i);
    }
  }

  // ----- Finding a segment ---------------------------------------------------------------------

  /** The segment that holds a position, by bisection. */
  method SegmentAt(t: Tuple, index: nat) returns (found: Option<Segment>)
    requires WellFormed(t)
    ensures found.Some? <==> index < t.length
    ensures found.Some? ==>
              && found.value.start <= index < found.value.start + found.value.length
              && CellAt(found.value.kind, index - found.value.start) == CellsIn(t.segments)[index]
  {
    hide Contiguous, CellsIn, CellsOf, CellAt;
    var segments := t.segments;
    if |segments| == 1 {
      OneSegment(segments);
      var inside := segments[0].start <= index < segments[0].start + segments[0].length;
      if inside {
        CellInSegment(segments, 0, index - segments[0].start);
      }
      return if inside then Some(segments[0]) else None;
    }
    var low, high := 0, |segments|;
    while low < high
      invariant 0 <= low <= high <= |segments|
      invariant low > 0 ==> segments[low - 1].start + segments[low - 1].length <= index
      invariant high < |segments| ==> index < segments[high].start
    {
      var mid := low + (high - low) / 2;
      if index < segments[mid].start {
        high := mid;
      } else if index >= segments[mid].start + segments[mid].length {
        low := mid + 1;
      } else {
        CellInSegment(segments, mid, index - segments[mid].start);
        return Some(segments[mid]);
      }
    }
    NothingBetween(segments, low, index);
    return None;
  }

  lemma OneSegment(segments: seq<Segment>)
    requires Contiguous(segments) && |segments| == 1
    ensures segments[0].start == 0 && |CellsIn(segments)| == segments[0].length
  {
    assert segments[..0] == [] && segments[..1] == segments;
  }

  /** Segments leave no gap. */
  lemma NothingBetween(segments: seq<Segment>, k: nat, index: nat)
    requires Contiguous(segments) && k <= |segments|
    requires k > 0 ==> segments[k - 1].start + segments[k - 1].length <= index
    requires k < |segments| ==> index < segments[k].start
    ensures index >= |CellsIn(segments)|
  {
    if k > 0 {
      SegmentEnds(segments, k - 1);
    }
    if k == |segments| {
      assert segments[..k] == segments;
    }
  }

  method ValueAt(t: Tuple, index: nat) returns (value: Option<Value>)
    requires WellFormed(t)
    ensures value == LookupIn(CellsIn(t.segments))(index)
  {
    if index >= t.length {
      return None;
    }
    var found := SegmentAt(t, index);
    if found.None? {
      return None;
    }
    var segment := found.value;
    var offset := index - segment.start;
    return match segment.kind
      case FromRow(row, start) => RowLookup(row.values)(start + offset)
      case AllNull => Some(Null)
      case Missing => None;
  }

  // ----- Materializing -------------------------------------------------------------------------

  method MaterializeRow(t: Tuple) returns (values: Row)
    ensures values == Present(CellsIn(t.segments))
  {
    values := [];
    for k := 0 to |t.segments|
      invariant values == Present(CellsIn(t.segments[..k]))
    {
      var segment := t.segments[k];
      assert t.segments[..k + 1] == t.segments[..k] + [segment];
      CellsLast(t.segments[..k], segment);
      PresentConcat(CellsIn(t.segments[..k]), CellsOf(segment));
      var part := MaterializeSegment(segment);
      values := values + part;
    }
    assert t.segments[..|t.segments|] == t.segments;
  }

  method MaterializeSegment(s: Segment) returns (values: Row)
    ensures values == Present(CellsOf(s))
  {
    match s.kind
    case FromRow(row, start) =>
      values := [];
      for offset := 0 to s.length
        invariant values == Present(CellsOf(s)[..offset])
      {
        assert CellsOf(s)[..offset + 1] == CellsOf(s)[..offset] + [CellsOf(s)[offset]];
        PresentConcat(CellsOf(s)[..offset], [CellsOf(s)[offset]]);
        PresentOne(CellsOf(s)[offset]);
        if start + offset < |row.values| {
          values := values + [row.values[start + offset]];
        }
      }
      assert CellsOf(s)[..s.length] == CellsOf(s);
    case AllNull =>
      values := Nulls(s.length);
      assert CellsOf(s) == AllPresent(values);
      PresentOfRow(values);
    case Missing =>
      values := [];
      PresentMembers(CellsOf(s));
  }

  lemma PresentOne(cell: Option<Value>)
    ensures Present([cell]) == if cell.Some? then [cell.value] else []
  {
    assert [cell][1..] == [];
  }

  // ----- Handles -------------------------------------------------------------------------------

  /** A tuple and, once somebody asked for it, its row. */
  class TraceTuple {
    const tuple: Tuple
    var materialized: Option<Row>

    ghost predicate Valid()
      reads this
    {
      WellFormed(tuple) && (materialized.Some? ==> materialized.value == Present(Cells()))
    }

    function Cells(): Cells { CellsIn(tuple.segments) }

    constructor OfRow(row: Stored)
      ensures Valid() && Cells() == AllPresent(row.values) && materialized == Some(row.values)
    {
      var whole := Segment(0, |row.values|, FromRow(row, 0));
      PushAddsCells([], whole);
      PresentOfRow(row.values);
      assert CellsOf(whole) == AllPresent(row.values) == [] + CellsOf(whole);
      tuple := Tuple(|row.values|, PushSegment([], whole));
      materialized := Some(row.values);
    }

    constructor Concat(left: TraceTuple, right: TraceTuple, leftWidth: nat)
      requires left.Valid() && right.Valid()
      ensures Valid() && Cells() == ConcatCells(left.Cells(), right.Cells(), leftWidth) && materialized == None
    {
      var segments := AppendLayoutRange([], left.tuple, 0, leftWidth, 0);
      assert [] + Stretch(left.Cells(), 0, leftWidth) == Stretch(left.Cells(), 0, leftWidth);
      segments := AppendLayoutRange(segments, right.tuple, 0, right.tuple.length, leftWidth);
      assert Stretch(right.Cells(), 0, right.tuple.length) == right.Cells();
      tuple := Tuple(leftWidth + right.tuple.length, segments);
      materialized := None;
    }

    constructor NullPadLeft(right: TraceTuple, leftWidth: nat)
      requires right.Valid()
      ensures Valid() && Cells() == NullCells(leftWidth) + right.Cells() && materialized == None
    {
      var nulls := Segment(0, leftWidth, AllNull);
      PushAddsCells([], nulls);
      assert [] + CellsOf(nulls) == NullCells(leftWidth);
      var segments := AppendLayoutRange(PushSegment([], nulls), right.tuple, 0, right.tuple.length, leftWidth);
      assert Stretch(right.Cells(), 0, right.tuple.length) == right.Cells();
      tuple := Tuple(leftWidth + right.tuple.length, segments);
      materialized := None;
    }

    constructor NullPadRight(left: TraceTuple, rightWidth: nat)
      requires left.Valid()
      ensures Valid() && Cells() == left.Cells() + NullCells(rightWidth) && materialized == None
    {
      var segments := AppendLayoutRange([], left.tuple, 0, left.tuple.length, 0);
      assert [] + Stretch(left.Cells(), 0, left.tuple.length) == left.Cells();
      var nulls := Segment(left.tuple.length, rightWidth, AllNull);
      PushAddsCells(segments, nulls);
      assert CellsOf(nulls) == NullCells(rightWidth);
      tuple := Tuple(left.tuple.length + rightWidth, PushSegment(segments, nulls));
      materialized := None;
    }

    constructor Project(input: TraceTuple, columns: seq<nat>)
      requires input.Valid()
      ensures Valid() && Cells() == ProjectCells(input.Cells(), columns) && materialized == None
    {
      var segments := [];
      for i := 0 to |columns|
        invariant Contiguous(segments) && CellsIn(segments) == ProjectCells(input.Cells(), columns[..i])
      {
        ghost var before := segments;
        segments := AppendLayoutRange(segments, input.tuple, columns[i], 1, i);
        assert ProjectCells(input.Cells(), columns[..i + 1])
            == ProjectCells(input.Cells(), columns[..i]) + Stretch(input.Cells(), columns[i], 1);
      }
      assert columns[..|columns|] == columns;
      tuple := Tuple(|columns|, segments);
      materialized := None;
    }

    method MaterializeRc() returns (row: Row)
      requires Valid()
      modifies this`materialized
      ensures Valid() && row == Present(Cells()) && materialized == Some(row)
    {
      if materialized.None? {
        var values := MaterializeRow(tuple);
        materialized := Some(values);
      }
      return materialized.value;
    }

    /** A filter reads the tuple in place, or its row if there is one. Which of the two happens makes no
        difference to a solid tuple. */
    method Keeps(host: Host, test: Predicate) returns (kept: bool)
      requires Valid()
      modifies this`materialized
      ensures Valid()
      ensures Solid(Cells()) ==> (kept <==> EvalPredicateRow(host, test, Present(Cells())))
    {
      LooksLikeRowExactly(Cells());
      if materialized.None? {
        kept := EvalPredicateTrace(host, test, LookupIn(Cells()));
        if Solid(Cells()) {
          TraceAgrees(host, test, Present(Cells()), LookupIn(Cells()));
        }
      } else {
        var row := MaterializeRc();
        kept := EvalPredicateRow(host, test, row);
      }
    }
  }
}
