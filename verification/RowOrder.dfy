/** The row comparator of the candidate window
  (crates/database/src/reactive_bridge/snapshot_refresh.rs). */
module RowOrder {
  import opened Options
  import opened Values
  import opened OrderedWindow

  /** A candidate row: its output values, its version, and the id of the root row it came from. */
  datatype Row = Row(values: seq<Value>, version: nat, root: nat)

  datatype OrderKey = OrderKey(column: nat, descending: bool)

  function Then(first: Ordering, second: Ordering): Ordering {
    if first == Equal then second else first
  }

  /** The comparison under one ORDER BY key; a missing column sorts first. */
  function CompareColumn(key: OrderKey, a: Row, b: Row): Ordering {
    var ascending :=
      if key.column < |a.values| && key.column < |b.values| then Compare(a.values[key.column], b.values[key.column])
      else if key.column < |b.values| then Less
      else if key.column < |a.values| then Greater
      else Equal;
    if key.descending then ascending.Reverse() else ascending
  }

  /** The ORDER BY clause alone. */
  function CompareKeys(keys: seq<OrderKey>, a: Row, b: Row): Ordering {
    if keys == [] then Equal else Then(CompareColumn(keys[0], a, b), CompareKeys(keys[1..], a, b))
  }

  function CompareValues(a: seq<Value>, b: seq<Value>): Ordering {
    if a == [] && b == [] then Equal
    else if a == [] then Less
    else if b == [] then Greater
    else Then(Compare(a[0], b[0]), CompareValues(a[1..], b[1..]))
  }

  /** ORDER BY, with ties broken by root row, then values, then version. */
  function CompareRows(keys: seq<OrderKey>, a: Row, b: Row): Ordering {
    Then(CompareKeys(keys, a, b),
         Then(CompareInts(a.root, b.root), Then(CompareValues(a.values, b.values), CompareInts(a.version, b.version))))
  }

  function NotAfter(keys: seq<OrderKey>): (Row, Row) -> bool {
    (a: Row, b: Row) => CompareRows(keys, a, b) != Greater
  }

  // ----- The comparator is a linear order on the rows of one result ----------------------------

  /** Each column holds values of one type, or NULL. */
  predicate WellTyped(columnTypes: seq<int>, values: seq<Value>) {
    && |values| == |columnTypes|
    && forall i :: 0 <= i < |values| ==> values[i].Null? || TypeOrder(values[i]) == columnTypes[i]
  }

  function Typed(columnTypes: seq<int>): Row -> bool {
    (row: Row) => WellTyped(columnTypes, row.values)
  }

  /** The three answers among x, y, z fit one ordering of them. */
  predicate Coherent(xy: Ordering, yz: Ordering, xz: Ordering) {
    && (xy == Equal ==> xz == yz)
    && (yz == Equal ==> xz == xy)
    && (xy == yz ==> xz == xy)
  }

  lemma CoherentThen(xy: Ordering, yz: Ordering, xz: Ordering, xy': Ordering, yz': Ordering, xz': Ordering)
    requires Coherent(xy, yz, xz) && Coherent(xy', yz', xz')
    ensures Coherent(Then(xy, xy'), Then(yz, yz'), Then(xz, xz'))
  {
  }

  predicate SameColumn(x: Value, y: Value) { x.Null? || y.Null? || SameVariant(x, y) }

  lemma {:induction false} CodesCoherent(a: seq<int>, b: seq<int>, c: seq<int>)
    ensures Coherent(CompareCodes(a, b), CompareCodes(b, c), CompareCodes(a, c))
  {
    if a != [] && b != [] && c != [] && a[0] == b[0] && b[0] == c[0] {
      CodesCoherent(a[1..], b[1..], c[1..]);
    }
  }

  lemma ValuesCoherent(x: Value, y: Value, z: Value)
    requires SameColumn(x, y) && SameColumn(y, z) && SameColumn(x, z)
    ensures Coherent(Compare(x, y), Compare(y, z), Compare(x, z))
  {
    match (x, y, z) {
      case (String(a), String(b), String(c)) => CodesCoherent(Codes(a), Codes(b), Codes(c));
      case (Bytes(a), Bytes(b), Bytes(c)) => CodesCoherent(a, b, c);
      case (Jsonb(a), Jsonb(b), Jsonb(c)) => CodesCoherent(a, b, c);
      case _ =>
    }
  }

  lemma {:induction false} ValueListsCoherent(types: seq<int>, a: seq<Value>, b: seq<Value>, c: seq<Value>)
    requires WellTyped(types, a) && WellTyped(types, b) && WellTyped(types, c)
    ensures Coherent(CompareValues(a, b), CompareValues(b, c), CompareValues(a, c))
  {
    if types != [] {
      ValuesCoherent(a[0], b[0], c[0]);
      ValueListsCoherent(types[1..], a[1..], b[1..], c[1..]);
      CoherentThen(Compare(a[0], b[0]), Compare(b[0], c[0]), Compare(a[0], c[0]),
                   CompareValues(a[1..], b[1..]), CompareValues(b[1..], c[1..]), CompareValues(a[1..], c[1..]));
    }
  }

  lemma {:induction false} KeysCoherent(types: seq<int>, keys: seq<OrderKey>, a: Row, b: Row, c: Row)
    requires WellTyped(types, a.values) && WellTyped(types, b.values) && WellTyped(types, c.values)
    ensures Coherent(CompareKeys(keys, a, b), CompareKeys(keys, b, c), CompareKeys(keys, a, c))
  {
    if keys != [] {
      var key := keys[0];
      if key.column < |types| {
        ValuesCoherent(a.values[key.column], b.values[key.column], c.values[key.column]);
      }
      KeysCoherent(types, keys[1..], a, b, c);
      CoherentThen(CompareColumn(key, a, b), CompareColumn(key, b, c), CompareColumn(key, a, c),
                   CompareKeys(keys[1..], a, b), CompareKeys(keys[1..], b, c), CompareKeys(keys[1..], a, c));
    }
  }

  lemma {:induction false} ValueListsMirror(types: seq<int>, a: seq<Value>, b: seq<Value>)
    requires WellTyped(types, a) && WellTyped(types, b)
    ensures CompareValues(b, a) == CompareValues(a, b).Reverse()
    ensures CompareValues(a, b) == Equal ==> a == b
  {
    if types != [] {
      CompareMirror(a[0], b[0]);
      if SameVariant(a[0], b[0]) {
        CompareEqualSameVariant(a[0], b[0]);
      }
      ValueListsMirror(types[1..], a[1..], b[1..]);
      assert a == [a[0]] + a[1..] && b == [b[0]] + b[1..];
    }
  }

  lemma {:induction false} KeysMirror(keys: seq<OrderKey>, a: Row, b: Row)
    ensures CompareKeys(keys, b, a) == CompareKeys(keys, a, b).Reverse()
  {
    if keys != [] {
      var column := keys[0].column;
      if column < |a.values| && column < |b.values| {
        CompareMirror(a.values[column], b.values[column]);
      }
      KeysMirror(keys[1..], a, b);
    }
  }

  lemma RowsCoherent(types: seq<int>, keys: seq<OrderKey>, a: Row, b: Row, c: Row)
    requires WellTyped(types, a.values) && WellTyped(types, b.values) && WellTyped(types, c.values)
    ensures Coherent(CompareRows(keys, a, b), CompareRows(keys, b, c), CompareRows(keys, a, c))
  {
    KeysCoherent(types, keys, a, b, c);
    ValueListsCoherent(types, a.values, b.values, c.values);
    var valuesThenVersion := (x: Row, y: Row) => Then(CompareValues(x.values, y.values), CompareInts(x.version, y.version));
    CoherentThen(CompareValues(a.values, b.values), CompareValues(b.values, c.values), CompareValues(a.values, c.values),
                 CompareInts(a.version, b.version), CompareInts(b.version, c.version), CompareInts(a.version, c.version));
    CoherentThen(CompareInts(a.root, b.root), CompareInts(b.root, c.root), CompareInts(a.root, c.root),
                 valuesThenVersion(a, b), valuesThenVersion(b, c), valuesThenVersion(a, c));
  }

  // ----- What the comparator does --------------------------------------------------------------

  function CellOf(row: Row, column: nat): Option<Value> {
    if column < |row.values| then Some(row.values[column]) else None
  }

  /** A missing cell sorts before every value. */
  predicate CellBefore(x: Option<Value>, y: Option<Value>) {
    y.Some? && (x.None? || Compare(x.value, y.value) == Less)
  }

  /** `key` alone puts `a` before `b`: the smaller cell first, or the larger one if it descends. */
  predicate KeyPutsFirst(key: OrderKey, a: Row, b: Row) {
    if key.descending then CellBefore(CellOf(b, key.column), CellOf(a, key.column))
    else CellBefore(CellOf(a, key.column), CellOf(b, key.column))
  }

  /** The keys before the `k`-th leave the choice open and the `k`-th makes it. */
  predicate DecidedBy(keys: seq<OrderKey>, k: nat, a: Row, b: Row) {
    && k < |keys| && KeyPutsFirst(keys[k], a, b)
    && forall i :: 0 <= i < k ==> !KeyPutsFirst(keys[i], a, b) && !KeyPutsFirst(keys[i], b, a)
  }

  lemma ColumnInOrder(key: OrderKey, a: Row, b: Row)
    ensures CompareColumn(key, a, b) == Less <==> KeyPutsFirst(key, a, b)
    ensures CompareColumn(key, a, b) == Greater <==> KeyPutsFirst(key, b, a)
  {
    if key.column < |a.values| && key.column < |b.values| {
      CompareMirror(a.values[key.column], b.values[key.column]);
    }
  }

  /** ORDER BY means: the first key on which two rows differ decides, in its direction. */
  lemma {:induction false} KeysInOrder(keys: seq<OrderKey>, a: Row, b: Row)
    ensures CompareKeys(keys, a, b) == Less <==> exists k: nat :: DecidedBy(keys, k, a, b)
  {
    if keys != [] {
      ColumnInOrder(keys[0], a, b);
      KeysInOrder(keys[1..], a, b);
      if KeyPutsFirst(keys[0], a, b) {
        assert DecidedBy(keys, 0, a, b);
      } else if !KeyPutsFirst(keys[0], b, a) {
        LaterKeyDecides(keys, a, b);
      }
    }
  }

  lemma LaterKeyDecides(keys: seq<OrderKey>, a: Row, b: Row)
    requires keys != [] && !KeyPutsFirst(keys[0], a, b) && !KeyPutsFirst(keys[0], b, a)
    ensures (exists k: nat :: DecidedBy(keys, k, a, b)) <==> (exists k: nat :: DecidedBy(keys[1..], k, a, b))
  {
    if k: nat :| DecidedBy(keys[1..], k, a, b) {
      forall i | 0 <= i < k + 1 ensures !KeyPutsFirst(keys[i], a, b) && !KeyPutsFirst(keys[i], b, a) {
        if i > 0 {
          assert keys[1..][i - 1] == keys[i];
        }
      }
      assert DecidedBy(keys, k + 1, a, b);
    }
    if k: nat :| DecidedBy(keys, k, a, b) {
      assert k > 0;
      assert DecidedBy(keys[1..], k - 1, a, b);
    }
  }

  /** The values before position `k` leave the choice open; there `b` has a larger value, or has one
      at all. */
  predicate ValueDecides(a: seq<Value>, b: seq<Value>, k: nat) {
    && k <= |a| && k < |b| && (k < |a| ==> Compare(a[k], b[k]) == Less)
    && forall i :: 0 <= i < k ==> Compare(a[i], b[i]) == Equal
  }

  ghost predicate ValuesPutFirst(a: seq<Value>, b: seq<Value>) { exists k: nat :: ValueDecides(a, b, k) }

  lemma {:induction false} ValuesInOrder(a: seq<Value>, b: seq<Value>)
    ensures CompareValues(a, b) == Less <==> ValuesPutFirst(a, b)
    ensures CompareValues(a, b) == Greater <==> ValuesPutFirst(b, a)
    decreases |a|
  {
    if a == [] || b == [] {
      assert b != [] ==> ValueDecides([], b, 0);
      assert a != [] ==> ValueDecides([], a, 0);
    } else {
      ValuesInOrder(a[1..], b[1..]);
      CompareMirror(a[0], b[0]);
      HeadOrTail(a, b);
      HeadOrTail(b, a);
    }
  }

  lemma HeadOrTail(a: seq<Value>, b: seq<Value>)
    requires a != [] && b != []
    ensures ValuesPutFirst(a, b)
       <==> Compare(a[0], b[0]) == Less || (Compare(a[0], b[0]) == Equal && ValuesPutFirst(a[1..], b[1..]))
  {
    if Compare(a[0], b[0]) == Less {
      assert ValueDecides(a, b, 0);
    }
    if k: nat :| ValueDecides(a, b, k) {
      if k > 0 {
        assert ValueDecides(a[1..], b[1..], k - 1);
      }
    }
    if k: nat :| Compare(a[0], b[0]) == Equal && ValueDecides(a[1..], b[1..], k) {
      forall i | 0 <= i < k + 1 ensures Compare(a[i], b[i]) == Equal {
        assert i > 0 ==> a[i] == a[1..][i - 1] && b[i] == b[1..][i - 1];
      }
      assert ValueDecides(a, b, k + 1);
    }
  }

  ghost predicate KeysPutFirst(keys: seq<OrderKey>, a: Row, b: Row) { exists k: nat :: DecidedBy(keys, k, a, b) }

  /** Which row stands first when the clause leaves it open: the one of the smaller root row, then the
      one with the smaller values, then the older version. */
  ghost predicate TiePutsFirst(a: Row, b: Row) {
    || a.root < b.root
    || (a.root == b.root && ValuesPutFirst(a.values, b.values))
    || (a.root == b.root && !ValuesPutFirst(b.values, a.values) && a.version < b.version)
  }

  /** The comparator: the clause decides, and only what it leaves open is decided by root row, values
      and version. */
  lemma RowsInOrder(keys: seq<OrderKey>, a: Row, b: Row)
    ensures CompareRows(keys, a, b) == Less
       <==> KeysPutFirst(keys, a, b) || (!KeysPutFirst(keys, b, a) && TiePutsFirst(a, b))
  {
    KeysInOrder(keys, a, b);
    KeysInOrder(keys, b, a);
    KeysMirror(keys, a, b);
    ValuesInOrder(a.values, b.values);
  }

  /** Over typed rows the comparator is a linear order, whatever the ORDER BY clause. */
  lemma RowOrderLinear(types: seq<int>, keys: seq<OrderKey>)
    ensures Linear(NotAfter(keys), Typed(types))
  {
    var le, ok := NotAfter(keys), Typed(types);
    forall a, b | ok(a) && ok(b)
      ensures le(a, b) || le(b, a)
      ensures le(a, b) && le(b, a) ==> a == b
    {
      KeysMirror(keys, a, b);
      ValueListsMirror(types, a.values, b.values);
    }
    forall a, b, c | ok(a) && ok(b) && ok(c) && le(a, b) && le(b, c)
      ensures le(a, c)
    {
      RowsCoherent(types, keys, a, b, c);
    }
  }

  // ----- Ties ----------------------------------------------------------------------------------

  /** In the order the clause asks for, ties in any order. */
  ghost predicate KeyOrdered(keys: seq<OrderKey>, rows: seq<Row>) {
    forall i, j :: 0 <= i < j < |rows| ==> CompareKeys(keys, rows[i], rows[j]) != Greater
  }

  ghost predicate Arranged(keys: seq<OrderKey>, rows: seq<Row>, answer: seq<Row>) {
    multiset(answer) == multiset(rows) && KeyOrdered(keys, answer)
  }

  /** No two different rows tie under the clause. */
  ghost predicate TieFree(keys: seq<OrderKey>, rows: seq<Row>) {
    forall a, b :: a in rows && b in rows && CompareKeys(keys, a, b) == Equal ==> a == b
  }

  lemma SameMembers(s: seq<Row>, t: seq<Row>, ok: Row -> bool)
    requires multiset(s) == multiset(t) && All(s, ok)
    ensures All(t, ok) && forall v :: v in s <==> v in t
  {
    forall v ensures v in s <==> v in t {
      assert v in s <==> v in multiset(s);
      assert v in t <==> v in multiset(t);
    }
    forall i | 0 <= i < |t| ensures ok(t[i]) {
      assert t[i] in s;
    }
  }

  lemma SortArranges(types: seq<int>, keys: seq<OrderKey>, rows: seq<Row>)
    requires All(rows, Typed(types))
    ensures Arranged(keys, rows, Sort(NotAfter(keys), rows)) && All(Sort(NotAfter(keys), rows), Typed(types))
  {
    RowOrderLinear(types, keys);
    SortSorted(NotAfter(keys), Typed(types), rows);
    SortContents(NotAfter(keys), rows);
    var s, le := Sort(NotAfter(keys), rows), NotAfter(keys);
    forall i, j | 0 <= i < j < |s| ensures CompareKeys(keys, s[i], s[j]) != Greater {
      assert le(s[i], s[j]);
    }
  }

  /** Without ties, any arrangement ordered by the clause alone is the one the comparator gives. */
  lemma OrderByDecides(types: seq<int>, keys: seq<OrderKey>, rows: seq<Row>, answer: seq<Row>)
    requires All(rows, Typed(types)) && TieFree(keys, rows) && Arranged(keys, rows, answer)
    ensures answer == Sort(NotAfter(keys), rows)
  {
    var le, ok := NotAfter(keys), Typed(types);
    RowOrderLinear(types, keys);
    SameMembers(rows, answer, ok);
    forall i, j | 0 <= i < j < |answer| ensures le(answer[i], answer[j]) {
      if CompareKeys(keys, answer[i], answer[j]) == Equal {
        assert answer[i] in rows && answer[j] in rows;
        assert ok(answer[i]) && le(answer[i], answer[i]);
      }
    }
    SortSorted(le, ok, rows);
    SortContents(le, rows);
    SortedUnique(le, ok, Sort(le, rows), answer);
  }

  /** Between two different tied rows of an ordered list there are neighbours of that kind. */
  lemma {:induction false} TiedNeighbours(types: seq<int>, keys: seq<OrderKey>, s: seq<Row>, i: nat, j: nat) returns (k: nat)
    requires All(s, Typed(types)) && KeyOrdered(keys, s) && i < j < |s|
    requires s[i] != s[j] && CompareKeys(keys, s[i], s[j]) == Equal
    ensures k + 1 < |s| && s[k] != s[k + 1] && CompareKeys(keys, s[k], s[k + 1]) == Equal
    decreases j - i
  {
    if s[i] == s[i + 1] {
      k := TiedNeighbours(types, keys, s, i + 1, j);
    } else {
      k := i;
      assert Typed(types)(s[i]) && Typed(types)(s[i + 1]) && Typed(types)(s[j]);
      if i + 1 < j {
        KeysCoherent(types, keys, s[i], s[i + 1], s[j]);
        assert CompareKeys(keys, s[i], s[i + 1]) != Greater && CompareKeys(keys, s[i + 1], s[j]) != Greater;
      }
    }
  }

  /** Exchanging tied neighbours gives another arrangement. */
  lemma SwapTied(keys: seq<OrderKey>, s: seq<Row>, k: nat) returns (t: seq<Row>)
    requires KeyOrdered(keys, s) && k + 1 < |s| && s[k] != s[k + 1] && CompareKeys(keys, s[k], s[k + 1]) == Equal
    ensures t != s && Arranged(keys, s, t)
  {
    t := s[k := s[k + 1]][k + 1 := s[k]];
    KeysMirror(keys, s[k], s[k + 1]);
    assert s == s[..k] + [s[k], s[k + 1]] + s[k + 2..];
    assert t == s[..k] + [s[k + 1], s[k]] + s[k + 2..];
    assert t[k] != s[k];
    forall i, j | 0 <= i < j < |t| ensures CompareKeys(keys, t[i], t[j]) != Greater {
      var from := if i == k then k + 1 else if i == k + 1 then k else i;
      var to := if j == k then k + 1 else if j == k + 1 then k else j;
      assert t[i] == s[from] && t[j] == s[to];
    }
  }

  /** Exactly when ORDER BY leaves no choice: every arrangement it allows is the comparator's if and only
      if no two different rows tie. */
  lemma OrderByDecidesExactly(types: seq<int>, keys: seq<OrderKey>, rows: seq<Row>)
    requires All(rows, Typed(types))
    ensures (forall answer :: Arranged(keys, rows, answer) ==> answer == Sort(NotAfter(keys), rows)) <==> TieFree(keys, rows)
  {
    if TieFree(keys, rows) {
      forall answer | Arranged(keys, rows, answer) ensures answer == Sort(NotAfter(keys), rows) {
        OrderByDecides(types, keys, rows, answer);
      }
    } else {
      var a, b :| a in rows && b in rows && CompareKeys(keys, a, b) == Equal && a != b;
      var other := TiedArrangement(types, keys, rows, a, b);
    }
  }

  lemma TiedArrangement(types: seq<int>, keys: seq<OrderKey>, rows: seq<Row>, a: Row, b: Row) returns (other: seq<Row>)
    requires All(rows, Typed(types)) && a in rows && b in rows && a != b && CompareKeys(keys, a, b) == Equal
    ensures Arranged(keys, rows, other) && other != Sort(NotAfter(keys), rows)
  {
    var s := Sort(NotAfter(keys), rows);
    SortArranges(types, keys, rows);
    SameMembers(rows, s, Typed(types));
    KeysMirror(keys, a, b);
    var i :| 0 <= i < |s| && s[i] == a;
    var j :| 0 <= j < |s| && s[j] == b;
    var k := TiedNeighbours(types, keys, s, if i < j then i else j, if i < j then j else i);
    other := SwapTied(keys, s, k);
  }

  // ----- Position by position ------------------------------------------------------------------

  function Before(keys: seq<OrderKey>, row: Row): Row -> bool { (r: Row) => CompareKeys(keys, r, row) == Less }

  lemma SameKept(s: seq<Row>, t: seq<Row>, p: Row -> bool)
    requires multiset(s) == multiset(t)
    ensures |Keep(s, p)| == |Keep(t, p)|
  {
    forall v ensures multiset(Keep(s, p))[v] == multiset(Keep(t, p))[v] {
      KeepContents(s, p, v);
      KeepContents(t, p, v);
    }
    assert multiset(Keep(s, p)) == multiset(Keep(t, p));
    assert |multiset(Keep(s, p))| == |multiset(Keep(t, p))|;
  }

  lemma {:induction false} KeepAllOrNone(s: seq<Row>, p: Row -> bool)
    ensures (forall v :: v in s ==> p(v)) ==> |Keep(s, p)| == |s|
    ensures (forall v :: v in s ==> !p(v)) ==> Keep(s, p) == []
  {
    if s != [] {
      assert s[0] in s && forall v :: v in s[1..] ==> v in s;
      KeepAllOrNone(s[1..], p);
    }
  }

  /** Of two arrangements neither has a smaller key at some position. */
  lemma KeyNotBefore(types: seq<int>, keys: seq<OrderKey>, s: seq<Row>, t: seq<Row>, i: nat)
    requires All(s, Typed(types)) && All(t, Typed(types)) && multiset(s) == multiset(t)
    requires KeyOrdered(keys, s) && KeyOrdered(keys, t) && i < |s| && |t| == |s|
    ensures CompareKeys(keys, t[i], s[i]) != Less
  {
    if CompareKeys(keys, t[i], s[i]) == Less {
      var p := Before(keys, s[i]);
      FrontBefore(types, keys, t, i, s[i]);
      BackNotBefore(keys, s, i);
      SameKept(s, t, p);
      assert false;
    }
  }

  lemma FrontBefore(types: seq<int>, keys: seq<OrderKey>, t: seq<Row>, i: nat, row: Row)
    requires All(t, Typed(types)) && KeyOrdered(keys, t) && i < |t| && Typed(types)(row) && CompareKeys(keys, t[i], row) == Less
    ensures |Keep(t, Before(keys, row))| >= i + 1
  {
    var p := Before(keys, row);
    var front := t[..i + 1];
    forall v | v in front ensures p(v) {
      var k :| 0 <= k < i + 1 && t[k] == v;
      assert Typed(types)(t[k]) && Typed(types)(t[i]);
      KeysCoherent(types, keys, t[k], t[i], row);
    }
    assert front + t[i + 1..] == t;
    hide *;
    KeepAppend(front, t[i + 1..], p);
    KeepAllOrNone(front, p);
  }

  lemma BackNotBefore(keys: seq<OrderKey>, s: seq<Row>, i: nat)
    requires KeyOrdered(keys, s) && i < |s|
    ensures |Keep(s, Before(keys, s[i]))| <= i
  {
    var p := Before(keys, s[i]);
    var back := s[i..];
    forall v | v in back ensures !p(v) {
      var k :| i <= k < |s| && s[k] == v;
      KeysMirror(keys, s[i], s[k]);
    }
    assert s[..i] + back == s;
    hide *;
    KeepAppend(s[..i], back, p);
    KeepAllOrNone(back, p);
    KeepShorter(s[..i], p);
  }

  /** Arrangements of the same rows have tied rows at every position. */
  lemma PositionsTie(types: seq<int>, keys: seq<OrderKey>, s: seq<Row>, t: seq<Row>, i: nat)
    requires All(s, Typed(types)) && All(t, Typed(types)) && multiset(s) == multiset(t)
    requires KeyOrdered(keys, s) && KeyOrdered(keys, t) && i < |s| && |t| == |s|
    ensures CompareKeys(keys, t[i], s[i]) == Equal
  {
    KeyNotBefore(types, keys, s, t, i);
    KeyNotBefore(types, keys, t, s, i);
    KeysMirror(keys, s[i], t[i]);
  }

  /** Exchanging two tied rows, wherever they stand, gives another arrangement. */
  lemma ExchangeTied(types: seq<int>, keys: seq<OrderKey>, s: seq<Row>, i: nat, j: nat) returns (t: seq<Row>)
    requires All(s, Typed(types)) && KeyOrdered(keys, s) && i < |s| && j < |s| && CompareKeys(keys, s[i], s[j]) == Equal
    ensures t == s[i := s[j]][j := s[i]] && Arranged(keys, s, t)
  {
    t := s[i := s[j]][j := s[i]];
    assert multiset(t) == multiset(s);
    forall a, b | 0 <= a < b < |t| ensures CompareKeys(keys, t[a], t[b]) != Greater {
      TiedLike(types, keys, s, t, i, j, a);
      TiedLike(types, keys, s, t, i, j, b);
      assert Typed(types)(s[a]) && Typed(types)(s[b]) && Typed(types)(t[a]) && Typed(types)(t[b]);
      KeysCoherent(types, keys, t[a], s[a], s[b]);
      KeysMirror(keys, t[b], s[b]);
      KeysCoherent(types, keys, t[a], s[b], t[b]);
    }
  }

  lemma TiedLike(types: seq<int>, keys: seq<OrderKey>, s: seq<Row>, t: seq<Row>, i: nat, j: nat, a: nat)
    requires All(s, Typed(types)) && i < |s| && j < |s| && a < |s| && CompareKeys(keys, s[i], s[j]) == Equal
    requires t == s[i := s[j]][j := s[i]]
    ensures Typed(types)(t[a]) && CompareKeys(keys, t[a], s[a]) == Equal
  {
    KeysMirror(keys, s[i], s[j]);
    KeysMirror(keys, s[a], s[a]);
  }
}
