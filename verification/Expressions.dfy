/** Row expressions and their compiled predicates (crates/database/src/dataflow_compiler.rs).

  The evaluator of the dataflow is modelled branch by branch. What it takes from elsewhere
  (floating-point arithmetic, case mapping, JSON paths, pattern matching) is a parameter. */
module Expressions {
  import opened Options
  import opened Values

  datatype ColumnRef = ColumnRef(table: string, column: string, index: nat)

  datatype BinaryOp = Eq | Ne | Lt | Le | Gt | Ge | And | Or | Add | Sub | Mul | Div | Mod | LikeOp | InOp | BetweenOp

  datatype UnaryOp = Not | Neg | IsNull | IsNotNull

  datatype AggregateFunc = Count | Sum | Avg | Min | Max | Distinct | StdDev | GeoMean

  datatype Expr =
    | Column(column: ColumnRef)
    | Literal(value: Value)
    | Binary(left: Expr, op: BinaryOp, right: Expr)
    | Unary(uop: UnaryOp, arg: Expr)
    | Function(name: string, args: seq<Expr>)
    | Aggregate(func: AggregateFunc, inner: Option<Expr>, distinct: bool)
    | Between(arg: Expr, low: Expr, high: Expr)
    | NotBetween(arg: Expr, low: Expr, high: Expr)
    | In(arg: Expr, list: seq<Expr>)
    | NotIn(arg: Expr, list: seq<Expr>)
    | Like(arg: Expr, pattern: string)
    | NotLike(arg: Expr, pattern: string)
    | Match(arg: Expr, pattern: string)
    | NotMatch(arg: Expr, pattern: string)

  datatype Path = Path(segments: seq<string>)

  /** What evaluation takes from elsewhere. `simplePath` parses the paths the raw reader can follow;
      the `path...` functions answer for all other path texts. */
  datatype Host = Host(
    simplePath: string -> Option<Path>,
    extract: (Path, seq<byte>) -> Option<seq<byte>>,
    rawEq: (seq<byte>, Value) -> bool,
    rawContains: (seq<byte>, Value) -> bool,
    pathEq: (seq<byte>, string, Value) -> bool,
    pathContains: (seq<byte>, string, Value) -> bool,
    pathExists: (seq<byte>, string) -> bool,
    like: (string, string) -> bool,
    regex: (string, string) -> bool,
    upper: string -> string,
    lower: string -> string,
    utf8Length: string -> int64,
    arithmetic: (BinaryOp, Float, Float) -> Float,
    negateFloat: Float -> Float,
    absFloat: Float -> Float)

  // ----- Evaluation ----------------------------------------------------------------------------

  predicate IsTrue(v: Value) { v == Boolean(true) }

  function AsFloat(v: Value): Option<Float> {
    match v
    case Int32(i) => Some(Finite(i as real))
    case Int64(l) => Some(AsDouble(l))
    case Float64(f) => Some(f)
    case _ => None
  }

  function NumericOp(host: Host, left: Value, op: BinaryOp, right: Value): Value {
    match (AsFloat(left), AsFloat(right))
    case (Some(a), Some(b)) => Float64(host.arithmetic(op, a, b))
    case (_, _) => Null
  }

  function EvalBinary(host: Host, left: Value, op: BinaryOp, right: Value): Value {
    match op
    case Eq => Boolean(left == right)
    case Ne => Boolean(left != right)
    case Lt => Boolean(Compare(left, right) == Less)
    case Le => Boolean(Compare(left, right) != Greater)
    case Gt => Boolean(Compare(left, right) == Greater)
    case Ge => Boolean(Compare(left, right) != Less)
    case And => Boolean(IsTrue(left) && IsTrue(right))
    case Or => Boolean(IsTrue(left) || IsTrue(right))
    case Add => NumericOp(host, left, op, right)
    case Sub => NumericOp(host, left, op, right)
    case Mul => NumericOp(host, left, op, right)
    case Div => NumericOp(host, left, op, right)
    case Mod => NumericOp(host, left, op, right)
    case _ => Null
  }

  /** Negation wraps at the least integer. */
  function Negate32(i: int32): int32 { if i == -0x8000_0000 then i else -i }

  function Negate64(l: int64): int64 { if l == -0x8000_0000_0000_0000 then l else -l }

  function EvalUnary(host: Host, op: UnaryOp, v: Value): Value {
    match op
    case Not => if v.Boolean? then Boolean(!v.b) else Null
    case Neg =>
      (match v
       case Int32(i) => Int32(Negate32(i))
       case Int64(l) => Int64(Negate64(l))
       case Float64(f) => Float64(host.negateFloat(f))
       case _ => Null)
    case IsNull => Boolean(v.Null?)
    case IsNotNull => Boolean(!v.Null?)
  }

  function UpperAscii(name: string): string {
    seq(|name|, i requires 0 <= i < |name| => if 'a' <= name[i] <= 'z' then name[i] - 32 as char else name[i])
  }

  predicate HasNoSmallLetter(name: string) { forall i :: 0 <= i < |name| ==> !('a' <= name[i] <= 'z') }

  /** Function names are read without regard to the case of ASCII letters, and of no others. */
  lemma NamesIgnoreCase(name: string, known: string)
    requires HasNoSmallLetter(known)
    ensures UpperAscii(name) == known
       <==> && |name| == |known|
            && forall i :: 0 <= i < |known| ==>
                 name[i] == known[i] || ('A' <= known[i] <= 'Z' && name[i] as int == known[i] as int + 32)
  {
    if |name| == |known| {
      forall i | 0 <= i < |known|
        ensures UpperAscii(name)[i] == known[i]
           <==> name[i] == known[i] || ('A' <= known[i] <= 'Z' && name[i] as int == known[i] as int + 32)
      {
        assert !('a' <= known[i] <= 'z');
      }
    }
  }

  function FirstNonNull(args: seq<Value>): Value {
    if args == [] then Null else if args[0] != Null then args[0] else FirstNonNull(args[1..])
  }

  function JsonPathEqual(host: Host, json: seq<byte>, path: string, expected: Value): bool {
    match host.simplePath(path)
    case Some(simple) =>
      (match host.extract(simple, json)
       case Some(actual) => host.rawEq(actual, expected)
       case None => false)
    case None => host.pathEq(json, path, expected)
  }

  function JsonContains(host: Host, json: seq<byte>, path: string, expected: Value): bool {
    match host.simplePath(path)
    case Some(simple) =>
      (match host.extract(simple, json)
       case Some(actual) => host.rawContains(actual, expected)
       case None => false)
    case None => host.pathContains(json, path, expected)
  }

  function JsonExists(host: Host, json: seq<byte>, path: string): bool {
    match host.simplePath(path)
    case Some(simple) => host.extract(simple, json).Some?
    case None => host.pathExists(json, path)
  }

  function EvalFunction(host: Host, name: string, args: seq<Value>): Value {
    var upper := UpperAscii(name);
    if upper == "ABS" then
      if args == [] then Null
      else
        match args[0]
        case Int32(i) => Int32(if i < 0 then Negate32(i) else i)
        case Int64(l) => Int64(if l < 0 then Negate64(l) else l)
        case Float64(f) => Float64(host.absFloat(f))
        case _ => Null
    else if upper == "UPPER" then
      if args != [] && args[0].String? then String(host.upper(args[0].s)) else Null
    else if upper == "LOWER" then
      if args != [] && args[0].String? then String(host.lower(args[0].s)) else Null
    else if upper == "LENGTH" then
      if args != [] && args[0].String? then Int64(host.utf8Length(args[0].s)) else Null
    else if upper == "COALESCE" then FirstNonNull(args)
    else if upper == "JSONB_PATH_EQ" then
      Boolean(|args| >= 3 && args[0].Jsonb? && args[1].String? && JsonPathEqual(host, args[0].json, args[1].s, args[2]))
    else if upper == "JSONB_CONTAINS" then
      Boolean(|args| >= 3 && args[0].Jsonb? && args[1].String? && JsonContains(host, args[0].json, args[1].s, args[2]))
    else if upper == "JSONB_EXISTS" then
      Boolean(|args| >= 2 && args[0].Jsonb? && args[1].String? && JsonExists(host, args[0].json, args[1].s))
    else Null
  }

  /** The value of an expression, given the values of its columns. */
  function EvalWith(host: Host, e: Expr, column: ColumnRef -> Value): Value
    decreases e
  {
    match e
    case Column(c) => column(c)
    case Literal(v) => v
    case Binary(left, op, right) => EvalBinary(host, EvalWith(host, left, column), op, EvalWith(host, right, column))
    case Unary(op, arg) => EvalUnary(host, op, EvalWith(host, arg, column))
    case Function(name, args) =>
      EvalFunction(host, name, seq(|args|, i requires 0 <= i < |args| => EvalWith(host, args[i], column)))
    case In(arg, list) =>
      var v := EvalWith(host, arg, column);
      Boolean(v in seq(|list|, i requires 0 <= i < |list| => EvalWith(host, list[i], column)))
    case NotIn(arg, list) =>
      var v := EvalWith(host, arg, column);
      Boolean(v !in seq(|list|, i requires 0 <= i < |list| => EvalWith(host, list[i], column)))
    case Between(arg, low, high) =>
      var v := EvalWith(host, arg, column);
      Boolean(AtMost(EvalWith(host, low, column), v) && AtMost(v, EvalWith(host, high, column)))
    case NotBetween(arg, low, high) =>
      var v := EvalWith(host, arg, column);
      Boolean(Compare(v, EvalWith(host, low, column)) == Less || Compare(v, EvalWith(host, high, column)) == Greater)
    case Like(arg, pattern) =>
      var v := EvalWith(host, arg, column);
      Boolean(v.String? && host.like(v.s, pattern))
    case NotLike(arg, pattern) =>
      var v := EvalWith(host, arg, column);
      Boolean(v.String? ==> !host.like(v.s, pattern))
    case Match(arg, pattern) =>
      var v := EvalWith(host, arg, column);
      Boolean(v.String? && host.regex(v.s, pattern))
    case NotMatch(arg, pattern) =>
      var v := EvalWith(host, arg, column);
      Boolean(v.String? ==> !host.regex(v.s, pattern))
    case Aggregate(_, _, _) => Null
  }

  type Lookup = nat -> Option<Value>

  function OrNull(v: Option<Value>): Value { if v.Some? then v.value else Null }

  /** Columns read by position; a missing position reads as NULL. */
  function ByIndex(valueAt: Lookup): ColumnRef -> Value {
    (c: ColumnRef) => OrNull(valueAt(c.index))
  }

  function EvalAt(host: Host, e: Expr, valueAt: Lookup): Value { EvalWith(host, e, ByIndex(valueAt)) }

  function RowLookup(row: seq<Value>): Lookup {
    (i: nat) => if i < |row| then Some(row[i]) else None
  }

  function EvalRow(host: Host, e: Expr, row: seq<Value>): Value { EvalAt(host, e, RowLookup(row)) }

  // ----- Compiled predicates -------------------------------------------------------------------

  datatype Predicate =
    | PathEq(index: nat, path: Path, expected: Value)
    | PathContains(index: nat, path: Path, expected: Value)
    | PathExists(index: nat, path: Path)
    | Both(left: Predicate, right: Predicate)
    | Either(left: Predicate, right: Predicate)
    | Negation(inner: Predicate)
    | Generic(e: Expr)
  {
    predicate IsBooleanOutput() { !Generic? }
  }

  function CompileJsonFunction(host: Host, name: string, args: seq<Expr>): Option<Predicate> {
    var upper := UpperAscii(name);
    if upper == "JSONB_PATH_EQ" && |args| >= 3 then
      if args[0].Column? && args[1].Literal? && args[1].value.String? && args[2].Literal? then
        match host.simplePath(args[1].value.s)
        case Some(path) => Some(PathEq(args[0].column.index, path, args[2].value))
        case None => None
      else None
    else if upper == "JSONB_CONTAINS" && |args| >= 3 then
      if args[0].Column? && args[1].Literal? && args[1].value.String? && args[2].Literal? then
        match host.simplePath(args[1].value.s)
        case Some(path) => Some(PathContains(args[0].column.index, path, args[2].value))
        case None => None
      else None
    else if upper == "JSONB_EXISTS" && |args| >= 2 then
      if args[0].Column? && args[1].Literal? && args[1].value.String? then
        match host.simplePath(args[1].value.s)
        case Some(path) => Some(PathExists(args[0].column.index, path))
        case None => None
      else None
    else None
  }

  function CompilePredicate(host: Host, e: Expr): Predicate {
    match e
    case Function(name, args) =>
      (match CompileJsonFunction(host, name, args)
       case Some(p) => p
       case None => Generic(e))
    case Binary(left, op, right) =>
      if op == And then Both(CompilePredicate(host, left), CompilePredicate(host, right))
      else if op == Or then Either(CompilePredicate(host, left), CompilePredicate(host, right))
      else Generic(e)
    case Unary(op, arg) =>
      if op != Not then Generic(e)
      else
        var compiled := CompilePredicate(host, arg);
        if compiled.IsBooleanOutput() then Negation(compiled) else Generic(e)
    case _ => Generic(e)
  }

  predicate EvalPredicateRow(host: Host, p: Predicate, row: seq<Value>) {
    match p
    case PathEq(i, path, expected) =>
      i < |row| && row[i].Jsonb? &&
      (match host.extract(path, row[i].json) case Some(actual) => host.rawEq(actual, expected) case None => false)
    case PathContains(i, path, expected) =>
      i < |row| && row[i].Jsonb? &&
      (match host.extract(path, row[i].json) case Some(actual) => host.rawContains(actual, expected) case None => false)
    case PathExists(i, path) => i < |row| && row[i].Jsonb? && host.extract(path, row[i].json).Some?
    case Both(left, right) => EvalPredicateRow(host, left, row) && EvalPredicateRow(host, right, row)
    case Either(left, right) => EvalPredicateRow(host, left, row) || EvalPredicateRow(host, right, row)
    case Negation(inner) => !EvalPredicateRow(host, inner, row)
    case Generic(e) => EvalRow(host, e, row) == Boolean(true)
  }

  predicate EvalPredicateTrace(host: Host, p: Predicate, valueAt: Lookup) {
    match p
    case PathEq(i, path, expected) =>
      valueAt(i).Some? && valueAt(i).value.Jsonb? &&
      (match host.extract(path, valueAt(i).value.json) case Some(actual) => host.rawEq(actual, expected) case None => false)
    case PathContains(i, path, expected) =>
      valueAt(i).Some? && valueAt(i).value.Jsonb? &&
      (match host.extract(path, valueAt(i).value.json) case Some(actual) => host.rawContains(actual, expected) case None => false)
    case PathExists(i, path) =>
      valueAt(i).Some? && valueAt(i).value.Jsonb? && host.extract(path, valueAt(i).value.json).Some?
    case Both(left, right) => EvalPredicateTrace(host, left, valueAt) && EvalPredicateTrace(host, right, valueAt)
    case Either(left, right) => EvalPredicateTrace(host, left, valueAt) || EvalPredicateTrace(host, right, valueAt)
    case Negation(inner) => !EvalPredicateTrace(host, inner, valueAt)
    case Generic(e) => EvalAt(host, e, valueAt) == Boolean(true)
  }

  /** A predicate that may be negated stands for an expression with a boolean value. */
  lemma {:induction false} CompiledIsBoolean(host: Host, e: Expr, row: seq<Value>)
    ensures CompilePredicate(host, e).IsBooleanOutput() ==> EvalRow(host, e, row).Boolean?
  {
    match e
    case Unary(op, arg) =>
      if op == Not {
        CompiledIsBoolean(host, arg, row);
      }
    case _ =>
  }

  lemma JsonFunctionExact(host: Host, name: string, args: seq<Expr>, row: seq<Value>)
    requires CompileJsonFunction(host, name, args).Some?
    ensures EvalRow(host, Function(name, args), row)
         == Boolean(EvalPredicateRow(host, CompileJsonFunction(host, name, args).value, row))
  {
    var f, column := Function(name, args), ByIndex(RowLookup(row));
    var values := seq(|f.args|, i requires 0 <= i < |f.args| => EvalWith(host, f.args[i], column));
    assert values[0] == EvalWith(host, args[0], column) == OrNull(RowLookup(row)(args[0].column.index));
    assert values[1] == EvalWith(host, args[1], column) == args[1].value;
    if |args| >= 3 {
      assert values[2] == EvalWith(host, args[2], column);
    }
    assert EvalRow(host, f, row) == EvalFunction(host, name, values);
    var upper := UpperAscii(name);
    assert |"ABS"| == 3 && |"UPPER"| == 5 && |"LOWER"| == 5 && |"LENGTH"| == 6 && |"COALESCE"| == 8;
    assert |"JSONB_PATH_EQ"| == 13 && |"JSONB_CONTAINS"| == 14 && |"JSONB_EXISTS"| == 12;
    if upper == "JSONB_PATH_EQ" {
      assert values[2] == args[2].value;
    } else if upper == "JSONB_CONTAINS" {
      assert values[2] == args[2].value;
    }
  }

  /** The compiled predicate accepts a row exactly when the expression is true on it. */
  lemma {:induction false} CompiledExactly(host: Host, e: Expr, row: seq<Value>)
    ensures EvalPredicateRow(host, CompilePredicate(host, e), row) <==> EvalRow(host, e, row) == Boolean(true)
  {
    match e
    case Function(name, args) =>
      if CompileJsonFunction(host, name, args).Some? {
        JsonFunctionExact(host, name, args, row);
      }
    case Binary(left, op, right) =>
      if op == And || op == Or {
        CompiledExactly(host, left, row);
        CompiledExactly(host, right, row);
      }
    case Unary(op, arg) =>
      if op == Not {
        CompiledExactly(host, arg, row);
        CompiledIsBoolean(host, arg, row);
      }
    case _ =>
  }

  // ----- Evaluation depends on the columns only ------------------------------------------------

  function Columns(e: Expr): set<ColumnRef>
    decreases e
  {
    match e
    case Column(c) => {c}
    case Literal(_) => {}
    case Binary(left, _, right) => Columns(left) + Columns(right)
    case Unary(_, arg) => Columns(arg)
    case Function(_, args) => ColumnsOf(args)
    case In(arg, list) => Columns(arg) + ColumnsOf(list)
    case NotIn(arg, list) => Columns(arg) + ColumnsOf(list)
    case Between(arg, low, high) => Columns(arg) + Columns(low) + Columns(high)
    case NotBetween(arg, low, high) => Columns(arg) + Columns(low) + Columns(high)
    case Like(arg, _) => Columns(arg)
    case NotLike(arg, _) => Columns(arg)
    case Match(arg, _) => Columns(arg)
    case NotMatch(arg, _) => Columns(arg)
    case Aggregate(_, inner, _) => if inner.Some? then Columns(inner.value) else {}
  }

  function ColumnsOf(list: seq<Expr>): (all: set<ColumnRef>)
    ensures forall i :: 0 <= i < |list| ==> Columns(list[i]) <= all
    decreases list
  {
    if list == [] then {} else Columns(list[0]) + ColumnsOf(list[1..])
  }

  /** Rewrites every column reference. */
  function Rebind(e: Expr, bind: ColumnRef -> ColumnRef): Expr
    decreases e
  {
    match e
    case Column(c) => Column(bind(c))
    case Literal(_) => e
    case Binary(left, op, right) => Binary(Rebind(left, bind), op, Rebind(right, bind))
    case Unary(op, arg) => Unary(op, Rebind(arg, bind))
    case Function(name, args) => Function(name, seq(|args|, i requires 0 <= i < |args| => Rebind(args[i], bind)))
    case In(arg, list) => In(Rebind(arg, bind), seq(|list|, i requires 0 <= i < |list| => Rebind(list[i], bind)))
    case NotIn(arg, list) => NotIn(Rebind(arg, bind), seq(|list|, i requires 0 <= i < |list| => Rebind(list[i], bind)))
    case Between(arg, low, high) => Between(Rebind(arg, bind), Rebind(low, bind), Rebind(high, bind))
    case NotBetween(arg, low, high) => NotBetween(Rebind(arg, bind), Rebind(low, bind), Rebind(high, bind))
    case Like(arg, pattern) => Like(Rebind(arg, bind), pattern)
    case NotLike(arg, pattern) => NotLike(Rebind(arg, bind), pattern)
    case Match(arg, pattern) => Match(Rebind(arg, bind), pattern)
    case NotMatch(arg, pattern) => NotMatch(Rebind(arg, bind), pattern)
    case Aggregate(func, inner, distinct) =>
      Aggregate(func, if inner.Some? then Some(Rebind(inner.value, bind)) else None, distinct)
  }

  /** Rewriting the columns is the same as reading them through the rewriting. */
  lemma {:induction false} RebindMeaning(host: Host, e: Expr, bind: ColumnRef -> ColumnRef,
                                         bound: ColumnRef -> Value, column: ColumnRef -> Value)
    requires forall c :: c in Columns(e) ==> bound(bind(c)) == column(c)
    ensures EvalWith(host, Rebind(e, bind), bound) == EvalWith(host, e, column)
    decreases e
  {
    match e
    case Column(_) =>
    case Literal(_) =>
    case Binary(left, _, right) =>
      RebindMeaning(host, left, bind, bound, column);
      RebindMeaning(host, right, bind, bound, column);
    case Unary(_, arg) => RebindMeaning(host, arg, bind, bound, column);
    case Function(_, args) =>
      RebindList(host, args, bind, bound, column);
      RebindValues(host, args, Rebind(e, bind).args, bind, bound, column);
    case In(_, _) => RebindMembers(host, e, bind, bound, column);
    case NotIn(_, _) => RebindMembers(host, e, bind, bound, column);
    case Between(_, _, _) => RebindRange(host, e, bind, bound, column);
    case NotBetween(_, _, _) => RebindRange(host, e, bind, bound, column);
    case Like(arg, _) => RebindMeaning(host, arg, bind, bound, column);
    case NotLike(arg, _) => RebindMeaning(host, arg, bind, bound, column);
    case Match(arg, _) => RebindMeaning(host, arg, bind, bound, column);
    case NotMatch(arg, _) => RebindMeaning(host, arg, bind, bound, column);
    case Aggregate(_, _, _) =>
  }

  lemma {:induction false} RebindList(host: Host, list: seq<Expr>, bind: ColumnRef -> ColumnRef,
                                      bound: ColumnRef -> Value, column: ColumnRef -> Value)
    requires forall c :: c in ColumnsOf(list) ==> bound(bind(c)) == column(c)
    ensures forall i :: 0 <= i < |list| ==>
              EvalWith(host, Rebind(list[i], bind), bound) == EvalWith(host, list[i], column)
    decreases list
  {
    forall i | 0 <= i < |list|
      ensures EvalWith(host, Rebind(list[i], bind), bound) == EvalWith(host, list[i], column)
    {
      assert Columns(list[i]) <= ColumnsOf(list);
      RebindMeaning(host, list[i], bind, bound, column);
    }
  }

  lemma {:induction false} RebindMembers(host: Host, e: Expr, bind: ColumnRef -> ColumnRef,
                                         bound: ColumnRef -> Value, column: ColumnRef -> Value)
    requires e.In? || e.NotIn?
    requires forall c :: c in Columns(e) ==> bound(bind(c)) == column(c)
    ensures EvalWith(host, Rebind(e, bind), bound) == EvalWith(host, e, column)
    decreases e, 0
  {
    RebindMeaning(host, e.arg, bind, bound, column);
    RebindList(host, e.list, bind, bound, column);
    RebindValues(host, e.list, Rebind(e, bind).list, bind, bound, column);
  }

  lemma {:induction false} RebindRange(host: Host, e: Expr, bind: ColumnRef -> ColumnRef,
                                       bound: ColumnRef -> Value, column: ColumnRef -> Value)
    requires e.Between? || e.NotBetween?
    requires forall c :: c in Columns(e) ==> bound(bind(c)) == column(c)
    ensures EvalWith(host, Rebind(e, bind), bound) == EvalWith(host, e, column)
    decreases e, 0
  {
    RebindMeaning(host, e.arg, bind, bound, column);
    RebindMeaning(host, e.low, bind, bound, column);
    RebindMeaning(host, e.high, bind, bound, column);
  }

  lemma RebindValues(host: Host, list: seq<Expr>, rebound: seq<Expr>, bind: ColumnRef -> ColumnRef,
                     bound: ColumnRef -> Value, column: ColumnRef -> Value)
    requires |rebound| == |list| && forall i :: 0 <= i < |list| ==> rebound[i] == Rebind(list[i], bind)
    requires forall i :: 0 <= i < |list| ==>
               EvalWith(host, Rebind(list[i], bind), bound) == EvalWith(host, list[i], column)
    ensures seq(|rebound|, i requires 0 <= i < |rebound| => EvalWith(host, rebound[i], bound))
         == seq(|list|, i requires 0 <= i < |list| => EvalWith(host, list[i], column))
  {}

  /** The positions a compiled predicate reads. */
  function Positions(p: Predicate): set<nat> {
    match p
    case PathEq(i, _, _) => {i}
    case PathContains(i, _, _) => {i}
    case PathExists(i, _) => {i}
    case Both(left, right) => Positions(left) + Positions(right)
    case Either(left, right) => Positions(left) + Positions(right)
    case Negation(inner) => Positions(inner)
    case Generic(e) => set c | c in Columns(e) :: c.index
  }

  function Same(): ColumnRef -> ColumnRef { (c: ColumnRef) => c }

  /** Rows and trace tuples are judged alike when they answer the same lookups. */
  lemma {:induction false} TraceAgrees(host: Host, p: Predicate, row: seq<Value>, valueAt: Lookup)
    requires forall i :: i in Positions(p) ==> valueAt(i) == RowLookup(row)(i)
    ensures EvalPredicateTrace(host, p, valueAt) <==> EvalPredicateRow(host, p, row)
  {
    match p
    case Both(left, right) =>
      TraceAgrees(host, left, row, valueAt);
      TraceAgrees(host, right, row, valueAt);
    case Either(left, right) =>
      TraceAgrees(host, left, row, valueAt);
      TraceAgrees(host, right, row, valueAt);
    case Negation(inner) => TraceAgrees(host, inner, row, valueAt);
    case Generic(e) =>
      forall c | c in Columns(e) ensures ByIndex(valueAt)(Same()(c)) == ByIndex(RowLookup(row))(c) {
        assert c.index in Positions(p);
      }
      RebindMeaning(host, e, Same(), ByIndex(valueAt), ByIndex(RowLookup(row)));
      RebindSame(e);
    case _ =>
  }

  lemma {:induction false} RebindSame(e: Expr)
    ensures Rebind(e, Same()) == e
    decreases e
  {
    match e
    case Column(_) =>
    case Literal(_) =>
    case Binary(left, _, right) =>
      RebindSame(left);
      RebindSame(right);
    case Unary(_, arg) => RebindSame(arg);
    case Function(_, args) =>
      forall i | 0 <= i < |args| ensures Rebind(args[i], Same()) == args[i] {
        RebindSame(args[i]);
      }
    case In(arg, list) =>
      RebindSame(arg);
      forall i | 0 <= i < |list| ensures Rebind(list[i], Same()) == list[i] {
        RebindSame(list[i]);
      }
    case NotIn(arg, list) =>
      RebindSame(arg);
      forall i | 0 <= i < |list| ensures Rebind(list[i], Same()) == list[i] {
        RebindSame(list[i]);
      }
    case Between(arg, low, high) =>
      RebindSame(arg);
      RebindSame(low);
      RebindSame(high);
    case NotBetween(arg, low, high) =>
      RebindSame(arg);
      RebindSame(low);
      RebindSame(high);
    case Like(arg, _) => RebindSame(arg);
    case NotLike(arg, _) => RebindSame(arg);
    case Match(arg, _) => RebindSame(arg);
    case NotMatch(arg, _) => RebindSame(arg);
    case Aggregate(_, inner, _) =>
      if inner.Some? {
        RebindSame(inner.value);
      }
  }

  // ----- The dataflow against the query executor -----------------------------------------------

  predicate Compares(op: BinaryOp) { op == Eq || op == Ne || op == Lt || op == Le || op == Gt || op == Ge }

  /** The comparisons of the query executor (crates/query/src/executor/runner.rs): NULL operands give
      NULL and equality looks through integer widths. */
  function ExecutorCompare(left: Value, op: BinaryOp, right: Value): Value
    requires Compares(op)
  {
    if left.Null? || right.Null? then Null
    else
      match op
      case Eq => Boolean(SqlEq(left, right))
      case Ne => Boolean(!SqlEq(left, right))
      case Lt => Boolean(Compare(left, right) == Less)
      case Le => Boolean(Compare(left, right) != Greater)
      case Gt => Boolean(Compare(left, right) == Greater)
      case Ge => Boolean(Compare(left, right) != Less)
  }

  predicate SameNumberOtherWidth(left: Value, right: Value) {
    || (left.Int32? && right.Int64? && left.i == right.l)
    || (left.Int64? && right.Int32? && left.l == right.i)
  }

  /** Filters of the dataflow and of the executor accept the same rows under every comparison exactly
      when neither operand is NULL and the operands are not one number in two widths. */
  lemma ComparesLikeExecutor(host: Host, left: Value, right: Value)
    ensures (forall op :: Compares(op) ==>
              (EvalBinary(host, left, op, right) == Boolean(true) <==> ExecutorCompare(left, op, right) == Boolean(true)))
       <==> !left.Null? && !right.Null? && !SameNumberOtherWidth(left, right)
  {
    if left.Null? || right.Null? || SameNumberOtherWidth(left, right) {
      var op := DiffersFromExecutor(host, left, right);
    } else {
      forall op | Compares(op)
        ensures EvalBinary(host, left, op, right) == Boolean(true) <==> ExecutorCompare(left, op, right) == Boolean(true)
      {
        ComparesOnPlainValues(host, left, op, right);
      }
    }
  }

  lemma DiffersFromExecutor(host: Host, left: Value, right: Value) returns (op: BinaryOp)
    requires left.Null? || right.Null? || SameNumberOtherWidth(left, right)
    ensures Compares(op)
    ensures (EvalBinary(host, left, op, right) == Boolean(true)) != (ExecutorCompare(left, op, right) == Boolean(true))
  {
    op := if left.Null? then Le else if right.Null? then Ge else Eq;
  }

  lemma ComparesOnPlainValues(host: Host, left: Value, op: BinaryOp, right: Value)
    requires Compares(op) && !left.Null? && !right.Null? && !SameNumberOtherWidth(left, right)
    ensures EvalBinary(host, left, op, right) == Boolean(true) <==> ExecutorCompare(left, op, right) == Boolean(true)
  {
    if op == Eq || op == Ne {
      assert SqlEq(left, right) <==> left == right;
    } else {
      hide SqlEq;
    }
  }

  /** An equality, and so a join key, is judged alike exactly when the operands are not both NULL and
      not one number in two widths. */
  lemma EqualsLikeExecutor(host: Host, left: Value, right: Value)
    ensures (EvalBinary(host, left, Eq, right) == Boolean(true) <==> ExecutorCompare(left, Eq, right) == Boolean(true))
       <==> !(left.Null? && right.Null?) && !SameNumberOtherWidth(left, right)
  {
    if !left.Null? && !right.Null? {
      assert SqlEq(left, right) <==> left == right || SameNumberOtherWidth(left, right);
    }
  }

  /** The failing inputs: `a = b` on a row of two NULLs is accepted by the dataflow and not by the
      executor, and on one number in two widths it is the other way round. */
  lemma DataflowAndExecutorDiffer(host: Host)
    ensures var test := Binary(Column(ColumnRef("t", "a", 0)), Eq, Column(ColumnRef("t", "b", 1)));
      && EvalPredicateRow(host, CompilePredicate(host, test), [Null, Null])
      && ExecutorCompare(Null, Eq, Null) == Null
      && !EvalPredicateRow(host, CompilePredicate(host, test), [Int32(1), Int64(1)])
      && ExecutorCompare(Int32(1), Eq, Int64(1)) == Boolean(true)
  {
    var a, b := Column(ColumnRef("t", "a", 0)), Column(ColumnRef("t", "b", 1));
    CompiledExactly(host, Binary(a, Eq, b), [Null, Null]);
    CompiledExactly(host, Binary(a, Eq, b), [Int32(1), Int64(1)]);
    EqualsOfColumns(host, a.column, b.column, [Null, Null]);
    EqualsOfColumns(host, a.column, b.column, [Int32(1), Int64(1)]);
  }

  lemma EqualsOfColumns(host: Host, a: ColumnRef, b: ColumnRef, row: seq<Value>)
    requires a.index < |row| && b.index < |row|
    ensures EvalRow(host, Binary(Column(a), Eq, Column(b)), row) == Boolean(row[a.index] == row[b.index])
  {
    var lookup := RowLookup(row);
    var column := ByIndex(lookup);
    assert lookup(a.index) == Some(row[a.index]) && lookup(b.index) == Some(row[b.index]);
    assert column(a) == OrNull(lookup(a.index)) && column(b) == OrNull(lookup(b.index));
    assert EvalWith(host, Column(a), column) == column(a) && EvalWith(host, Column(b), column) == column(b);
  }
}
