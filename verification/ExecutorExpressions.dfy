/** The expressions of the query executor (crates/query/src/executor/runner.rs, lines 6221-6333 and
  6392-6616), and where filters compiled to a dataflow answer like them.

  The executor propagates NULL and looks through integer widths; the dataflow does neither. For each
  operator it is stated on which operands the two agree, and for whole expressions that agreement at
  every operator is agreement of the filters. */
module ExecutorExpressions {
  import opened Options
  import opened Values
  import opened Expressions

  /** What the executor's evaluator takes from elsewhere. Its LIKE, its regular expressions and its JSON
      functions are its own; arithmetic and case mapping are those of the dataflow. */
  datatype Executor = Executor(
    like: (string, string) -> bool,
    regex: (string, string) -> bool,
    pathEq: (seq<byte>, string, Value) -> bool,
    pathContains: (seq<byte>, string, Value) -> bool,
    pathExists: (seq<byte>, string) -> bool,
    toInt32: Float -> int32,
    toInt64: Float -> int64)

  // ----- The executor's evaluator --------------------------------------------------------------

  function ExecNumber(v: Value): Option<Float> {
    match v
    case Int32(i) => Some(Finite(i as real))
    case Int64(l) => Some(AsDouble(l))
    case Float64(f) => Some(f)
    case _ => None
  }

  /** Computed on floats; two integers of one width give that width back. */
  function ExecArithmetic(host: Host, ex: Executor, left: Value, op: BinaryOp, right: Value): Value {
    if ExecNumber(left).None? || ExecNumber(right).None? then Null
    else
      var result := host.arithmetic(op, ExecNumber(left).value, ExecNumber(right).value);
      if left.Int64? && right.Int64? then Int64(ex.toInt64(result))
      else if left.Int32? && right.Int32? then Int32(ex.toInt32(result))
      else Float64(result)
  }

  predicate IsZero(v: Value) { v == Int32(0) || v == Int64(0) || v == Float64(Finite(0.0)) }

  /** The remainder of integers, truncated towards zero; the quotient that overflows has none. */
  function Remainder(a: int, b: int): int
    requires b != 0
  {
    var m := (if a < 0 then -a else a) % (if b < 0 then -b else b);
    if a < 0 then -m else m
  }

  function ExecRemainder(left: Value, right: Value): Value {
    match (left, right)
    case (Int64(a), Int64(b)) => if b == 0 then Null else Int64(Remainder(a, b))
    case (Int32(a), Int32(b)) => if b == 0 then Null else Int32(Remainder(a, b))
    case (_, _) => Null
  }

  function ExecBinary(host: Host, ex: Executor, left: Value, op: BinaryOp, right: Value): Value {
    if left.Null? || right.Null? then
      match op
      case And => if left == Boolean(false) || right == Boolean(false) then Boolean(false) else Null
      case Or => if left == Boolean(true) || right == Boolean(true) then Boolean(true) else Null
      case _ => Null
    else
      match op
      case Eq => Boolean(SqlEq(left, right))
      case Ne => Boolean(!SqlEq(left, right))
      case Lt => Boolean(Compare(left, right) == Less)
      case Le => Boolean(Compare(left, right) != Greater)
      case Gt => Boolean(Compare(left, right) == Greater)
      case Ge => Boolean(Compare(left, right) != Less)
      case And => Boolean(left == Boolean(true) && right == Boolean(true))
      case Or => Boolean(left == Boolean(true) || right == Boolean(true))
      case Add => ExecArithmetic(host, ex, left, op, right)
      case Sub => ExecArithmetic(host, ex, left, op, right)
      case Mul => ExecArithmetic(host, ex, left, op, right)
      case Div => if IsZero(right) then Null else ExecArithmetic(host, ex, left, op, right)
      case Mod => ExecRemainder(left, right)
      case LikeOp => Null
      case InOp => Null
      case BetweenOp => Null
  }

  function ExecUnary(host: Host, op: UnaryOp, v: Value): Value {
    match op
    case Not => (match v case Boolean(b) => Boolean(!b) case _ => Null)
    case Neg =>
      (match v
       case Int32(i) => Int32(if i == -0x8000_0000 then i else -i)
       case Int64(l) => Int64(if l == -0x8000_0000_0000_0000 then l else -l)
       case Float64(f) => Float64(host.negateFloat(f))
       case _ => Null)
    case IsNull => Boolean(v == Null)
    case IsNotNull => Boolean(v != Null)
  }

  function ExecCoalesce(args: seq<Value>): Value {
    if args == [] then Null else if args[0] == Null then ExecCoalesce(args[1..]) else args[0]
  }

  datatype Scalar = Abs | Upper | Lower | Length | Coalesce | JsonPathEq | JsonbContains | JsonbExists | Unknown

  function Named(upper: string): Scalar {
    if upper == "ABS" then Abs
    else if upper == "UPPER" then Upper
    else if upper == "LOWER" then Lower
    else if upper == "LENGTH" then Length
    else if upper == "COALESCE" then Coalesce
    else if upper == "JSONB_PATH_EQ" then JsonPathEq
    else if upper == "JSONB_CONTAINS" then JsonbContains
    else if upper == "JSONB_EXISTS" then JsonbExists
    else Unknown
  }

  /** Function names are compared after Unicode upper-casing. */
  function ExecFunction(host: Host, ex: Executor, name: string, args: seq<Value>): Value {
    match Named(host.upper(name))
    case Abs =>
      if args == [] then Null
      else
        (match args[0]
         case Int32(i) => Int32(if i == -0x8000_0000 then i else if i < 0 then -i else i)
         case Int64(l) => Int64(if l == -0x8000_0000_0000_0000 then l else if l < 0 then -l else l)
         case Float64(f) => Float64(host.absFloat(f))
         case _ => Null)
    case Upper => if |args| > 0 && args[0].String? then String(host.upper(args[0].s)) else Null
    case Lower => if |args| > 0 && args[0].String? then String(host.lower(args[0].s)) else Null
    case Length => if |args| > 0 && args[0].String? then Int64(host.utf8Length(args[0].s)) else Null
    case Coalesce => ExecCoalesce(args)
    case JsonPathEq =>
      if |args| < 3 || !args[0].Jsonb? || !args[1].String? then Boolean(false)
      else Boolean(ex.pathEq(args[0].json, args[1].s, args[2]))
    case JsonbContains =>
      if |args| < 3 || !args[0].Jsonb? || !args[1].String? then Boolean(false)
      else Boolean(ex.pathContains(args[0].json, args[1].s, args[2]))
    case JsonbExists =>
      if |args| < 2 || !args[0].Jsonb? || !args[1].String? then Boolean(false)
      else Boolean(ex.pathExists(args[0].json, args[1].s))
    case Unknown => Null
  }

  function ExecEval(host: Host, ex: Executor, e: Expr, column: ColumnRef -> Value): Value
    decreases e
  {
    match e
    case Column(c) => column(c)
    case Literal(v) => v
    case Binary(left, op, right) => ExecBinary(host, ex, ExecEval(host, ex, left, column), op, ExecEval(host, ex, right, column))
    case Unary(op, arg) => ExecUnary(host, op, ExecEval(host, ex, arg, column))
    case Aggregate(_, inner, _) => if inner.Some? then ExecEval(host, ex, inner.value, column) else Int64(1)
    case Between(arg, low, high) =>
      var v := ExecEval(host, ex, arg, column);
      Boolean(Compare(v, ExecEval(host, ex, low, column)) != Less && Compare(v, ExecEval(host, ex, high, column)) != Greater)
    case NotBetween(arg, low, high) =>
      var v := ExecEval(host, ex, arg, column);
      Boolean(Compare(v, ExecEval(host, ex, low, column)) == Less || Compare(v, ExecEval(host, ex, high, column)) == Greater)
    case In(arg, list) =>
      var v := ExecEval(host, ex, arg, column);
      Boolean(exists i :: 0 <= i < |list| && ExecEval(host, ex, list[i], column) == v)
    case NotIn(arg, list) =>
      var v := ExecEval(host, ex, arg, column);
      Boolean(!exists i :: 0 <= i < |list| && ExecEval(host, ex, list[i], column) == v)
    case Like(arg, pattern) =>
      var v := ExecEval(host, ex, arg, column);
      if v.String? then Boolean(ex.like(v.s, pattern)) else Boolean(false)
    case NotLike(arg, pattern) =>
      var v := ExecEval(host, ex, arg, column);
      if v.String? then Boolean(!ex.like(v.s, pattern)) else Boolean(true)
    case Match(arg, pattern) =>
      var v := ExecEval(host, ex, arg, column);
      if v.String? then Boolean(ex.regex(v.s, pattern)) else Boolean(false)
    case NotMatch(arg, pattern) =>
      var v := ExecEval(host, ex, arg, column);
      if v.String? then Boolean(!ex.regex(v.s, pattern)) else Boolean(true)
    case Function(name, args) =>
      ExecFunction(host, ex, name, seq(|args|, i requires 0 <= i < |args| => ExecEval(host, ex, args[i], column)))
  }

  // ----- Where the operators agree -------------------------------------------------------------

  predicate SameWidth(left: Value, right: Value) { (left.Int32? && right.Int32?) || (left.Int64? && right.Int64?) }

  predicate BothNumbers(left: Value, right: Value) { ExecNumber(left).Some? && ExecNumber(right).Some? }

  predicate EitherNull(left: Value, right: Value) { left == Null || right == Null }

  /** The operands on which a binary operator has one value in the dataflow and in the executor. */
  predicate SameBinary(left: Value, op: BinaryOp, right: Value) {
    match op
    case Eq => !EitherNull(left, right) && !SameNumberOtherWidth(left, right)
    case Ne => !EitherNull(left, right) && !SameNumberOtherWidth(left, right)
    case Lt => !EitherNull(left, right)
    case Le => !EitherNull(left, right)
    case Gt => !EitherNull(left, right)
    case Ge => !EitherNull(left, right)
    case And => EitherNull(left, right) ==> left == Boolean(false) || right == Boolean(false)
    case Or => EitherNull(left, right) ==> left == Boolean(true) || right == Boolean(true)
    case Add => !SameWidth(left, right)
    case Sub => !SameWidth(left, right)
    case Mul => !SameWidth(left, right)
    case Div => !BothNumbers(left, right) || (!SameWidth(left, right) && !IsZero(right))
    case Mod => !BothNumbers(left, right)
    case _ => true
  }

  /** The condition is exact. */
  lemma BinaryAgreesExactly(host: Host, ex: Executor, left: Value, op: BinaryOp, right: Value)
    ensures EvalBinary(host, left, op, right) == ExecBinary(host, ex, left, op, right) <==> SameBinary(left, op, right)
  {
    hide *;
    if op == And || op == Or {
      ConnectiveAgrees(host, ex, left, op, right);
    } else if Compares(op) {
      ComparisonAgrees(host, ex, left, op, right);
    } else {
      CalculationAgrees(host, ex, left, op, right);
    }
  }

  lemma ConnectiveAgrees(host: Host, ex: Executor, left: Value, op: BinaryOp, right: Value)
    requires op == And || op == Or
    ensures EvalBinary(host, left, op, right) == ExecBinary(host, ex, left, op, right) <==> SameBinary(left, op, right)
  {
    hide SqlEq, Compare, SameNumberOtherWidth, AsFloat, ExecNumber, ExecArithmetic, NumericOp, ExecRemainder, BothNumbers;
  }

  lemma ComparisonAgrees(host: Host, ex: Executor, left: Value, op: BinaryOp, right: Value)
    requires Compares(op)
    ensures EvalBinary(host, left, op, right) == ExecBinary(host, ex, left, op, right) <==> SameBinary(left, op, right)
  {
    EqualAcrossWidths(left, right);
    hide SqlEq, Compare, SameNumberOtherWidth, AsFloat, ExecNumber, ExecArithmetic, NumericOp, ExecRemainder, BothNumbers;
  }

  lemma CalculationAgrees(host: Host, ex: Executor, left: Value, op: BinaryOp, right: Value)
    requires !Compares(op) && op != And && op != Or
    ensures EvalBinary(host, left, op, right) == ExecBinary(host, ex, left, op, right) <==> SameBinary(left, op, right)
  {
    hide *;
    OperatorOf(host, ex, left, op, right);
    if op == Mod {
      ModAgrees(host, ex, left, right);
    } else if op == Add || op == Sub || op == Mul || op == Div {
      ArithmeticAgrees(host, ex, left, op, right);
    }
  }

  /** What the calculating operators come to. */
  lemma OperatorOf(host: Host, ex: Executor, left: Value, op: BinaryOp, right: Value)
    requires !Compares(op) && op != And && op != Or
    ensures var arithmetic := op == Add || op == Sub || op == Mul || op == Div;
      && EvalBinary(host, left, op, right) == (if arithmetic || op == Mod then NumericOp(host, left, op, right) else Null)
      && ExecBinary(host, ex, left, op, right)
         == (if EitherNull(left, right) then Null
             else if op == Mod then ExecRemainder(left, right)
             else if arithmetic && !(op == Div && IsZero(right)) then ExecArithmetic(host, ex, left, op, right)
             else Null)
      && (SameBinary(left, op, right)
          <==> if op == Mod then !BothNumbers(left, right)
               else if op == Div then !BothNumbers(left, right) || (!SameWidth(left, right) && !IsZero(right))
               else arithmetic ==> !SameWidth(left, right))
  {
    hide ExecArithmetic, NumericOp, ExecRemainder, BothNumbers, SameWidth, SqlEq, Compare;
  }

  lemma EqualAcrossWidths(left: Value, right: Value)
    ensures SqlEq(left, right) <==> left == right || SameNumberOtherWidth(left, right)
    ensures SameNumberOtherWidth(left, right) ==> left != right
  {}

  lemma ArithmeticAgrees(host: Host, ex: Executor, left: Value, op: BinaryOp, right: Value)
    requires op == Add || op == Sub || op == Mul || op == Div
    ensures NumericOp(host, left, op, right) == ExecArithmetic(host, ex, left, op, right) <==> !SameWidth(left, right)
    ensures BothNumbers(left, right) <==> NumericOp(host, left, op, right) != Null
    ensures SameWidth(left, right) ==> BothNumbers(left, right)
    ensures EitherNull(left, right) ==> !BothNumbers(left, right) && ExecArithmetic(host, ex, left, op, right) == Null
    ensures !BothNumbers(left, right) ==> ExecArithmetic(host, ex, left, op, right) == Null
  {}

  lemma ModAgrees(host: Host, ex: Executor, left: Value, right: Value)
    ensures NumericOp(host, left, Mod, right) == ExecRemainder(left, right) <==> !BothNumbers(left, right)
    ensures EitherNull(left, right) ==> !BothNumbers(left, right) && ExecRemainder(left, right) == Null
  {
    hide Remainder;
  }

  /** NOT, negation and the NULL tests have one value everywhere. */
  lemma UnaryAgrees(host: Host, op: UnaryOp, v: Value)
    ensures EvalUnary(host, op, v) == ExecUnary(host, op, v)
  {}

  lemma {:induction false} CoalesceAgrees(args: seq<Value>)
    ensures FirstNonNull(args) == ExecCoalesce(args)
  {
    if args != [] {
      CoalesceAgrees(args[1..]);
    }
  }

  /** The arguments on which a function has one value: its name is the same in both upper cases, and the JSON
      functions answer alike. */
  predicate SameFunction(host: Host, ex: Executor, name: string, args: seq<Value>) {
    && Named(host.upper(name)) == Named(UpperAscii(name))
    && (Named(UpperAscii(name)) == JsonPathEq && |args| >= 3 && args[0].Jsonb? && args[1].String? ==>
          (JsonPathEqual(host, args[0].json, args[1].s, args[2]) <==> ex.pathEq(args[0].json, args[1].s, args[2])))
    && (Named(UpperAscii(name)) == JsonbContains && |args| >= 3 && args[0].Jsonb? && args[1].String? ==>
          (JsonContains(host, args[0].json, args[1].s, args[2]) <==> ex.pathContains(args[0].json, args[1].s, args[2])))
    && (Named(UpperAscii(name)) == JsonbExists && |args| >= 2 && args[0].Jsonb? && args[1].String? ==>
          (JsonExists(host, args[0].json, args[1].s) <==> ex.pathExists(args[0].json, args[1].s)))
  }

  lemma FunctionAgrees(host: Host, ex: Executor, name: string, args: seq<Value>)
    requires SameFunction(host, ex, name, args)
    ensures EvalFunction(host, name, args) == ExecFunction(host, ex, name, args)
  {
    hide UpperAscii, JsonPathEqual, JsonContains, JsonExists;
    CoalesceAgrees(args);
  }

  // ----- Whole expressions ---------------------------------------------------------------------

  function ValuesOf(host: Host, list: seq<Expr>, column: ColumnRef -> Value): seq<Value> {
    seq(|list|, i requires 0 <= i < |list| => EvalWith(host, list[i], column))
  }

  function ExecValuesOf(host: Host, ex: Executor, list: seq<Expr>, column: ColumnRef -> Value): seq<Value> {
    seq(|list|, i requires 0 <= i < |list| => ExecEval(host, ex, list[i], column))
  }

  ghost predicate SameText(v: Value, pattern: string, f: (string, string) -> bool, g: (string, string) -> bool) {
    v.String? ==> f(v.s, pattern) == g(v.s, pattern)
  }

  /** Every operator of the expression meets operands on which the two evaluators agree. */
  ghost predicate Agreeable(host: Host, ex: Executor, e: Expr, column: ColumnRef -> Value)
    decreases e
  {
    match e
    case Column(_) => true
    case Literal(_) => true
    case Binary(left, op, right) =>
      && Agreeable(host, ex, left, column) && Agreeable(host, ex, right, column)
      && SameBinary(EvalWith(host, left, column), op, EvalWith(host, right, column))
    case Unary(_, arg) => Agreeable(host, ex, arg, column)
    case Function(name, args) =>
      && (forall i :: 0 <= i < |args| ==> Agreeable(host, ex, args[i], column))
      && SameFunction(host, ex, name, ValuesOf(host, args, column))
    case In(arg, list) => Agreeable(host, ex, arg, column) && forall i :: 0 <= i < |list| ==> Agreeable(host, ex, list[i], column)
    case NotIn(arg, list) => Agreeable(host, ex, arg, column) && forall i :: 0 <= i < |list| ==> Agreeable(host, ex, list[i], column)
    case Between(arg, low, high) =>
      Agreeable(host, ex, arg, column) && Agreeable(host, ex, low, column) && Agreeable(host, ex, high, column)
    case NotBetween(arg, low, high) =>
      Agreeable(host, ex, arg, column) && Agreeable(host, ex, low, column) && Agreeable(host, ex, high, column)
    case Like(arg, pattern) => Agreeable(host, ex, arg, column) && SameText(EvalWith(host, arg, column), pattern, host.like, ex.like)
    case NotLike(arg, pattern) => Agreeable(host, ex, arg, column) && SameText(EvalWith(host, arg, column), pattern, host.like, ex.like)
    case Match(arg, pattern) => Agreeable(host, ex, arg, column) && SameText(EvalWith(host, arg, column), pattern, host.regex, ex.regex)
    case NotMatch(arg, pattern) =>
      Agreeable(host, ex, arg, column) && SameText(EvalWith(host, arg, column), pattern, host.regex, ex.regex)
    case Aggregate(_, inner, _) => false
  }

  /** Then the evaluators give one value. */
  lemma {:induction false} SameValue(host: Host, ex: Executor, e: Expr, column: ColumnRef -> Value)
    requires Agreeable(host, ex, e, column)
    ensures EvalWith(host, e, column) == ExecEval(host, ex, e, column)
    decreases e
  {
    match e
    case Column(_) =>
    case Literal(_) =>
    case Binary(left, op, right) =>
      SameValue(host, ex, left, column);
      SameValue(host, ex, right, column);
      BinaryAgreesExactly(host, ex, EvalWith(host, left, column), op, EvalWith(host, right, column));
    case Unary(op, arg) =>
      SameValue(host, ex, arg, column);
      UnaryAgrees(host, op, EvalWith(host, arg, column));
    case Function(name, args) =>
      SameValues(host, ex, args, column);
      FunctionAgrees(host, ex, name, ValuesOf(host, args, column));
      FunctionValues(host, ex, e, column);
    case In(_, _) => SameMembers(host, ex, e, column);
    case NotIn(_, _) => SameMembers(host, ex, e, column);
    case Between(_, _, _) => SameRange(host, ex, e, column);
    case NotBetween(_, _, _) => SameRange(host, ex, e, column);
    case Like(arg, _) => SameValue(host, ex, arg, column);
    case NotLike(arg, _) => SameValue(host, ex, arg, column);
    case Match(arg, _) => SameValue(host, ex, arg, column);
    case NotMatch(arg, _) => SameValue(host, ex, arg, column);
  }

  lemma {:induction false} SameValues(host: Host, ex: Executor, list: seq<Expr>, column: ColumnRef -> Value)
    requires forall i :: 0 <= i < |list| ==> Agreeable(host, ex, list[i], column)
    ensures ValuesOf(host, list, column) == ExecValuesOf(host, ex, list, column)
    decreases list
  {
    forall i | 0 <= i < |list| ensures EvalWith(host, list[i], column) == ExecEval(host, ex, list[i], column) {
      SameValue(host, ex, list[i], column);
    }
  }

  lemma FunctionValues(host: Host, ex: Executor, e: Expr, column: ColumnRef -> Value)
    requires e.Function?
    ensures EvalWith(host, e, column) == EvalFunction(host, e.name, ValuesOf(host, e.args, column))
    ensures ExecEval(host, ex, e, column) == ExecFunction(host, ex, e.name, ExecValuesOf(host, ex, e.args, column))
  {
    hide EvalFunction, ExecFunction;
    assert ValuesOf(host, e.args, column) == seq(|e.args|, i requires 0 <= i < |e.args| => EvalWith(host, e.args[i], column));
    assert ExecValuesOf(host, ex, e.args, column) == seq(|e.args|, i requires 0 <= i < |e.args| => ExecEval(host, ex, e.args[i], column));
  }

  lemma {:induction false} SameMembers(host: Host, ex: Executor, e: Expr, column: ColumnRef -> Value)
    requires (e.In? || e.NotIn?) && Agreeable(host, ex, e, column)
    ensures EvalWith(host, e, column) == ExecEval(host, ex, e, column)
    decreases e, 0
  {
    var v, values := EvalWith(host, e.arg, column), ValuesOf(host, e.list, column);
    SameValue(host, ex, e.arg, column);
    SameValues(host, ex, e.list, column);
    assert values == seq(|e.list|, i requires 0 <= i < |e.list| => EvalWith(host, e.list[i], column));
    assert v in values <==> exists i :: 0 <= i < |e.list| && ExecEval(host, ex, e.list[i], column) == v by {
      forall i | 0 <= i < |e.list| ensures values[i] == ExecEval(host, ex, e.list[i], column) {
        assert ExecValuesOf(host, ex, e.list, column)[i] == values[i];
      }
    }
  }

  lemma {:induction false} SameRange(host: Host, ex: Executor, e: Expr, column: ColumnRef -> Value)
    requires (e.Between? || e.NotBetween?) && Agreeable(host, ex, e, column)
    ensures EvalWith(host, e, column) == ExecEval(host, ex, e, column)
    decreases e, 0
  {
    SameValue(host, ex, e.arg, column);
    SameValue(host, ex, e.low, column);
    SameValue(host, ex, e.high, column);
    hide Agreeable, Compare, AtMost;
    InRange(EvalWith(host, e.arg, column), EvalWith(host, e.low, column), EvalWith(host, e.high, column));
  }

  lemma InRange(v: Value, low: Value, high: Value)
    ensures AtMost(low, v) && AtMost(v, high) <==> Compare(v, low) != Less && Compare(v, high) != Greater
  {
    CompareMirror(low, v);
    hide Compare;
  }

  // ----- Filters -------------------------------------------------------------------------------

  /** The operands on which a comparison is true in both evaluators or in neither. NULL is the least value. */
  predicate SameTest(left: Value, op: BinaryOp, right: Value)
    requires Compares(op)
  {
    match op
    case Eq => !(left == Null && right == Null) && !SameNumberOtherWidth(left, right)
    case Ne => (EitherNull(left, right) ==> left == right) && !SameNumberOtherWidth(left, right)
    case Lt => left == Null ==> right == Null
    case Le => left != Null
    case Gt => right == Null ==> left == Null
    case Ge => right != Null
  }

  /** The condition is exact. */
  lemma TestAgreesExactly(host: Host, ex: Executor, left: Value, op: BinaryOp, right: Value)
    requires Compares(op)
    ensures (IsTrue(EvalBinary(host, left, op, right)) <==> IsTrue(ExecBinary(host, ex, left, op, right)))
       <==> SameTest(left, op, right)
  {
    EqualAcrossWidths(left, right);
    NullIsLeast(left, right);
    NullHasNoWidth(left, right);
    hide SqlEq, Compare, SameNumberOtherWidth, ExecArithmetic, NumericOp, ExecRemainder;
  }

  lemma NullIsLeast(left: Value, right: Value)
    ensures left == Null ==> Compare(left, right) == if right == Null then Equal else Less
    ensures right == Null && left != Null ==> Compare(left, right) == Greater
  {}

  lemma NullHasNoWidth(left: Value, right: Value)
    ensures EitherNull(left, right) ==> !SameNumberOtherWidth(left, right)
  {}

  /** AND and OR are true in both evaluators or in neither, whatever the other values. */
  lemma ConnectivesAgree(host: Host, ex: Executor, left: Value, right: Value, left': Value, right': Value)
    requires (IsTrue(left) <==> IsTrue(left')) && (IsTrue(right) <==> IsTrue(right'))
    ensures IsTrue(EvalBinary(host, left, And, right)) <==> IsTrue(ExecBinary(host, ex, left', And, right'))
    ensures IsTrue(EvalBinary(host, left, Or, right)) <==> IsTrue(ExecBinary(host, ex, left', Or, right'))
  {}

  /** At the top of a filter only truth counts: conjunctions and disjunctions of tests. */
  ghost predicate FilterAgrees(host: Host, ex: Executor, e: Expr, column: ColumnRef -> Value) {
    match e
    case Binary(left, op, right) =>
      if op == And || op == Or then FilterAgrees(host, ex, left, column) && FilterAgrees(host, ex, right, column)
      else if Compares(op) then
        && Agreeable(host, ex, left, column) && Agreeable(host, ex, right, column)
        && SameTest(EvalWith(host, left, column), op, EvalWith(host, right, column))
      else Agreeable(host, ex, e, column)
    case _ => Agreeable(host, ex, e, column)
  }

  /** A filter compiled to the dataflow accepts the rows the executor's filter accepts, wherever its tests
      agree. */
  lemma {:induction false} SameFilter(host: Host, ex: Executor, e: Expr, column: ColumnRef -> Value)
    requires FilterAgrees(host, ex, e, column)
    ensures IsTrue(EvalWith(host, e, column)) <==> IsTrue(ExecEval(host, ex, e, column))
  {
    match e
    case Binary(left, op, right) =>
      if op == And || op == Or {
        SameFilter(host, ex, left, column);
        SameFilter(host, ex, right, column);
        ConnectivesAgree(host, ex, EvalWith(host, left, column), EvalWith(host, right, column),
                         ExecEval(host, ex, left, column), ExecEval(host, ex, right, column));
      } else if Compares(op) {
        SameValue(host, ex, left, column);
        SameValue(host, ex, right, column);
        TestAgreesExactly(host, ex, EvalWith(host, left, column), op, EvalWith(host, right, column));
      } else {
        SameValue(host, ex, e, column);
      }
    case _ => SameValue(host, ex, e, column);
  }

  lemma CompiledLikeExecutor(host: Host, ex: Executor, e: Expr, row: seq<Value>)
    requires FilterAgrees(host, ex, e, ByIndex(RowLookup(row)))
    ensures EvalPredicateRow(host, CompilePredicate(host, e), row) <==> IsTrue(ExecEval(host, ex, e, ByIndex(RowLookup(row))))
  {
    hide *;
    CompiledExactly(host, e, row);
    SameFilter(host, ex, e, ByIndex(RowLookup(row)));
    RowValue(host, e, row);
  }

  lemma RowValue(host: Host, e: Expr, row: seq<Value>)
    ensures EvalRow(host, e, row) == EvalWith(host, e, ByIndex(RowLookup(row)))
    ensures forall v: Value :: IsTrue(v) <==> v == Boolean(true)
  {}

  // ----- The tests on one column ---------------------------------------------------------------

  /** The value a row has for a column. */
  function ValueIn(row: seq<Value>, c: ColumnRef): Value { if c.index < |row| then row[c.index] else Null }

  lemma ColumnIsValue(host: Host, c: ColumnRef, row: seq<Value>)
    ensures EvalWith(host, Column(c), ByIndex(RowLookup(row))) == ValueIn(row, c)
    ensures forall e :: EvalRow(host, e, row) == EvalWith(host, e, ByIndex(RowLookup(row)))
  {
    assert ByIndex(RowLookup(row))(c) == OrNull(RowLookup(row)(c.index)) == ValueIn(row, c);
  }

  /** What compiled tests of one column accept, in terms of the row: NULL and truth, */
  lemma NullTests(host: Host, c: ColumnRef, row: seq<Value>)
    ensures EvalPredicateRow(host, CompilePredicate(host, Unary(IsNull, Column(c))), row) <==> ValueIn(row, c) == Null
    ensures EvalPredicateRow(host, CompilePredicate(host, Unary(IsNotNull, Column(c))), row) <==> ValueIn(row, c) != Null
    ensures EvalPredicateRow(host, CompilePredicate(host, Column(c)), row) <==> ValueIn(row, c) == Boolean(true)
    ensures EvalPredicateRow(host, CompilePredicate(host, Unary(Not, Column(c))), row) <==> ValueIn(row, c) == Boolean(false)
  {
    ColumnIsValue(host, c, row);
    CompiledExactly(host, Unary(IsNull, Column(c)), row);
    CompiledExactly(host, Unary(IsNotNull, Column(c)), row);
    CompiledExactly(host, Column(c), row);
    CompiledExactly(host, Unary(Not, Column(c)), row);
    hide EvalPredicateRow, CompilePredicate, EvalRow, ByIndex, RowLookup;
  }

  /** patterns, */
  lemma PatternTests(host: Host, c: ColumnRef, row: seq<Value>, pattern: string)
    ensures var v := ValueIn(row, c);
      && (EvalPredicateRow(host, CompilePredicate(host, Like(Column(c), pattern)), row) <==> v.String? && host.like(v.s, pattern))
      && (EvalPredicateRow(host, CompilePredicate(host, NotLike(Column(c), pattern)), row) <==> !(v.String? && host.like(v.s, pattern)))
      && (EvalPredicateRow(host, CompilePredicate(host, Match(Column(c), pattern)), row) <==> v.String? && host.regex(v.s, pattern))
      && (EvalPredicateRow(host, CompilePredicate(host, NotMatch(Column(c), pattern)), row) <==> !(v.String? && host.regex(v.s, pattern)))
  {
    ColumnIsValue(host, c, row);
    CompiledExactly(host, Like(Column(c), pattern), row);
    CompiledExactly(host, NotLike(Column(c), pattern), row);
    CompiledExactly(host, Match(Column(c), pattern), row);
    CompiledExactly(host, NotMatch(Column(c), pattern), row);
    hide EvalPredicateRow, CompilePredicate, EvalRow, ByIndex, RowLookup;
  }

  /** ranges and lists. */
  lemma MemberTests(host: Host, c: ColumnRef, row: seq<Value>, low: Value, high: Value, values: seq<Value>)
    ensures var v, list := ValueIn(row, c), Literals(values);
      && (EvalPredicateRow(host, CompilePredicate(host, Between(Column(c), Literal(low), Literal(high))), row)
          <==> AtMost(low, v) && AtMost(v, high))
      && (EvalPredicateRow(host, CompilePredicate(host, NotBetween(Column(c), Literal(low), Literal(high))), row)
          <==> !(AtMost(low, v) && AtMost(v, high)))
      && (EvalPredicateRow(host, CompilePredicate(host, In(Column(c), list)), row) <==> v in values)
      && (EvalPredicateRow(host, CompilePredicate(host, NotIn(Column(c), list)), row) <==> v !in values)
  {
    var v, list, column := ValueIn(row, c), Literals(values), ByIndex(RowLookup(row));
    ColumnIsValue(host, c, row);
    CompiledExactly(host, Between(Column(c), Literal(low), Literal(high)), row);
    CompiledExactly(host, NotBetween(Column(c), Literal(low), Literal(high)), row);
    CompiledExactly(host, In(Column(c), list), row);
    CompiledExactly(host, NotIn(Column(c), list), row);
    hide EvalPredicateRow, CompilePredicate, EvalRow, ByIndex, RowLookup, Compare;
    CompareMirror(low, v);
    assert EvalWith(host, Literal(low), column) == low && EvalWith(host, Literal(high), column) == high;
    assert seq(|list|, i requires 0 <= i < |list| => EvalWith(host, list[i], column)) == values;
  }

  function Literals(values: seq<Value>): seq<Expr> {
    seq(|values|, i requires 0 <= i < |values| => Literal(values[i]))
  }

  // ----- Failing inputs ------------------------------------------------------------------------

  const A: ColumnRef := ColumnRef("t", "a", 0)

  /** `NOT (a = 1)` on a NULL: accepted by the dataflow, not by the executor. */
  lemma NotLetsNullIn(host: Host, ex: Executor)
    ensures var test := Unary(Not, Binary(Column(A), Eq, Literal(Int64(1))));
      && EvalPredicateRow(host, CompilePredicate(host, test), [Null])
      && ExecEval(host, ex, test, ByIndex(RowLookup([Null]))) == Null
  {
    var test, column := Unary(Not, Binary(Column(A), Eq, Literal(Int64(1)))), ByIndex(RowLookup([Null]));
    ColumnIsValue(host, A, [Null]);
    assert EvalWith(host, Column(A), column) == Null && EvalWith(host, Literal(Int64(1)), column) == Int64(1);
    assert EvalWith(host, test.arg, column) == Boolean(false);
    CompiledExactly(host, test, [Null]);
    assert ExecEval(host, ex, Column(A), column) == column(A) == Null;
  }

  /** `a + 1 = 2` on the integer 1: accepted by the executor, not by the dataflow, whose sum is a float. */
  lemma SumIsNoInteger(host: Host, ex: Executor)
    requires ex.toInt64(host.arithmetic(Add, AsDouble(1), AsDouble(1))) == 2
    ensures var test := Binary(Binary(Column(A), Add, Literal(Int64(1))), Eq, Literal(Int64(2)));
      && !EvalPredicateRow(host, CompilePredicate(host, test), [Int64(1)])
      && ExecEval(host, ex, test, ByIndex(RowLookup([Int64(1)]))) == Boolean(true)
  {
    var sum, column := Binary(Column(A), Add, Literal(Int64(1))), ByIndex(RowLookup([Int64(1)]));
    var test := Binary(sum, Eq, Literal(Int64(2)));
    assert column(A) == Int64(1);
    assert EvalWith(host, Column(A), column) == Int64(1) && EvalWith(host, Literal(Int64(1)), column) == Int64(1);
    assert EvalWith(host, sum, column).Float64?;
    CompiledExactly(host, test, [Int64(1)]);
    assert ExecEval(host, ex, Column(A), column) == Int64(1);
    assert ExecEval(host, ex, sum, column) == Int64(2);
  }
}
