// Expressions and their evaluation (parser/ast.rs:74-140, executor/mod.rs:516-763).
module Exprs {
  import opened Wrappers
  import opened Bytes
  import opened SqlValues

  type Name = seq<byte>

  datatype BinaryOp = Eq | Neq | Lt | LtEq | Gt | GtEq | And | Or | Add | Sub | Mul | Div | Like
  datatype UnaryOp = Not | Neg

  datatype Expr =
    | Literal(value: Value)
    | ColumnRef(column: Name)
    | Binary(left: Expr, op: BinaryOp, right: Expr)
    | Unary(uop: UnaryOp, operand: Expr)
    | FunctionCall(name: Name, args: seq<Expr>)
    | IsNull(tested: Expr)
    | IsNotNull(tested: Expr)
    | Between(subject: Expr, low: Expr, high: Expr)
    | InList(item: Expr, list: seq<Expr>)

  type Context = map<Name, Value>

  // LIKE by way of the regex crate is any function of the two texts.
  type LikeFn = (seq<byte>, seq<byte>) -> Result<bool>

  // ---------------------------------------------------------------------------
  // Evaluation
  // ---------------------------------------------------------------------------

  // Sums, differences and products wrap around as in a release build.
  function Wrap(n: int): i64 {
    var m := n % TWO_64;
    if m < TWO_63 then m else m - TWO_64
  }

  // Division truncates toward zero; a zero divisor, or a quotient that does not fit, panics.
  function Divide(a: i64, b: i64): Result<i64> {
    if b == 0 || (a == -TWO_63 && b == -1) then Err(InternalError)
    else Ok(Wrap(if (a < 0) == (b < 0) then Abs(a) / Abs(b) else -(Abs(a) / Abs(b))))
  }

  function Abs(n: int): nat {
    if n < 0 then -n else n
  }

  function Truthy(v: Value): bool {
    match v
    case Boolean(b) => b
    case Null => false
    case Integer(i) => i != 0
    case Text(s) => s != []
  }

  predicate Holds(op: BinaryOp, o: Ordering)
    requires op in {Lt, LtEq, Gt, GtEq}
  {
    match op
    case Lt => o == Smaller
    case LtEq => o != Greater
    case Gt => o == Greater
    case GtEq => o != Smaller
  }

  // compare_values: NULL on either side gives NULL, values of different types are an error.
  function CompareValues(op: BinaryOp, a: Value, b: Value): Result<Value>
    requires op in {Lt, LtEq, Gt, GtEq}
  {
    if a.Null? || b.Null? then Ok(Null)
    else match Compare(a, b)
      case Some(o) => Ok(Boolean(Holds(op, o)))
      case None => Err(TypeError)
  }

  function Arithmetic(op: BinaryOp, a: Value, b: Value): Result<Value>
    requires op in {Add, Sub, Mul, Div}
  {
    if !(a.Integer? && b.Integer?) then Err(TypeError)
    else match op
      case Add => Ok(Integer(Wrap(a.i + b.i)))
      case Sub => Ok(Integer(Wrap(a.i - b.i)))
      case Mul => Ok(Integer(Wrap(a.i * b.i)))
      case Div =>
        var q :- Divide(a.i, b.i);
        Ok(Integer(q))
  }

  function LikeOp(like: LikeFn, a: Value, b: Value): Result<Value> {
    if !(a.Text? && b.Text?) then Err(TypeError)
    else
      var matched :- like(a.text, b.text);
      Ok(Boolean(matched))
  }

  function Apply(like: LikeFn, op: BinaryOp, a: Value, b: Value): Result<Value> {
    match op
    case Eq => Ok(Boolean(a == b))
    case Neq => Ok(Boolean(a != b))
    case Lt => CompareValues(Lt, a, b)
    case LtEq => CompareValues(LtEq, a, b)
    case Gt => CompareValues(Gt, a, b)
    case GtEq => CompareValues(GtEq, a, b)
    case And => Ok(Boolean(Truthy(a) && Truthy(b)))
    case Or => Ok(Boolean(Truthy(a) || Truthy(b)))
    case Add => Arithmetic(Add, a, b)
    case Sub => Arithmetic(Sub, a, b)
    case Mul => Arithmetic(Mul, a, b)
    case Div => Arithmetic(Div, a, b)
    case Like => LikeOp(like, a, b)
  }

  function Evaluate(like: LikeFn, e: Expr, ctx: Context): Result<Value> {
    match e
    case Literal(v) => Ok(v)
    case ColumnRef(c) => if c in ctx then Ok(ctx[c]) else Err(ColumnNotFound)
    case Binary(l, op, r) =>
      var a :- Evaluate(like, l, ctx);
      var b :- Evaluate(like, r, ctx);
      Apply(like, op, a, b)
    case Unary(Not, x) =>
      var v :- Evaluate(like, x, ctx);
      Ok(Boolean(!Truthy(v)))
    case Unary(Neg, x) =>
      var v :- Evaluate(like, x, ctx);
      if v.Integer? then Ok(Integer(Wrap(0 - v.i))) else Err(TypeError)
    case IsNull(x) =>
      var v :- Evaluate(like, x, ctx);
      Ok(Boolean(v.Null?))
    case IsNotNull(x) =>
      var v :- Evaluate(like, x, ctx);
      Ok(Boolean(!v.Null?))
    case Between(x, l, h) =>
      var v :- Evaluate(like, x, ctx);
      var low :- Evaluate(like, l, ctx);
      var high :- Evaluate(like, h, ctx);
      var ge :- CompareValues(GtEq, v, low);
      var le :- CompareValues(LtEq, v, high);
      Ok(Boolean(Truthy(ge) && Truthy(le)))
    case FunctionCall(_, _) => Err(ExecutionError)
    case InList(_, _) => Err(ExecutionError)
  }

  function EvaluateBoolean(like: LikeFn, e: Expr, ctx: Context): Result<bool> {
    var v :- Evaluate(like, e, ctx);
    Ok(Truthy(v))
  }

  // ---------------------------------------------------------------------------
  // What evaluation depends on
  // ---------------------------------------------------------------------------

  function FreeColumns(e: Expr): set<Name> {
    match e
    case Literal(_) => {}
    case ColumnRef(c) => {c}
    case Binary(l, _, r) => FreeColumns(l) + FreeColumns(r)
    case Unary(_, x) => FreeColumns(x)
    case IsNull(x) => FreeColumns(x)
    case IsNotNull(x) => FreeColumns(x)
    case Between(x, l, h) => FreeColumns(x) + FreeColumns(l) + FreeColumns(h)
    case FunctionCall(_, _) => {}
    case InList(_, _) => {}
  }

  ghost predicate SameOn(columns: set<Name>, a: Context, b: Context) {
    forall c :: c in columns ==> (c in a <==> c in b) && (c in a ==> a[c] == b[c])
  }

  // Contexts that agree on the columns an expression mentions give the same result or the same error.
  lemma {:induction false} DependsOnFreeColumns(like: LikeFn, e: Expr, a: Context, b: Context)
    requires SameOn(FreeColumns(e), a, b)
    ensures Evaluate(like, e, a) == Evaluate(like, e, b)
  {
    hide Apply, CompareValues, Utf8;
    match e
    case Binary(l, _, r) =>
      DependsOnFreeColumns(like, l, a, b);
      DependsOnFreeColumns(like, r, a, b);
    case Unary(_, x) => DependsOnFreeColumns(like, x, a, b);
    case IsNull(x) => DependsOnFreeColumns(like, x, a, b);
    case IsNotNull(x) => DependsOnFreeColumns(like, x, a, b);
    case Between(x, l, h) =>
      DependsOnFreeColumns(like, x, a, b);
      DependsOnFreeColumns(like, l, a, b);
      DependsOnFreeColumns(like, h, a, b);
    case Literal(_) =>
    case ColumnRef(_) =>
    case FunctionCall(_, _) =>
    case InList(_, _) =>
  }

  // Nothing is short-circuited, so a column that is not there is always an error.
  lemma {:induction false} MissingColumnFails(like: LikeFn, e: Expr, ctx: Context, c: Name)
    requires c in FreeColumns(e) && c !in ctx
    ensures Evaluate(like, e, ctx).Err?
  {
    hide Apply, CompareValues, Utf8;
    match e
    case ColumnRef(_) =>
    case Binary(l, _, r) =>
      if c in FreeColumns(l) {
        MissingColumnFails(like, l, ctx, c);
      } else {
        MissingColumnFails(like, r, ctx, c);
      }
    case Unary(_, x) => MissingColumnFails(like, x, ctx, c);
    case IsNull(x) => MissingColumnFails(like, x, ctx, c);
    case IsNotNull(x) => MissingColumnFails(like, x, ctx, c);
    case Between(x, l, h) =>
      if c in FreeColumns(x) {
        MissingColumnFails(like, x, ctx, c);
      } else if c in FreeColumns(l) {
        MissingColumnFails(like, l, ctx, c);
      } else {
        MissingColumnFails(like, h, ctx, c);
      }
  }

  // ---------------------------------------------------------------------------
  // Types
  // ---------------------------------------------------------------------------

  // Columns, literals, comparisons, AND, OR, NOT, IS [NOT] NULL and BETWEEN.
  predicate Simple(e: Expr) {
    match e
    case Literal(_) => true
    case ColumnRef(_) => true
    case Binary(l, op, r) => op !in {Add, Sub, Mul, Div, Like} && Simple(l) && Simple(r)
    case Unary(op, x) => op == Not && Simple(x)
    case IsNull(x) => Simple(x)
    case IsNotNull(x) => Simple(x)
    case Between(x, l, h) => Simple(x) && Simple(l) && Simple(h)
    case FunctionCall(_, _) => false
    case InList(_, _) => false
  }

  type Types = map<Name, DataType>

  // What is known of a value before it is computed: it is NULL, or NULL or of a type.
  datatype StaticType = Nothing | Maybe(of: DataType)

  function Comparison(a: StaticType, b: StaticType): Option<StaticType> {
    if a == Nothing || b == Nothing then Some(Nothing)
    else if a == b then Some(Maybe(BooleanType))
    else None
  }

  // The static type of an expression, if it is well typed.
  function Check(types: Types, e: Expr): Option<StaticType>
    requires Simple(e)
  {
    match e
    case Literal(v) => Some(if v.Null? then Nothing else Maybe(TypeOf(v).value))
    case ColumnRef(c) => if c in types then Some(Maybe(types[c])) else None
    case Binary(l, op, r) =>
      var a, b := Check(types, l), Check(types, r);
      if a.None? || b.None? then None
      else if op in {Lt, LtEq, Gt, GtEq} then Comparison(a.value, b.value)
      else Some(Maybe(BooleanType))
    case Unary(_, x) => if Check(types, x).None? then None else Some(Maybe(BooleanType))
    case IsNull(x) => if Check(types, x).None? then None else Some(Maybe(BooleanType))
    case IsNotNull(x) => if Check(types, x).None? then None else Some(Maybe(BooleanType))
    case Between(x, l, h) =>
      var a, low, high := Check(types, x), Check(types, l), Check(types, h);
      if a.None? || low.None? || high.None? then None
      else if Comparison(a.value, low.value).None? || Comparison(a.value, high.value).None? then None
      else Some(Maybe(BooleanType))
  }

  predicate Fits(v: Value, t: StaticType) {
    v.Null? || (t.Maybe? && TypeOf(v) == Some(t.of))
  }

  // A context with a value of the right type, or NULL, for every column.
  ghost predicate Matches(types: Types, ctx: Context) {
    forall c :: c in types ==> c in ctx && Fits(ctx[c], Maybe(types[c]))
  }

  lemma {:induction false} ComparisonOutcome(op: BinaryOp, a: Value, b: Value)
    requires op in {Lt, LtEq, Gt, GtEq}
    ensures var r := CompareValues(op, a, b);
            if a.Null? || b.Null? then r == Ok(Null)
            else if TypeOf(a) == TypeOf(b) then r.Ok? && r.value.Boolean?
            else r == Err(TypeError)
  {
  }

  // Both comparisons of BETWEEN, and any one comparison.
  lemma {:induction false} Outcomes(op: BinaryOp, v: Result<Value>, low: Result<Value>, high: Result<Value>)
    requires op in {Lt, LtEq, Gt, GtEq}
    ensures v.Ok? && low.Ok? ==>
              var r := CompareValues(op, v.value, low.value);
              if v.value.Null? || low.value.Null? then r == Ok(Null)
              else if TypeOf(v.value) == TypeOf(low.value) then r.Ok? && r.value.Boolean?
              else r == Err(TypeError)
    ensures v.Ok? && high.Ok? ==>
              var r := CompareValues(LtEq, v.value, high.value);
              if v.value.Null? || high.value.Null? then r == Ok(Null)
              else if TypeOf(v.value) == TypeOf(high.value) then r.Ok? && r.value.Boolean?
              else r == Err(TypeError)
  {
    hide CompareValues;
    if v.Ok? && low.Ok? {
      ComparisonOutcome(op, v.value, low.value);
    }
    if v.Ok? && high.Ok? {
      ComparisonOutcome(LtEq, v.value, high.value);
    }
  }

  // A well-typed expression never fails, and its value fits its type.
  lemma {:induction false} WellTypedEvaluates(like: LikeFn, types: Types, e: Expr, ctx: Context)
    requires Simple(e) && Check(types, e).Some? && Matches(types, ctx)
    ensures Evaluate(like, e, ctx).Ok? && Fits(Evaluate(like, e, ctx).value, Check(types, e).value)
  {
    hide CompareValues, Utf8;
    match e
    case Binary(l, op, r) =>
      WellTypedEvaluates(like, types, l, ctx);
      WellTypedEvaluates(like, types, r, ctx);
      if op in {Lt, LtEq, Gt, GtEq} {
        Outcomes(op, Evaluate(like, l, ctx), Evaluate(like, r, ctx), Evaluate(like, r, ctx));
      }
    case Unary(_, x) => WellTypedEvaluates(like, types, x, ctx);
    case IsNull(x) => WellTypedEvaluates(like, types, x, ctx);
    case IsNotNull(x) => WellTypedEvaluates(like, types, x, ctx);
    case Between(x, l, h) =>
      WellTypedEvaluates(like, types, x, ctx);
      WellTypedEvaluates(like, types, l, ctx);
      WellTypedEvaluates(like, types, h, ctx);
      Outcomes(GtEq, Evaluate(like, x, ctx), Evaluate(like, l, ctx), Evaluate(like, h, ctx));
    case Literal(_) =>
    case ColumnRef(_) =>
  }

  function Witness(t: DataType): (v: Value)
    ensures TypeOf(v) == Some(t)
  {
    match t
    case IntegerType => Integer(0)
    case TextType => Text([])
    case BooleanType => Boolean(false)
  }

  // A context without a NULL in it.
  function FullContext(types: Types): (ctx: Context)
    ensures Matches(types, ctx)
    ensures forall c :: c in ctx <==> c in types
    ensures forall c :: c in ctx ==> TypeOf(ctx[c]) == Some(types[c])
  {
    map c | c in types :: Witness(types[c])
  }

  // In a context without NULLs the static type is exact, and whatever is not well typed fails.
  lemma {:induction false} IllTypedFails(like: LikeFn, types: Types, e: Expr)
    requires Simple(e)
    ensures var v := Evaluate(like, e, FullContext(types));
            match Check(types, e)
            case None => v.Err?
            case Some(Nothing) => v == Ok(Null)
            case Some(Maybe(t)) => v.Ok? && TypeOf(v.value) == Some(t)
  {
    hide CompareValues, Utf8, FullContext;
    var ctx := FullContext(types);
    match e
    case Binary(l, op, r) =>
      IllTypedFails(like, types, l);
      IllTypedFails(like, types, r);
      if op in {Lt, LtEq, Gt, GtEq} {
        Outcomes(op, Evaluate(like, l, ctx), Evaluate(like, r, ctx), Evaluate(like, r, ctx));
      }
    case Unary(_, x) => IllTypedFails(like, types, x);
    case IsNull(x) => IllTypedFails(like, types, x);
    case IsNotNull(x) => IllTypedFails(like, types, x);
    case Between(x, l, h) =>
      IllTypedFails(like, types, x);
      IllTypedFails(like, types, l);
      IllTypedFails(like, types, h);
      Outcomes(GtEq, Evaluate(like, x, ctx), Evaluate(like, l, ctx), Evaluate(like, h, ctx));
    case Literal(_) =>
    case ColumnRef(_) =>
  }

  // The typing rules are exact: an expression is well typed if and only if it evaluates without an
  // error in every context of its types, NULLs included.  (Contexts hold no other columns.)
  lemma {:induction false} TypingIsExact(like: LikeFn, types: Types, e: Expr)
    requires Simple(e)
    ensures Check(types, e).Some? <==>
            forall ctx :: Matches(types, ctx) && ctx.Keys == types.Keys ==> Evaluate(like, e, ctx).Ok?
  {
    hide Evaluate, Check, Simple;
    if Check(types, e).Some? {
      forall ctx | Matches(types, ctx)
        ensures Evaluate(like, e, ctx).Ok?
      {
        WellTypedEvaluates(like, types, e, ctx);
      }
    } else {
      IllTypedFails(like, types, e);
      assert FullContext(types).Keys == types.Keys;
    }
  }
}
