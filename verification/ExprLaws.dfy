// What the operators of the evaluator compute, as laws about evaluation itself
// (executor/mod.rs:516-736, types.rs:26-33).
module ExprLaws {
  import opened Wrappers
  import opened Bytes
  import opened SqlValues
  import opened Exprs

  // A predicate lets a row pass.
  predicate Passes(like: LikeFn, e: Expr, ctx: Context) {
    EvaluateBoolean(like, e, ctx) == Ok(true)
  }

  predicate Evaluates(like: LikeFn, e: Expr, ctx: Context) {
    Evaluate(like, e, ctx).Ok?
  }

  function ValueOf(like: LikeFn, e: Expr, ctx: Context): Value
    requires Evaluates(like, e, ctx)
  {
    Evaluate(like, e, ctx).value
  }

  // Literals and columns stand for their values; a row passes on true, on a number other than zero
  // and on a text that is not empty, and never on NULL.
  lemma {:induction false} AtomsMean(like: LikeFn, v: Value, c: Name, ctx: Context)
    ensures Evaluate(like, Literal(v), ctx) == Ok(v)
    ensures c in ctx ==> Evaluate(like, ColumnRef(c), ctx) == Ok(ctx[c])
    ensures Passes(like, Literal(v), ctx) <==> v == Boolean(true) || (v.Integer? && v.i != 0) || (v.Text? && v.text != [])
  {
  }

  // = holds exactly between equal values, NULLs and different types included; != is its negation.
  lemma {:induction false} EqualityMeans(like: LikeFn, e: Expr, f: Expr, ctx: Context)
    requires Evaluates(like, e, ctx) && Evaluates(like, f, ctx)
    ensures Evaluate(like, Binary(e, Eq, f), ctx) == Ok(Boolean(true)) <==> ValueOf(like, e, ctx) == ValueOf(like, f, ctx)
    ensures Evaluate(like, Binary(e, Eq, f), ctx) == Ok(Boolean(false)) <==> ValueOf(like, e, ctx) != ValueOf(like, f, ctx)
    ensures Evaluate(like, Binary(e, Neq, f), ctx) == Evaluate(like, Unary(Not, Binary(e, Eq, f)), ctx)
  {
  }

  // AND, OR and NOT on what passes.
  lemma {:induction false} LogicMeans(like: LikeFn, e: Expr, f: Expr, ctx: Context)
    requires Evaluates(like, e, ctx) && Evaluates(like, f, ctx)
    ensures Passes(like, Binary(e, And, f), ctx) <==> Passes(like, e, ctx) && Passes(like, f, ctx)
    ensures Passes(like, Binary(e, Or, f), ctx) <==> Passes(like, e, ctx) || Passes(like, f, ctx)
    ensures Passes(like, Unary(Not, e), ctx) <==> !Passes(like, e, ctx)
  {
  }

  // De Morgan's laws, errors included.
  lemma {:induction false} DeMorgan(like: LikeFn, e: Expr, f: Expr, ctx: Context)
    ensures Evaluate(like, Unary(Not, Binary(e, And, f)), ctx) == Evaluate(like, Binary(Unary(Not, e), Or, Unary(Not, f)), ctx)
    ensures Evaluate(like, Unary(Not, Binary(e, Or, f)), ctx) == Evaluate(like, Binary(Unary(Not, e), And, Unary(Not, f)), ctx)
  {
    hide Apply;
    NotAndOr(like, e, f, ctx);
  }

  lemma {:induction false} NotAndOr(like: LikeFn, e: Expr, f: Expr, ctx: Context)
    ensures Evaluates(like, e, ctx) && Evaluates(like, f, ctx) ==>
              && Evaluate(like, Unary(Not, Binary(e, And, f)), ctx) == Evaluate(like, Binary(Unary(Not, e), Or, Unary(Not, f)), ctx)
              && Evaluate(like, Unary(Not, Binary(e, Or, f)), ctx) == Evaluate(like, Binary(Unary(Not, e), And, Unary(Not, f)), ctx)
  {
  }

  predicate Compares(op: BinaryOp) {
    op in {Lt, LtEq, Gt, GtEq}
  }

  // Which of the three outcomes of a comparison an operator accepts.
  predicate Accepts(op: BinaryOp, below: bool, above: bool)
    requires Compares(op)
  {
    match op
    case Lt => below
    case LtEq => !above
    case Gt => above
    case GtEq => !below
  }

  // The four comparisons: of numbers, of texts byte by byte, and of truth values, false first.
  // NULL on either side gives NULL, and different types do not compare.
  lemma {:induction false} ComparisonMeans(like: LikeFn, e: Expr, op: BinaryOp, f: Expr, ctx: Context)
    requires Compares(op) && Evaluates(like, e, ctx) && Evaluates(like, f, ctx)
    ensures var r := Evaluate(like, Binary(e, op, f), ctx);
            match (ValueOf(like, e, ctx), ValueOf(like, f, ctx))
            case (Null, _) => r == Ok(Null)
            case (_, Null) => r == Ok(Null)
            case (Integer(x), Integer(y)) => r == Ok(Boolean(Accepts(op, x < y, y < x)))
            case (Text(s), Text(t)) => r == Ok(Boolean(Accepts(op, Less(s, t), Less(t, s))))
            case (Boolean(p), Boolean(q)) => r == Ok(Boolean(Accepts(op, !p && q, p && !q)))
            case (_, _) => r == Err(TypeError)
  {
    hide CompareValues, Accepts, Less, Utf8;
    var v, w := ValueOf(like, e, ctx), ValueOf(like, f, ctx);
    assert Evaluate(like, Binary(e, op, f), ctx) == CompareValues(op, v, w);
    ValuesCompare(op, v, w);
  }

  lemma {:induction false} ValuesCompare(op: BinaryOp, v: Value, w: Value)
    requires Compares(op)
    ensures var r := CompareValues(op, v, w);
            match (v, w)
            case (Null, _) => r == Ok(Null)
            case (_, Null) => r == Ok(Null)
            case (Integer(x), Integer(y)) => r == Ok(Boolean(Accepts(op, x < y, y < x)))
            case (Text(s), Text(t)) => r == Ok(Boolean(Accepts(op, Less(s, t), Less(t, s))))
            case (Boolean(p), Boolean(q)) => r == Ok(Boolean(Accepts(op, !p && q, p && !q)))
            case (_, _) => r == Err(TypeError)
  {
    hide Less, Utf8;
    if v.Text? && w.Text? {
      LessIsTotalOrder(v.text, w.text, v.text);
      LessIsTotalOrder(v.text, v.text, v.text);
    }
  }

  // So a row never passes a comparison with NULL.
  lemma {:induction false} NullNeverPasses(like: LikeFn, e: Expr, op: BinaryOp, f: Expr, ctx: Context)
    requires Compares(op) && Evaluates(like, e, ctx) && Evaluates(like, f, ctx)
    requires ValueOf(like, e, ctx) == Null || ValueOf(like, f, ctx) == Null
    ensures !Passes(like, Binary(e, op, f), ctx)
  {
    hide Less, Compare;
    ComparisonMeans(like, e, op, f, ctx);
  }

  // BETWEEN is the conjunction of its two comparisons: it fails where one of them fails, and is
  // otherwise their AND.
  lemma {:induction false} BetweenMeans(like: LikeFn, e: Expr, low: Expr, high: Expr, ctx: Context)
    ensures var both := Binary(Binary(e, GtEq, low), And, Binary(e, LtEq, high));
            && Evaluates(like, Between(e, low, high), ctx) == Evaluates(like, both, ctx)
            && (Evaluates(like, both, ctx) ==> Evaluate(like, Between(e, low, high), ctx) == Evaluate(like, both, ctx))
  {
    hide CompareValues;
    var ge, le := Evaluate(like, Binary(e, GtEq, low), ctx), Evaluate(like, Binary(e, LtEq, high), ctx);
    var a, b, c := Evaluate(like, e, ctx), Evaluate(like, low, ctx), Evaluate(like, high, ctx);
    assert a.Ok? && b.Ok? ==> ge == CompareValues(GtEq, a.value, b.value);
    assert a.Ok? && c.Ok? ==> le == CompareValues(LtEq, a.value, c.value);
    assert a.Err? || b.Err? ==> ge.Err?;
    assert a.Err? || c.Err? ==> le.Err?;
  }

  // IS NULL holds of NULL and of nothing else; IS NOT NULL is its negation.
  lemma {:induction false} NullTestsMean(like: LikeFn, e: Expr, ctx: Context)
    requires Evaluates(like, e, ctx)
    ensures Evaluate(like, IsNull(e), ctx) == Ok(Boolean(ValueOf(like, e, ctx) == Null))
    ensures Evaluate(like, IsNotNull(e), ctx) == Evaluate(like, Unary(Not, IsNull(e)), ctx)
  {
  }

  // ---------------------------------------------------------------------------
  // Arithmetic
  // ---------------------------------------------------------------------------

  function Exactly(op: BinaryOp, x: int, y: int): int
    requires op in {Add, Sub, Mul}
  {
    match op
    case Add => x + y
    case Sub => x - y
    case Mul => x * y
  }

  predicate IsI64(n: int) {
    -TWO_63 <= n < TWO_63
  }

  // Sums, differences and products of numbers are exact whenever they fit, and off by a multiple of
  // 2^64 otherwise; anything but two numbers is an error.
  lemma {:induction false} ArithmeticMeans(like: LikeFn, e: Expr, op: BinaryOp, f: Expr, ctx: Context)
    requires op in {Add, Sub, Mul} && Evaluates(like, e, ctx) && Evaluates(like, f, ctx)
    ensures var r, v, w := Evaluate(like, Binary(e, op, f), ctx), ValueOf(like, e, ctx), ValueOf(like, f, ctx);
            if !(v.Integer? && w.Integer?) then r == Err(TypeError)
            else
              var n := Exactly(op, v.i, w.i);
              && r.Ok? && r.value.Integer? && (r.value.i - n) % TWO_64 == 0
              && (IsI64(n) ==> r == Ok(Integer(n)))
  {
    hide Wrap;
    var v, w := ValueOf(like, e, ctx), ValueOf(like, f, ctx);
    if v.Integer? && w.Integer? {
      WrapIs(Exactly(op, v.i, w.i));
    }
  }

  lemma {:induction false} WrapIs(n: int)
    ensures (Wrap(n) - n) % TWO_64 == 0
    ensures IsI64(n) ==> Wrap(n) == n
  {
  }

  // Division truncates toward zero: the remainder is smaller than the divisor and has the sign of
  // the dividend.  A zero divisor is an error, and so is the one quotient that does not fit.
  lemma {:induction false} DivisionMeans(like: LikeFn, e: Expr, f: Expr, ctx: Context)
    requires Evaluates(like, e, ctx) && Evaluates(like, f, ctx)
    ensures var r, v, w := Evaluate(like, Binary(e, Div, f), ctx), ValueOf(like, e, ctx), ValueOf(like, f, ctx);
            if !(v.Integer? && w.Integer?) then r == Err(TypeError)
            else if w.i == 0 || (v.i == -TWO_63 && w.i == -1) then r == Err(InternalError)
            else
              && r.Ok? && r.value.Integer?
              && var rest := v.i - r.value.i * w.i;
                 Abs(rest) < Abs(w.i) && (rest != 0 ==> (rest < 0 <==> v.i < 0))
  {
    hide Divide;
    var v, w := ValueOf(like, e, ctx), ValueOf(like, f, ctx);
    if v.Integer? && w.Integer? {
      Truncates(v.i, w.i);
    }
  }

  lemma {:induction false} Truncates(a: i64, b: i64)
    ensures var r := Divide(a, b);
            if b == 0 || (a == -TWO_63 && b == -1) then r == Err(InternalError)
            else
              && r.Ok?
              && var rest := a - r.value * b;
                 Abs(rest) < Abs(b) && (rest != 0 ==> (rest < 0 <==> a < 0))
  {
    hide Divide, Wrap, Abs;
    DivideIs(a, b);
    if b != 0 && !(a == -TWO_63 && b == -1) {
      var q: int := Abs(a) / Abs(b);
      FittingQuotient(a, b);
      WrapIs(q);
      WrapIs(-q);
      SignedQuotient(a, b, q);
    }
  }

  lemma {:induction false} DivideIs(a: i64, b: i64)
    ensures b == 0 || (a == -TWO_63 && b == -1) ==> Divide(a, b) == Err(InternalError)
    ensures b != 0 && !(a == -TWO_63 && b == -1) ==>
              Abs(b) != 0
              && var q: int := Abs(a) / Abs(b);
                 Divide(a, b) == Ok(Wrap(if (a < 0) == (b < 0) then q else -q))
  {
    hide Wrap;
  }

  lemma {:induction false} FittingQuotient(a: i64, b: i64)
    requires b != 0 && !(a == -TWO_63 && b == -1)
    ensures Abs(b) != 0 && var q: int := Abs(a) / Abs(b);
            IsI64(if (a < 0) == (b < 0) then q else -q)
  {
    QuotientFits(Abs(a), Abs(b));
  }

  lemma {:induction false} SignedQuotient(a: int, b: int, q: int)
    requires b != 0 && q == Abs(a) / Abs(b)
    ensures var rest := a - (if (a < 0) == (b < 0) then q else -q) * b;
            Abs(rest) < Abs(b) && (rest != 0 ==> (rest < 0 <==> a < 0))
  {
    var m: int, n: int := Abs(a), Abs(b);
    assert m == q * n + m % n;
    assert (-q) * (-n) == q * n && (-q) * n == -(q * n) && q * (-n) == -(q * n);
  }

  // The quotient of two magnitudes is at most the dividend, and half of it from a divisor of 2 on.
  lemma {:induction false} QuotientFits(m: nat, n: nat)
    requires 0 < n
    ensures m / n <= m && (1 < n ==> 2 * (m / n) <= m) && (n == 1 ==> m / n == m)
  {
    var q := m / n;
    assert m == q * n + m % n;
    if n > 1 {
      AtLeastTwice(q, n);
    }
  }

  lemma {:induction false} AtLeastTwice(q: nat, n: nat)
    requires 2 <= n
    ensures 2 * q <= q * n
  {
    assert q * n == q * (n - 2) + q * 2;
    assert 0 <= q * (n - 2);
  }

  lemma {:induction false} NegationMeans(like: LikeFn, e: Expr, ctx: Context)
    ensures Evaluate(like, Unary(Neg, e), ctx) == Evaluate(like, Binary(Literal(Integer(0)), Sub, e), ctx)
  {
  }

  // LIKE hands the text and the pattern on in this order.
  lemma {:induction false} LikeMeans(like: LikeFn, e: Expr, f: Expr, ctx: Context)
    requires Evaluates(like, e, ctx) && Evaluates(like, f, ctx)
    ensures var r, v, w := Evaluate(like, Binary(e, Like, f), ctx), ValueOf(like, e, ctx), ValueOf(like, f, ctx);
            if !(v.Text? && w.Text?) then r == Err(TypeError)
            else match like(v.text, w.text)
              case Ok(matched) => r == Ok(Boolean(matched))
              case Err(error) => r == Err(error)
  {
  }

  // The first operand that fails decides the error.
  lemma {:induction false} ErrorsPropagate(like: LikeFn, e: Expr, op: BinaryOp, f: Expr, ctx: Context)
    ensures Evaluate(like, e, ctx).Err? ==> Evaluate(like, Binary(e, op, f), ctx) == Evaluate(like, e, ctx)
    ensures Evaluate(like, e, ctx).Ok? && Evaluate(like, f, ctx).Err? ==>
              Evaluate(like, Binary(e, op, f), ctx) == Evaluate(like, f, ctx)
  {
    hide Apply;
  }
}
