/** Expressions reduced to what equality looks at, and to what copying keeps. */
module Forms {
  import opened Expressions
  import opened Options

  const ANY := Type(Boolean, 0, 0, false)

  // ---------------------------------------------------------------- what equality looks at

  /** The expression without result types, qualifiers and second aggregate arguments, and without what
      a position or a NULL is labelled with. */
  function Stripped(e: Expr): Expr
    decreases e, 1
  {
    match e
    case ColumnVar(_, key, rte) => ColumnVar(ANY, key, rte)
    case Var(_, _, _, which, varno) => Var(ANY, ColumnKey(0, 0, 0), -1, which, varno)
    case Constant(ti, isNull, val) => Constant(ti, isNull, if isNull then Null else val)
    case UOper(_, op, x) => UOper(ANY, op, Stripped(x))
    case BinOper(_, op, _, x, y) => BinOper(ANY, op, 0, Stripped(x), Stripped(y))
    case InValues(x, vs) => InValues(Stripped(x), StrippedAll(vs))
    case CaseExpr(_, conds, results, otherwise) =>
      CaseExpr(ANY, StrippedAll(conds), StrippedAll(results),
               match otherwise case None => None case Some(x) => Some(Stripped(x)))
    case AggExpr(_, agg, arg, distinct, _) =>
      AggExpr(ANY, agg, match arg case None => None case Some(x) => Some(Stripped(x)), distinct, None)
    case DateTrunc(_, field, x) => DateTrunc(ANY, field, Stripped(x))
    case DateAdd(_, field, x, y) => DateAdd(ANY, field, Stripped(x), Stripped(y))
  }

  function StrippedAll(es: seq<Expr>): (r: seq<Expr>)
    ensures |r| == |es|
    decreases es, 0
  {
    if es == [] then [] else [Stripped(es[0])] + StrippedAll(es[1..])
  }

  /** Equality is identity of what it looks at. */
  lemma {:induction false} EqIff(a: Expr, b: Expr)
    requires All(Placed, a) && All(Placed, b)
    ensures Eq(a, b) <==> Stripped(a) == Stripped(b)
    decreases a, 1
  {
    match a
    case UOper(_, _, x) => if b.UOper? { EqIff(x, b.operand); }
    case BinOper(_, _, _, x, y) => if b.BinOper? { EqIff(x, b.left); EqIff(y, b.right); }
    case InValues(x, vs) => if b.InValues? { EqIff(x, b.arg); EqAllIff(vs, b.values); }
    case CaseExpr(_, conds, results, otherwise) =>
      if b.CaseExpr? {
        EqAllIff(conds, b.conds);
        EqAllIff(results, b.results);
        if otherwise.Some? && b.otherwise.Some? { EqIff(otherwise.value, b.otherwise.value); }
      }
    case AggExpr(_, _, arg, _, _) =>
      if b.AggExpr? && arg.Some? && b.aggArg.Some? { EqIff(arg.value, b.aggArg.value); }
    case DateTrunc(_, _, x) => if b.DateTrunc? { EqIff(x, b.from); }
    case DateAdd(_, _, x, y) => if b.DateAdd? { EqIff(x, b.number); EqIff(y, b.datetime); }
    case _ =>
  }

  lemma {:induction false} EqAllIff(xs: seq<Expr>, ys: seq<Expr>)
    requires AllOf(Placed, xs) && AllOf(Placed, ys)
    ensures EqAll(xs, ys) <==> StrippedAll(xs) == StrippedAll(ys)
    decreases xs, 0
  {
    if xs != [] && ys != [] {
      EqIff(xs[0], ys[0]);
      EqAllIff(xs[1..], ys[1..]);
      Headed(Stripped(xs[0]), StrippedAll(xs[1..]), Stripped(ys[0]), StrippedAll(ys[1..]));
    }
  }

  lemma Headed(x: Expr, xs: seq<Expr>, y: Expr, ys: seq<Expr>)
    ensures [x] + xs == [y] + ys <==> x == y && xs == ys
  {
    if [x] + xs == [y] + ys {
      assert x == ([x] + xs)[0] && y == ([y] + ys)[0] && xs == ([x] + xs)[1..] && ys == ([y] + ys)[1..];
    }
  }

  // ---------------------------------------------------------------- what copying keeps

  /** The expression with all constants visited by a copy made nullable. */
  function Loosened(e: Expr): Expr
    decreases e, 1
  {
    match e
    case ColumnVar(_, _, _) => e
    case Var(_, _, _, _, _) => e
    case Constant(ti, isNull, val) => Constant(ti.(notNull := false), isNull, val)
    case UOper(ti, op, x) => UOper(ti, op, Loosened(x))
    case BinOper(ti, op, q, x, y) => BinOper(ti, op, q, Loosened(x), Loosened(y))
    case InValues(x, vs) => InValues(Loosened(x), LoosenedAll(vs))
    case CaseExpr(ti, conds, results, otherwise) =>
      CaseExpr(ti, LoosenedAll(conds), LoosenedAll(results),
               match otherwise case None => None case Some(x) => Some(Loosened(x)))
    case AggExpr(ti, agg, arg, distinct, arg1) =>
      AggExpr(ti, agg, match arg case None => None case Some(x) => Some(Loosened(x)), distinct, arg1)
    case DateTrunc(ti, field, x) => DateTrunc(ti, field, Loosened(x))
    case DateAdd(ti, field, x, y) => DateAdd(ti, field, Loosened(x), Loosened(y))
  }

  function LoosenedAll(es: seq<Expr>): (r: seq<Expr>)
    ensures |r| == |es|
    decreases es, 0
  {
    if es == [] then [] else [Loosened(es[0])] + LoosenedAll(es[1..])
  }

  /** A copy differs from its original at most in the nullability of constants. */
  lemma {:induction false} CopyKeepsTheRest(e: Expr)
    ensures Loosened(DeepCopy(e)) == Loosened(e)
    decreases e, 1
  {
    match e
    case UOper(_, _, x) => CopyKeepsTheRest(x);
    case BinOper(_, _, _, x, y) => CopyKeepsTheRest(x); CopyKeepsTheRest(y);
    case InValues(x, vs) => CopyKeepsTheRest(x); CopyAllKeepsTheRest(vs);
    case CaseExpr(_, conds, results, otherwise) =>
      CopyAllKeepsTheRest(conds); CopyAllKeepsTheRest(results);
      if otherwise.Some? { CopyKeepsTheRest(otherwise.value); }
    case AggExpr(_, _, arg, _, _) => if arg.Some? { CopyKeepsTheRest(arg.value); }
    case DateTrunc(_, _, x) => CopyKeepsTheRest(x);
    case DateAdd(_, _, x, y) => CopyKeepsTheRest(x); CopyKeepsTheRest(y);
    case _ =>
  }

  lemma {:induction false} CopyAllKeepsTheRest(es: seq<Expr>)
    ensures LoosenedAll(DeepCopyAll(es)) == LoosenedAll(es)
    decreases es, 0
  {
    if es != [] {
      CopyKeepsTheRest(es[0]);
      CopyAllKeepsTheRest(es[1..]);
      assert DeepCopyAll(es)[1..] == DeepCopyAll(es[1..]);
    }
  }

  /** In a copy constants that are not null have a not-null type. */
  lemma {:induction false} CopyIsTight(e: Expr)
    ensures All(Tight, DeepCopy(e))
    decreases e, 1
  {
    match e
    case UOper(_, _, x) => CopyIsTight(x);
    case BinOper(_, _, _, x, y) => CopyIsTight(x); CopyIsTight(y);
    case InValues(x, vs) => CopyIsTight(x); CopyAllIsTight(vs);
    case CaseExpr(_, conds, results, otherwise) =>
      CopyAllIsTight(conds); CopyAllIsTight(results);
      if otherwise.Some? { CopyIsTight(otherwise.value); }
    case AggExpr(_, _, arg, _, _) => if arg.Some? { CopyIsTight(arg.value); }
    case DateTrunc(_, _, x) => CopyIsTight(x);
    case DateAdd(_, _, x, y) => CopyIsTight(x); CopyIsTight(y);
    case _ =>
  }

  lemma {:induction false} CopyAllIsTight(es: seq<Expr>)
    ensures AllOf(Tight, DeepCopyAll(es))
    decreases es, 0
  {
    if es != [] {
      CopyIsTight(es[0]);
      CopyAllIsTight(es[1..]);
      assert DeepCopyAll(es)[1..] == DeepCopyAll(es[1..]);
    }
  }
}
