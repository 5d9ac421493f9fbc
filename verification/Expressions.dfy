/** The scalar expressions of parse trees and plans, what they evaluate to, when the analyzer
    calls two of them equal, and how it copies them. */
module Expressions {
  import opened Options

  datatype Type = Type(base: Base, dimension: int, scale: int, notNull: bool)

  datatype Base =
    Boolean | TinyInt | SmallInt | Int | BigInt | Numeric | Decimal | Float | Double | Text | Date | Timestamp

  datatype Value = Null | Bool(b: bool) | Num(n: int) | Str(s: string) | Array(elems: seq<Value>)

  datatype ColumnKey = ColumnKey(db: int, table: int, column: int)

  datatype WhichRow = InputOuter | InputInner | Output | GroupBy

  datatype UnaryOp = Not | IsNull | Cast | OtherUnary(code: nat)

  datatype BinaryOp = And | Or | OtherBinary(code: nat)

  datatype Expr =
    | ColumnVar(ti: Type, key: ColumnKey, rte: int)
    | Var(ti: Type, key: ColumnKey, rte: int, which: WhichRow, varno: int)
    | Constant(ti: Type, isNull: bool, val: Value)
    | UOper(ti: Type, uop: UnaryOp, operand: Expr)
    | BinOper(ti: Type, bop: BinaryOp, qualifier: nat, left: Expr, right: Expr)
    | InValues(arg: Expr, values: seq<Expr>)
    | CaseExpr(ti: Type, conds: seq<Expr>, results: seq<Expr>, otherwise: Option<Expr>)
    | AggExpr(ti: Type, agg: nat, aggArg: Option<Expr>, distinct: bool, arg1: Option<Expr>)
    | DateTrunc(ti: Type, field: nat, from: Expr)
    | DateAdd(ti: Type, field: nat, number: Expr, datetime: Expr)

  // ---------------------------------------------------------------- three-valued logic

  datatype Truth = False | Unknown | True

  function TruthOf(v: Value): Truth {
    match v
    case Bool(b) => if b then True else False
    case _ => Unknown
  }

  function FromTruth(t: Truth): Value {
    match t
    case True => Bool(true)
    case False => Bool(false)
    case Unknown => Null
  }

  function And3(a: Truth, b: Truth): Truth {
    if a.False? || b.False? then False else if a.True? && b.True? then True else Unknown
  }

  function Or3(a: Truth, b: Truth): Truth {
    if a.True? || b.True? then True else if a.False? && b.False? then False else Unknown
  }

  function Not3(a: Truth): Truth {
    match a case True => False case False => True case Unknown => Unknown
  }

  // ---------------------------------------------------------------- evaluation

  /** Any meaning of the operators the analyzer does not look into. */
  datatype Interp = Interp(
    unary: (nat, Value) -> Value,
    cast: (Type, Value) -> Value,
    binary: (nat, Value, Value) -> Value,
    equal: (Value, Value) -> bool,
    aggregate: (nat, bool, Value, nat, seq<Value>) -> Value,
    trunc: (nat, Value) -> Value,
    add: (nat, Value, Value) -> Value)

  /** What a row offers: base columns by range-table entry and key, and the rows made by plans. */
  datatype Row = Row(base: (int, ColumnKey) -> Value,
                     outer: seq<Value>, inner: seq<Value>, output: seq<Value>, groupBy: seq<Value>)

  function Position(r: Row, which: WhichRow, varno: int): Value {
    var vs := match which
      case InputOuter => r.outer
      case InputInner => r.inner
      case Output => r.output
      case GroupBy => r.groupBy;
    if 1 <= varno <= |vs| then vs[varno - 1] else Null
  }

  /** The value of e on a row; aggregates range over the rows of its group. */
  function Eval(i: Interp, e: Expr, r: Row, group: seq<Row>): Value
    decreases e, 1
  {
    match e
    case ColumnVar(_, key, rte) => r.base(rte, key)
    case Var(_, _, _, which, varno) => Position(r, which, varno)
    case Constant(_, isNull, val) => if isNull then Null else val
    case UOper(ti, op, x) =>
      var v := Eval(i, x, r, group);
      (match op
       case Not => FromTruth(Not3(TruthOf(v)))
       case IsNull => Bool(v.Null?)
       case Cast => i.cast(ti, v)
       case OtherUnary(c) => i.unary(c, v))
    case BinOper(_, op, _, x, y) =>
      var v, w := Eval(i, x, r, group), Eval(i, y, r, group);
      (match op
       case And => FromTruth(And3(TruthOf(v), TruthOf(w)))
       case Or => FromTruth(Or3(TruthOf(v), TruthOf(w)))
       case OtherBinary(c) => i.binary(c, v, w))
    case InValues(x, vs) => FromTruth(IsIn(i, Eval(i, x, r, group), EvalAll(i, vs, r, group)))
    case CaseExpr(_, conds, results, otherwise) =>
      FirstTrue(EvalAll(i, conds, r, group), EvalAll(i, results, r, group),
                match otherwise case Some(x) => Eval(i, x, r, group) case None => Null)
    case AggExpr(_, agg, x, distinct, x1) =>
      var v1 := match x1 case Some(y) => Eval(i, y, r, group) case None => Null;
      var vs := match x
        case Some(y) => EvalRows(i, y, group, group)
        case None => [];
      i.aggregate(agg, distinct, v1, |group|, vs)
    case DateTrunc(_, field, x) => i.trunc(field, Eval(i, x, r, group))
    case DateAdd(_, field, x, y) => i.add(field, Eval(i, x, r, group), Eval(i, y, r, group))
  }

  function EvalAll(i: Interp, es: seq<Expr>, r: Row, group: seq<Row>): (vs: seq<Value>)
    ensures |vs| == |es| && forall k | 0 <= k < |es| :: vs[k] == Eval(i, es[k], r, group)
    decreases es, 0
  {
    if es == [] then [] else [Eval(i, es[0], r, group)] + EvalAll(i, es[1..], r, group)
  }

  /** e on each of the rows. */
  function EvalRows(i: Interp, e: Expr, rows: seq<Row>, group: seq<Row>): (vs: seq<Value>)
    ensures |vs| == |rows| && forall k | 0 <= k < |rows| :: vs[k] == Eval(i, e, rows[k], group)
    decreases e, 2, |rows|
  {
    if rows == [] then [] else [Eval(i, e, rows[0], group)] + EvalRows(i, e, rows[1..], group)
  }

  /** The result of the first arm whose condition is true, or the default. */
  function FirstTrue(conds: seq<Value>, results: seq<Value>, default: Value): Value {
    if conds == [] || results == [] then default
    else if TruthOf(conds[0]).True? then results[0]
    else FirstTrue(conds[1..], results[1..], default)
  }

  /** v IN (vs) is the disjunction of the comparisons. */
  function IsIn(i: Interp, v: Value, vs: seq<Value>): Truth {
    if vs == [] then False
    else
      var here := if v.Null? || vs[0].Null? then Unknown else if i.equal(v, vs[0]) then True else False;
      Or3(here, IsIn(i, v, vs[1..]))
  }

  // ---------------------------------------------------------------- equality

  /** The analyzer's operator==. It ignores the target of a cast, the second argument of an
      aggregate, qualifiers and result types. */
  predicate Eq(a: Expr, b: Expr)
    decreases a, 1
  {
    match a
    case ColumnVar(_, key, rte) => (b.ColumnVar? || b.Var?) && rte != -1 && key == b.key && rte == b.rte
    case Var(_, key, rte, which, varno) =>
      if rte != -1 then (b.ColumnVar? || b.Var?) && key == b.key && rte == b.rte
      else b.Var? && which == b.which && varno == b.varno
    case Constant(ti, isNull, val) =>
      b.Constant? && ti == b.ti && isNull == b.isNull && (isNull || val == b.val)
    case UOper(_, op, x) => b.UOper? && op == b.uop && Eq(x, b.operand)
    case BinOper(_, op, _, x, y) => b.BinOper? && op == b.bop && Eq(x, b.left) && Eq(y, b.right)
    case InValues(x, vs) => b.InValues? && Eq(x, b.arg) && EqAll(vs, b.values)
    case CaseExpr(_, conds, results, otherwise) =>
      && b.CaseExpr? && EqAll(conds, b.conds) && EqAll(results, b.results)
      && (match otherwise case None => b.otherwise.None? case Some(x) => b.otherwise.Some? && Eq(x, b.otherwise.value))
    case AggExpr(_, agg, arg, distinct, _) =>
      && b.AggExpr? && agg == b.agg && distinct == b.distinct
      && (match arg case None => b.aggArg.None? case Some(x) => b.aggArg.Some? && Eq(x, b.aggArg.value))
    case DateTrunc(_, field, x) => b.DateTrunc? && field == b.field && Eq(x, b.from)
    case DateAdd(_, field, x, y) => b.DateAdd? && field == b.field && Eq(x, b.number) && Eq(y, b.datetime)
  }

  predicate EqAll(xs: seq<Expr>, ys: seq<Expr>)
    decreases xs, 0
  {
    if xs == [] then ys == [] else ys != [] && Eq(xs[0], ys[0]) && EqAll(xs[1..], ys[1..])
  }

  // ---------------------------------------------------------------- deep copy

  /** A copied constant that is not NULL gets a NOT NULL type; everything else is copied as is. */
  function DeepCopy(e: Expr): Expr
    decreases e, 1
  {
    match e
    case ColumnVar(_, _, _) => e
    case Var(_, _, _, _, _) => e
    case Constant(ti, isNull, val) => Constant(if isNull then ti else ti.(notNull := true), isNull, val)
    case UOper(ti, op, x) => UOper(ti, op, DeepCopy(x))
    case BinOper(ti, op, q, x, y) => BinOper(ti, op, q, DeepCopy(x), DeepCopy(y))
    case InValues(x, vs) => InValues(DeepCopy(x), DeepCopyAll(vs))
    case CaseExpr(ti, conds, results, otherwise) =>
      CaseExpr(ti, DeepCopyAll(conds), DeepCopyAll(results),
               match otherwise case None => None case Some(x) => Some(DeepCopy(x)))
    case AggExpr(ti, agg, arg, distinct, arg1) =>
      AggExpr(ti, agg, match arg case None => None case Some(x) => Some(DeepCopy(x)), distinct, arg1)
    case DateTrunc(ti, field, x) => DateTrunc(ti, field, DeepCopy(x))
    case DateAdd(ti, field, x, y) => DateAdd(ti, field, DeepCopy(x), DeepCopy(y))
  }

  function DeepCopyAll(es: seq<Expr>): (r: seq<Expr>)
    ensures |r| == |es|
    decreases es, 0
  {
    if es == [] then [] else [DeepCopy(es[0])] + DeepCopyAll(es[1..])
  }

  // ---------------------------------------------------------------- properties of all subexpressions

  /** p holds of every node of e, the values of IN lists included and the second arguments of
      aggregates not. */
  predicate All(p: Expr -> bool, e: Expr)
    decreases e, 1
  {
    p(e) &&
    match e
    case ColumnVar(_, _, _) => true
    case Var(_, _, _, _, _) => true
    case Constant(_, _, _) => true
    case UOper(_, _, x) => All(p, x)
    case BinOper(_, _, _, x, y) => All(p, x) && All(p, y)
    case InValues(x, vs) => All(p, x) && AllOf(p, vs)
    case CaseExpr(_, conds, results, otherwise) =>
      AllOf(p, conds) && AllOf(p, results) && (match otherwise case None => true case Some(x) => All(p, x))
    case AggExpr(_, _, arg, _, _) => (match arg case None => true case Some(x) => All(p, x))
    case DateTrunc(_, _, x) => All(p, x)
    case DateAdd(_, _, x, y) => All(p, x) && All(p, y)
  }

  predicate AllOf(p: Expr -> bool, es: seq<Expr>)
    decreases es, 0
  {
    es == [] || (All(p, es[0]) && AllOf(p, es[1..]))
  }

  // ---------------------------------------------------------------- equality is an equivalence

  /** Plain columns name a range-table entry, positional variables do not. */
  predicate Placed(e: Expr) {
    (e.ColumnVar? ==> e.rte != -1) && (e.Var? ==> e.rte == -1)
  }

  lemma {:induction false} EqReflexive(a: Expr)
    requires All(Placed, a)
    ensures Eq(a, a)
    decreases a, 1
  {
    match a
    case UOper(_, _, x) => EqReflexive(x);
    case BinOper(_, _, _, x, y) => EqReflexive(x); EqReflexive(y);
    case InValues(x, vs) => EqReflexive(x); EqAllReflexive(vs);
    case CaseExpr(_, conds, results, otherwise) =>
      EqAllReflexive(conds); EqAllReflexive(results);
      if otherwise.Some? { EqReflexive(otherwise.value); }
    case AggExpr(_, _, arg, _, _) => if arg.Some? { EqReflexive(arg.value); }
    case DateTrunc(_, _, x) => EqReflexive(x);
    case DateAdd(_, _, x, y) => EqReflexive(x); EqReflexive(y);
    case _ =>
  }

  lemma {:induction false} EqAllReflexive(xs: seq<Expr>)
    requires AllOf(Placed, xs)
    ensures EqAll(xs, xs)
    decreases xs, 0
  {
    if xs != [] { EqReflexive(xs[0]); EqAllReflexive(xs[1..]); }
  }

  lemma {:induction false} EqSymmetric(a: Expr, b: Expr)
    requires All(Placed, a) && All(Placed, b)
    ensures Eq(a, b) ==> Eq(b, a)
    decreases a, 1
  {
    if Eq(a, b) {
      match a
      case UOper(_, _, x) => EqSymmetric(x, b.operand);
      case BinOper(_, _, _, x, y) => EqSymmetric(x, b.left); EqSymmetric(y, b.right);
      case InValues(x, vs) => EqSymmetric(x, b.arg); EqAllSymmetric(vs, b.values);
      case CaseExpr(_, conds, results, otherwise) =>
        EqAllSymmetric(conds, b.conds); EqAllSymmetric(results, b.results);
        if otherwise.Some? { EqSymmetric(otherwise.value, b.otherwise.value); }
      case AggExpr(_, _, arg, _, _) => if arg.Some? { EqSymmetric(arg.value, b.aggArg.value); }
      case DateTrunc(_, _, x) => EqSymmetric(x, b.from);
      case DateAdd(_, _, x, y) => EqSymmetric(x, b.number); EqSymmetric(y, b.datetime);
      case _ =>
    }
  }

  lemma {:induction false} EqAllSymmetric(xs: seq<Expr>, ys: seq<Expr>)
    requires AllOf(Placed, xs) && AllOf(Placed, ys)
    ensures EqAll(xs, ys) ==> EqAll(ys, xs)
    decreases xs, 0
  {
    if xs != [] && ys != [] { EqSymmetric(xs[0], ys[0]); EqAllSymmetric(xs[1..], ys[1..]); }
  }

  lemma {:induction false} EqTransitive(a: Expr, b: Expr, c: Expr)
    requires All(Placed, a) && All(Placed, b) && All(Placed, c) && Eq(a, b) && Eq(b, c)
    ensures Eq(a, c)
    decreases a, 1
  {
    match a
    case UOper(_, _, x) => EqTransitive(x, b.operand, c.operand);
    case BinOper(_, _, _, x, y) => EqTransitive(x, b.left, c.left); EqTransitive(y, b.right, c.right);
    case InValues(x, vs) => EqTransitive(x, b.arg, c.arg); EqAllTransitive(vs, b.values, c.values);
    case CaseExpr(_, conds, results, otherwise) =>
      EqAllTransitive(conds, b.conds, c.conds); EqAllTransitive(results, b.results, c.results);
      if otherwise.Some? { EqTransitive(otherwise.value, b.otherwise.value, c.otherwise.value); }
    case AggExpr(_, _, arg, _, _) => if arg.Some? { EqTransitive(arg.value, b.aggArg.value, c.aggArg.value); }
    case DateTrunc(_, _, x) => EqTransitive(x, b.from, c.from);
    case DateAdd(_, _, x, y) => EqTransitive(x, b.number, c.number); EqTransitive(y, b.datetime, c.datetime);
    case _ =>
  }

  lemma {:induction false} EqAllTransitive(xs: seq<Expr>, ys: seq<Expr>, zs: seq<Expr>)
    requires AllOf(Placed, xs) && AllOf(Placed, ys) && AllOf(Placed, zs) && EqAll(xs, ys) && EqAll(ys, zs)
    ensures EqAll(xs, zs)
    decreases xs, 0
  {
    if xs != [] { EqTransitive(xs[0], ys[0], zs[0]); EqAllTransitive(xs[1..], ys[1..], zs[1..]); }
  }

  // ---------------------------------------------------------------- copies

  /** Constants that are not NULL have a NOT NULL type. */
  predicate Tight(e: Expr) {
    e.Constant? && !e.isNull ==> e.ti.notNull
  }

  /** A deep copy equals its original exactly when no constant's type claims it may be NULL
      although it is not. */
  lemma {:induction false} CopyEqualIff(e: Expr)
    requires All(Placed, e)
    ensures Eq(DeepCopy(e), e) <==> All(Tight, e)
    decreases e, 1
  {
    match e
    case UOper(_, _, x) => CopyEqualIff(x);
    case BinOper(_, _, _, x, y) => CopyEqualIff(x); CopyEqualIff(y);
    case InValues(x, vs) => CopyEqualIff(x); CopyAllEqualIff(vs);
    case CaseExpr(_, conds, results, otherwise) =>
      CopyAllEqualIff(conds); CopyAllEqualIff(results);
      if otherwise.Some? { CopyEqualIff(otherwise.value); }
    case AggExpr(_, _, arg, _, _) => if arg.Some? { CopyEqualIff(arg.value); }
    case DateTrunc(_, _, x) => CopyEqualIff(x);
    case DateAdd(_, _, x, y) => CopyEqualIff(x); CopyEqualIff(y);
    case _ =>
  }

  lemma {:induction false} CopyAllEqualIff(es: seq<Expr>)
    requires AllOf(Placed, es)
    ensures EqAll(DeepCopyAll(es), es) <==> AllOf(Tight, es)
    decreases es, 0
  {
    if es != [] { CopyEqualIff(es[0]); CopyAllEqualIff(es[1..]); }
  }

  /** The copy is the very same tree in exactly the same case: only types of constants can differ. */
  lemma {:induction false} CopyIdenticalIff(e: Expr)
    ensures DeepCopy(e) == e <==> All(Tight, e)
    decreases e, 1
  {
    match e
    case UOper(_, _, x) => CopyIdenticalIff(x);
    case BinOper(_, _, _, x, y) => CopyIdenticalIff(x); CopyIdenticalIff(y);
    case InValues(x, vs) => CopyIdenticalIff(x); CopyAllIdenticalIff(vs);
    case CaseExpr(_, conds, results, otherwise) =>
      CopyAllIdenticalIff(conds); CopyAllIdenticalIff(results);
      if otherwise.Some? { CopyIdenticalIff(otherwise.value); }
    case AggExpr(_, _, arg, _, _) => if arg.Some? { CopyIdenticalIff(arg.value); }
    case DateTrunc(_, _, x) => CopyIdenticalIff(x);
    case DateAdd(_, _, x, y) => CopyIdenticalIff(x); CopyIdenticalIff(y);
    case _ =>
  }

  lemma {:induction false} CopyAllIdenticalIff(es: seq<Expr>)
    ensures DeepCopyAll(es) == es <==> AllOf(Tight, es)
    decreases es, 0
  {
    if es != [] {
      CopyIdenticalIff(es[0]);
      CopyAllIdenticalIff(es[1..]);
      assert es == [es[0]] + es[1..];
      assert DeepCopyAll(es)[1..] == DeepCopyAll(es[1..]);
    }
  }

  /** The condition matters: a constant cast to a nullable type is not equal to its own copy. */
  lemma NullableConstantCopyDiffers()
    ensures var e := Constant(Type(BigInt, 0, 0, false), false, Num(1));
            All(Placed, e) && Eq(e, e) && !Eq(DeepCopy(e), e)
  {
  }

  /** A deep copy always has the meaning of its original. */
  lemma {:induction false} CopySameMeaning(i: Interp, e: Expr, r: Row, group: seq<Row>)
    ensures Eval(i, DeepCopy(e), r, group) == Eval(i, e, r, group)
    decreases e, 1
  {
    match e
    case UOper(_, _, x) => CopySameMeaning(i, x, r, group);
    case BinOper(_, _, _, x, y) => CopySameMeaning(i, x, r, group); CopySameMeaning(i, y, r, group);
    case InValues(x, vs) => CopySameMeaning(i, x, r, group); CopyAllSameMeaning(i, vs, r, group);
    case CaseExpr(_, conds, results, otherwise) =>
      CopyAllSameMeaning(i, conds, r, group); CopyAllSameMeaning(i, results, r, group);
      if otherwise.Some? { CopySameMeaning(i, otherwise.value, r, group); }
    case AggExpr(_, _, arg, _, _) =>
      if arg.Some? {
        forall k | 0 <= k < |group|
          ensures Eval(i, DeepCopy(arg.value), group[k], group) == Eval(i, arg.value, group[k], group)
        {
          CopySameMeaning(i, arg.value, group[k], group);
        }
        assert EvalRows(i, DeepCopy(arg.value), group, group) == EvalRows(i, arg.value, group, group);
      }
    case DateTrunc(_, _, x) => CopySameMeaning(i, x, r, group);
    case DateAdd(_, _, x, y) => CopySameMeaning(i, x, r, group); CopySameMeaning(i, y, r, group);
    case _ =>
  }

  lemma {:induction false} CopyAllSameMeaning(i: Interp, es: seq<Expr>, r: Row, group: seq<Row>)
    ensures EvalAll(i, DeepCopyAll(es), r, group) == EvalAll(i, es, r, group)
    decreases es, 0
  {
    if es != [] { CopySameMeaning(i, es[0], r, group); CopyAllSameMeaning(i, es[1..], r, group); }
  }
}
