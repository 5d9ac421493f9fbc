/** Expressions built only from operators whose meaning the analyzer leaves open. For these,
    agreement is not just enough for the same value but needed: some meaning of the operators, that
    of terms standing for themselves, tells any two others apart. */
module FreeTerms {
  import opened Expressions
  import opened Meaning
  import opened Options

  ghost predicate SameValue(a: Expr, b: Expr) {
    forall i: Interp, r: Row, g: seq<Row> :: Eval(i, a, r, g) == Eval(i, b, r, g)
  }

  /** Columns, positions from 1 on, constants, casts, open operators and date functions. */
  predicate Free(e: Expr) {
    match e
    case ColumnVar(_, _, _) => true
    case Var(_, _, _, _, varno) => varno >= 1
    case Constant(_, _, _) => true
    case UOper(_, op, x) => (op.Cast? || op.OtherUnary?) && Free(x)
    case BinOper(_, op, _, x, y) => op.OtherBinary? && Free(x) && Free(y)
    case DateTrunc(_, _, x) => Free(x)
    case DateAdd(_, _, x, y) => Free(x) && Free(y)
    case _ => false
  }

  predicate FreeArgument(o: Option<Expr>) {
    o.Some? ==> Free(o.value)
  }

  predicate FreeAggregate(e: Expr) {
    e.AggExpr? && FreeArgument(e.aggArg) && FreeArgument(e.arg1)
  }

  // ---------------------------------------------------------------- terms that stand for themselves

  /** A mark that starts no array among the constants of size n. */
  function Mark(n: nat): Value {
    Str(seq(n + 1, _ => 'x'))
  }

  function MarkLength(v: Value): nat {
    if v.Array? && v.elems != [] && v.elems[0].Str? then |v.elems[0].s| else 0
  }

  /** The positions and constants of e are of size n at most. */
  predicate Within(n: nat, e: Expr) {
    match e
    case Var(_, _, _, _, varno) => varno <= n
    case Constant(_, _, _) => MarkLength(ValueOf(e)) <= n
    case UOper(_, _, x) => Within(n, x)
    case BinOper(_, _, _, x, y) => Within(n, x) && Within(n, y)
    case DateTrunc(_, _, x) => Within(n, x)
    case DateAdd(_, _, x, y) => Within(n, x) && Within(n, y)
    case _ => true
  }

  lemma {:induction false} WithinGrows(m: nat, n: nat, e: Expr)
    requires m <= n && Within(m, e)
    ensures Within(n, e)
  {
    match e
    case UOper(_, _, x) => WithinGrows(m, n, x);
    case BinOper(_, _, _, x, y) => WithinGrows(m, n, x); WithinGrows(m, n, y);
    case DateTrunc(_, _, x) => WithinGrows(m, n, x);
    case DateAdd(_, _, x, y) => WithinGrows(m, n, x); WithinGrows(m, n, y);
    case _ =>
  }

  lemma {:induction false} WithinSome(e: Expr) returns (n: nat)
    ensures Within(n, e)
  {
    n := 0;
    match e
    case Var(_, _, _, _, varno) => n := if varno < 0 then 0 else varno;
    case Constant(_, _, _) => n := MarkLength(ValueOf(e));
    case UOper(_, _, x) => n := WithinSome(x);
    case BinOper(_, _, _, x, y) => var k := WithinSome(x); var m := WithinSome(y); n := WithinBoth(k, x, m, y);
    case DateTrunc(_, _, x) => n := WithinSome(x);
    case DateAdd(_, _, x, y) => var k := WithinSome(x); var m := WithinSome(y); n := WithinBoth(k, x, m, y);
    case _ =>
  }

  lemma WithinBoth(k: nat, x: Expr, m: nat, y: Expr) returns (n: nat)
    requires Within(k, x) && Within(m, y)
    ensures Within(n, x) && Within(n, y)
  {
    n := k + m;
    WithinGrows(k, n, x);
    WithinGrows(m, n, y);
  }

  function BaseCode(b: Base): int {
    match b
    case Boolean => 0 case TinyInt => 1 case SmallInt => 2 case Int => 3 case BigInt => 4 case Numeric => 5
    case Decimal => 6 case Float => 7 case Double => 8 case Text => 9 case Date => 10 case Timestamp => 11
  }

  function TypeCode(t: Type): Value {
    Array([Num(BaseCode(t.base)), Num(t.dimension), Num(t.scale), Bool(t.notNull)])
  }

  lemma TypeCodeTells(s: Type, t: Type)
    requires TypeCode(s) == TypeCode(t)
    ensures s == t
  {
    var x, y := TypeCode(s).elems, TypeCode(t).elems;
    assert x[0] == y[0] && x[1] == y[1] && x[2] == y[2] && x[3] == y[3];
  }

  function RowCode(w: WhichRow): int {
    match w case InputOuter => 0 case InputInner => 1 case Output => 2 case GroupBy => 3
  }

  function Place(n: nat, w: WhichRow, k: int): Value {
    Array([Mark(n), Num(1), Num(RowCode(w)), Num(k)])
  }

  function Column(n: nat, rte: int, key: ColumnKey): Value {
    Array([Mark(n), Num(0), Num(rte), Num(key.db), Num(key.table), Num(key.column)])
  }

  function OneOf(n: nat, kind: int, code: Value, v: Value): Value {
    Array([Mark(n), Num(kind), code, v])
  }

  function TwoOf(n: nat, kind: int, code: int, v: Value, w: Value): Value {
    Array([Mark(n), Num(kind), Num(code), v, w])
  }

  function FreeInterp(n: nat): Interp {
    Interp((c, v) => OneOf(n, 2, Num(c), v), (ti, v) => OneOf(n, 3, TypeCode(ti), v),
           (c, v, w) => TwoOf(n, 4, c, v, w), (v, w) => true,
           (agg, d, v, k, vs) => Array([Num(agg), Bool(d), v] + vs),
           (f, v) => OneOf(n, 5, Num(f), v), (f, v, w) => TwoOf(n, 6, f, v, w))
  }

  function FreeRow(n: nat): Row {
    Row((rte, key) => Column(n, rte, key), seq(n, k => Place(n, InputOuter, k + 1)),
        seq(n, k => Place(n, InputInner, k + 1)), seq(n, k => Place(n, Output, k + 1)),
        seq(n, k => Place(n, GroupBy, k + 1)))
  }

  /** The value under that meaning. */
  function Term(n: nat, e: Expr): Value
    requires Free(e)
  {
    match e
    case ColumnVar(_, key, rte) => Column(n, rte, key)
    case Var(_, _, _, which, varno) => Place(n, which, varno)
    case Constant(_, _, _) => ValueOf(e)
    case UOper(ti, op, x) =>
      if op.Cast? then OneOf(n, 3, TypeCode(ti), Term(n, x)) else OneOf(n, 2, Num(op.code), Term(n, x))
    case BinOper(_, op, _, x, y) => TwoOf(n, 4, op.code, Term(n, x), Term(n, y))
    case DateTrunc(_, f, x) => OneOf(n, 5, Num(f), Term(n, x))
    case DateAdd(_, f, x, y) => TwoOf(n, 6, f, Term(n, x), Term(n, y))
  }

  lemma {:induction false} TermIsValue(n: nat, e: Expr, g: seq<Row>)
    requires Free(e) && Within(n, e)
    ensures Eval(FreeInterp(n), e, FreeRow(n), g) == Term(n, e)
  {
    hide Place, Column, OneOf, TwoOf, TypeCode;
    match e
    case UOper(_, _, x) => TermIsValue(n, x, g);
    case BinOper(_, _, _, x, y) => TermIsValue(n, x, g); TermIsValue(n, y, g);
    case DateTrunc(_, _, x) => TermIsValue(n, x, g);
    case DateAdd(_, _, x, y) => TermIsValue(n, x, g); TermIsValue(n, y, g);
    case _ =>
  }

  /** What kind of node a value came from; -1 for a constant. */
  function KindOf(n: nat, e: Expr): int
    requires Free(e)
  {
    match e
    case ColumnVar(_, _, _) => 0
    case Var(_, _, _, _, _) => 1
    case Constant(_, _, _) => -1
    case UOper(_, op, _) => if op.Cast? then 3 else 2
    case BinOper(_, _, _, _, _) => 4
    case DateTrunc(_, _, _) => 5
    case DateAdd(_, _, _, _) => 6
  }

  lemma TermShowsKind(n: nat, e: Expr)
    requires Free(e) && Within(n, e)
    ensures KindOf(n, e) == -1 <==> MarkLength(Term(n, e)) <= n
    ensures KindOf(n, e) != -1 ==>
              Term(n, e).Array? && |Term(n, e).elems| >= 2 && Term(n, e).elems[1] == Num(KindOf(n, e))
  {
  }

  lemma TermsOfAKind(n: nat, a: Expr, b: Expr)
    requires Free(a) && Free(b) && Within(n, a) && Within(n, b) && Term(n, a) == Term(n, b)
    ensures KindOf(n, a) == KindOf(n, b)
  {
    TermShowsKind(n, a);
    TermShowsKind(n, b);
    hide Term, KindOf;
  }

  lemma OneOfTells(n: nat, kind: int, c: Value, v: Value, d: Value, w: Value)
    requires OneOf(n, kind, c, v) == OneOf(n, kind, d, w)
    ensures c == d && v == w
  {
    var x, y := OneOf(n, kind, c, v).elems, OneOf(n, kind, d, w).elems;
    assert x[2] == y[2] && x[3] == y[3];
  }

  lemma TwoOfTells(n: nat, kind: int, c: int, v: Value, w: Value, d: int, v': Value, w': Value)
    requires TwoOf(n, kind, c, v, w) == TwoOf(n, kind, d, v', w')
    ensures c == d && v == v' && w == w'
  {
    var x, y := TwoOf(n, kind, c, v, w).elems, TwoOf(n, kind, d, v', w').elems;
    assert x[2] == y[2] && x[3] == y[3] && x[4] == y[4];
  }

  lemma LeavesTell(n: nat, a: Expr, b: Expr)
    requires (a.ColumnVar? && b.ColumnVar?) || (a.Var? && b.Var?)
    requires Free(a) && Free(b) && Term(n, a) == Term(n, b)
    ensures Agree(a, b)
  {
    var x, y := Term(n, a).elems, Term(n, b).elems;
    assert x[2] == y[2] && x[3] == y[3];
    if a.ColumnVar? {
      assert x[4] == y[4] && x[5] == y[5];
    }
  }

  /** Terms with the same value agree. */
  lemma {:induction false} TermsTell(n: nat, a: Expr, b: Expr)
    requires Free(a) && Free(b) && Within(n, a) && Within(n, b) && Term(n, a) == Term(n, b)
    ensures Agree(a, b)
  {
    TermsOfAKind(n, a, b);
    hide Mark, MarkLength, OneOf, TwoOf, Place, Column, TypeCode;
    match a
    case ColumnVar(_, _, _) => LeavesTell(n, a, b);
    case Var(_, _, _, _, _) => LeavesTell(n, a, b);
    case Constant(_, _, _) =>
    case UOper(ti, op, x) =>
      var kind := if op.Cast? then 3 else 2;
      OneOfTells(n, kind, if op.Cast? then TypeCode(ti) else Num(op.code), Term(n, x),
          if op.Cast? then TypeCode(b.ti) else Num(b.uop.code), Term(n, b.operand));
      if op.Cast? { TypeCodeTells(ti, b.ti); }
      TermsTell(n, x, b.operand);
    case BinOper(_, op, _, x, y) =>
      TwoOfTells(n, 4, op.code, Term(n, x), Term(n, y), b.bop.code, Term(n, b.left), Term(n, b.right));
      TermsTell(n, x, b.left);
      TermsTell(n, y, b.right);
    case DateTrunc(_, f, x) =>
      OneOfTells(n, 5, Num(f), Term(n, x), Num(b.field), Term(n, b.from));
      TermsTell(n, x, b.from);
    case DateAdd(_, f, x, y) =>
      TwoOfTells(n, 6, f, Term(n, x), Term(n, y), b.field, Term(n, b.number), Term(n, b.datetime));
      TermsTell(n, x, b.number);
      TermsTell(n, y, b.datetime);
  }

  // ---------------------------------------------------------------- agreement is sameness

  lemma AgreeIsSame(a: Expr, b: Expr)
    requires Agree(a, b)
    ensures SameValue(a, b)
  {
    forall i: Interp, r: Row, g: seq<Row> ensures Eval(i, a, r, g) == Eval(i, b, r, g) {
      AgreeSameMeaning(i, a, b, r, g);
    }
  }

  /** Two free expressions always have the same value exactly when they agree. */
  lemma FreeSameIff(a: Expr, b: Expr)
    requires Free(a) && Free(b)
    ensures SameValue(a, b) <==> Agree(a, b)
  {
    hide Free, Agree, Eval, Within;
    if Agree(a, b) { AgreeIsSame(a, b); }
    if SameValue(a, b) {
      var k := WithinSome(a);
      var m := WithinSome(b);
      var n := WithinBoth(k, a, m, b);
      TermIsValue(n, a, []);
      TermIsValue(n, b, []);
      TermsTell(n, a, b);
    }
  }

  /** The value of an argument, or NULL if it is absent. */
  function TermOr(n: nat, o: Option<Expr>): Value
    requires FreeArgument(o)
  {
    match o case None => Null case Some(x) => Term(n, x)
  }

  predicate WithinOr(n: nat, o: Option<Expr>) {
    o.Some? ==> Within(n, o.value)
  }

  function AggregateTerm(n: nat, e: Expr): seq<Value>
    requires FreeAggregate(e)
  {
    [Num(e.agg), Bool(e.distinct), TermOr(n, e.arg1)] + if e.aggArg.None? then [] else [Term(n, e.aggArg.value)]
  }

  lemma AggregateIsValue(n: nat, e: Expr)
    requires FreeAggregate(e) && WithinOr(n, e.aggArg) && WithinOr(n, e.arg1)
    ensures Eval(FreeInterp(n), e, FreeRow(n), [FreeRow(n)]) ==
            Array(AggregateTerm(n, e))
  {
    var g := [FreeRow(n)];
    if e.arg1.Some? { TermIsValue(n, e.arg1.value, g); }
    if e.aggArg.Some? {
      TermIsValue(n, e.aggArg.value, g);
      assert EvalRows(FreeInterp(n), e.aggArg.value, g, g) == [Term(n, e.aggArg.value)];
    }
  }

  lemma AggregatesTell(n: nat, a: Expr, b: Expr)
    requires FreeAggregate(a) && FreeAggregate(b) && WithinOr(n, a.aggArg) && WithinOr(n, a.arg1)
    requires WithinOr(n, b.aggArg) && WithinOr(n, b.arg1)
    requires Eval(FreeInterp(n), a, FreeRow(n), [FreeRow(n)]) == Eval(FreeInterp(n), b, FreeRow(n), [FreeRow(n)])
    ensures Agree(a, b)
  {
    AggregateIsValue(n, a);
    AggregateIsValue(n, b);
    hide Eval, Term, FreeInterp, FreeRow;
    var x, y := AggregateTerm(n, a), AggregateTerm(n, b);
    assert x == y && |x| == |y| && x[0] == y[0] && x[1] == y[1] && x[2] == y[2];
    if a.aggArg.Some? {
      assert x[3] == y[3];
      TermsTell(n, a.aggArg.value, b.aggArg.value);
    }
    SecondsTell(n, a.arg1, b.arg1);
  }

  lemma SecondsTell(n: nat, o: Option<Expr>, p: Option<Expr>)
    requires FreeArgument(o) && FreeArgument(p) && WithinOr(n, o) && WithinOr(n, p) && TermOr(n, o) == TermOr(n, p)
    ensures match o
            case None => p.None? || IsNullConstant(p.value)
            case Some(y) => if p.None? then IsNullConstant(y) else Agree(y, p.value)
  {
    if o.Some? && p.Some? { TermsTell(n, o.value, p.value); }
  }

  /** Two aggregates of free arguments always have the same value exactly when they agree. */
  lemma AggregatesSameIff(a: Expr, b: Expr)
    requires FreeAggregate(a) && FreeAggregate(b)
    ensures SameValue(a, b) <==> Agree(a, b)
  {
    hide Free, Agree, Eval, Within;
    if Agree(a, b) { AgreeIsSame(a, b); }
    if SameValue(a, b) {
      var n := WithinAll([a.aggArg, a.arg1, b.aggArg, b.arg1]);
      AggregatesTell(n, a, b);
    }
  }

  lemma {:induction false} WithinAll(os: seq<Option<Expr>>) returns (n: nat)
    ensures forall o | o in os :: WithinOr(n, o)
  {
    n := 0;
    if os != [] {
      var m := WithinAll(os[1..]);
      var k := 0;
      if os[0].Some? { k := WithinSome(os[0].value); }
      n := k + m;
      forall o | o in os ensures WithinOr(n, o) {
        if o.Some? {
          if o == os[0] { WithinGrows(k, n, o.value); } else { assert o in os[1..]; WithinGrows(m, n, o.value); }
        }
      }
    }
  }

  /** Operators with a fixed meaning can hide a difference: with TRUE beside it the cast does not
      matter, so there agreement is enough but not needed. */
  lemma FixedOperatorsMayHide(a: Type, b: Type, x: Expr)
    requires a != b && Eq(x, x)
    ensures var true3 := Constant(Type(Boolean, 0, 0, true), false, Bool(true));
            var y, z := BinOper(a, Or, 0, UOper(a, Cast, x), true3), BinOper(a, Or, 0, UOper(b, Cast, x), true3);
            Eq(y, z) && !Agree(y, z) && SameValue(y, z)
  {
    var true3 := Constant(Type(Boolean, 0, 0, true), false, Bool(true));
    var y, z := BinOper(a, Or, 0, UOper(a, Cast, x), true3), BinOper(a, Or, 0, UOper(b, Cast, x), true3);
    assert Eq(y.left, z.left) && Eq(true3, true3) && !Agree(y.left, z.left);
    forall i: Interp, r: Row, g: seq<Row> ensures Eval(i, y, r, g) == Eval(i, z, r, g) {
      assert Eval(i, true3, r, g) == Bool(true);
    }
  }
}
