/** What the value of an expression depends on, and when two expressions always have the same. */
module Meaning {
  import opened Expressions
  import opened Options

  // ---------------------------------------------------------------- the entries an expression reads

  /** The range-table entries of all columns of e, and -1 for a position of a plan's row. */
  function Entries(e: Expr): set<int>
    decreases e, 1
  {
    match e
    case ColumnVar(_, _, rte) => {rte}
    case Var(_, _, _, _, _) => {-1}
    case Constant(_, _, _) => {}
    case UOper(_, _, x) => Entries(x)
    case BinOper(_, _, _, x, y) => Entries(x) + Entries(y)
    case InValues(x, vs) => Entries(x) + EntriesAll(vs)
    case CaseExpr(_, conds, results, otherwise) =>
      EntriesAll(conds) + EntriesAll(results) + (match otherwise case None => {} case Some(x) => Entries(x))
    case AggExpr(_, _, arg, _, arg1) =>
      (match arg case None => {} case Some(x) => Entries(x)) + (match arg1 case None => {} case Some(x) => Entries(x))
    case DateTrunc(_, _, x) => Entries(x)
    case DateAdd(_, _, x, y) => Entries(x) + Entries(y)
  }

  function EntriesAll(es: seq<Expr>): set<int>
    decreases es, 0
  {
    if es == [] then {} else Entries(es[0]) + EntriesAll(es[1..])
  }

  /** What an expression can read of a row: a base column or a position. */
  datatype Leaf = Base(rte: int, key: ColumnKey) | Place(which: WhichRow, varno: int)

  function LeafValue(r: Row, l: Leaf): Value {
    match l
    case Base(rte, key) => r.base(rte, key)
    case Place(which, varno) => Position(r, which, varno)
  }

  function Leaves(e: Expr): set<Leaf>
    decreases e, 1
  {
    match e
    case ColumnVar(_, key, rte) => {Base(rte, key)}
    case Var(_, _, _, which, varno) => {Place(which, varno)}
    case Constant(_, _, _) => {}
    case UOper(_, _, x) => Leaves(x)
    case BinOper(_, _, _, x, y) => Leaves(x) + Leaves(y)
    case InValues(x, vs) => Leaves(x) + LeavesAll(vs)
    case CaseExpr(_, conds, results, otherwise) =>
      LeavesAll(conds) + LeavesAll(results) + (match otherwise case None => {} case Some(x) => Leaves(x))
    case AggExpr(_, _, arg, _, arg1) =>
      (match arg case None => {} case Some(x) => Leaves(x)) + (match arg1 case None => {} case Some(x) => Leaves(x))
    case DateTrunc(_, _, x) => Leaves(x)
    case DateAdd(_, _, x, y) => Leaves(x) + Leaves(y)
  }

  function LeavesAll(es: seq<Expr>): set<Leaf>
    decreases es, 0
  {
    if es == [] then {} else Leaves(es[0]) + LeavesAll(es[1..])
  }

  ghost predicate SameOn(leaves: set<Leaf>, r: Row, r': Row) {
    forall l | l in leaves :: LeafValue(r, l) == LeafValue(r', l)
  }

  ghost predicate GroupsSameOn(leaves: set<Leaf>, g: seq<Row>, g': seq<Row>) {
    |g| == |g'| && forall k | 0 <= k < |g| :: SameOn(leaves, g[k], g'[k])
  }

  /** An expression depends on its row and group only through its leaves. */
  lemma {:induction false} ReadsOnlyItsLeaves(i: Interp, e: Expr, leaves: set<Leaf>, r: Row, g: seq<Row>,
      r': Row, g': seq<Row>)
    requires Leaves(e) <= leaves && SameOn(leaves, r, r') && GroupsSameOn(leaves, g, g')
    ensures Eval(i, e, r, g) == Eval(i, e, r', g')
    decreases e, 1
  {
    match e
    case ColumnVar(_, key, rte) => assert LeafValue(r, Base(rte, key)) == LeafValue(r', Base(rte, key));
    case Var(_, _, _, which, varno) => assert LeafValue(r, Place(which, varno)) == LeafValue(r', Place(which, varno));
    case Constant(_, _, _) =>
    case UOper(_, _, x) => ReadsOnlyItsLeaves(i, x, leaves, r, g, r', g');
    case BinOper(_, _, _, x, y) =>
      ReadsOnlyItsLeaves(i, x, leaves, r, g, r', g');
      ReadsOnlyItsLeaves(i, y, leaves, r, g, r', g');
    case InValues(x, vs) =>
      ReadsOnlyItsLeaves(i, x, leaves, r, g, r', g');
      AllReadOnlyTheirLeaves(i, vs, leaves, r, g, r', g');
    case CaseExpr(_, conds, results, otherwise) =>
      AllReadOnlyTheirLeaves(i, conds, leaves, r, g, r', g');
      AllReadOnlyTheirLeaves(i, results, leaves, r, g, r', g');
      if otherwise.Some? { ReadsOnlyItsLeaves(i, otherwise.value, leaves, r, g, r', g'); }
    case AggExpr(_, _, arg, _, arg1) =>
      if arg1.Some? { ReadsOnlyItsLeaves(i, arg1.value, leaves, r, g, r', g'); }
      if arg.Some? {
        forall k | 0 <= k < |g| ensures Eval(i, arg.value, g[k], g) == Eval(i, arg.value, g'[k], g') {
          ReadsOnlyItsLeaves(i, arg.value, leaves, g[k], g, g'[k], g');
        }
        assert EvalRows(i, arg.value, g, g) == EvalRows(i, arg.value, g', g');
      }
    case DateTrunc(_, _, x) => ReadsOnlyItsLeaves(i, x, leaves, r, g, r', g');
    case DateAdd(_, _, x, y) =>
      ReadsOnlyItsLeaves(i, x, leaves, r, g, r', g');
      ReadsOnlyItsLeaves(i, y, leaves, r, g, r', g');
  }

  lemma {:induction false} AllReadOnlyTheirLeaves(i: Interp, es: seq<Expr>, leaves: set<Leaf>, r: Row,
      g: seq<Row>, r': Row, g': seq<Row>)
    requires LeavesAll(es) <= leaves && SameOn(leaves, r, r') && GroupsSameOn(leaves, g, g')
    ensures EvalAll(i, es, r, g) == EvalAll(i, es, r', g')
    decreases es, 0
  {
    if es != [] {
      ReadsOnlyItsLeaves(i, es[0], leaves, r, g, r', g');
      AllReadOnlyTheirLeaves(i, es[1..], leaves, r, g, r', g');
    }
  }

  function EntryOf(l: Leaf): int {
    if l.Base? then l.rte else -1
  }

  /** The entries are those of the leaves. */
  lemma {:induction false} EntriesOfLeaves(e: Expr)
    ensures Entries(e) == set l | l in Leaves(e) :: EntryOf(l)
    decreases e, 1
  {
    match e
    case ColumnVar(_, key, rte) => assert Base(rte, key) in Leaves(e);
    case Var(_, _, _, which, varno) => assert Place(which, varno) in Leaves(e);
    case Constant(_, _, _) =>
    case UOper(_, _, x) => EntriesOfLeaves(x);
    case BinOper(_, _, _, x, y) => EntriesOfLeaves(x); EntriesOfLeaves(y);
    case InValues(x, vs) => EntriesOfLeaves(x); EntriesOfAllLeaves(vs);
    case CaseExpr(_, conds, results, otherwise) =>
      EntriesOfAllLeaves(conds); EntriesOfAllLeaves(results);
      if otherwise.Some? { EntriesOfLeaves(otherwise.value); }
    case AggExpr(_, _, arg, _, arg1) =>
      if arg.Some? { EntriesOfLeaves(arg.value); }
      if arg1.Some? { EntriesOfLeaves(arg1.value); }
    case DateTrunc(_, _, x) => EntriesOfLeaves(x);
    case DateAdd(_, _, x, y) => EntriesOfLeaves(x); EntriesOfLeaves(y);
  }

  lemma {:induction false} EntriesOfAllLeaves(es: seq<Expr>)
    ensures EntriesAll(es) == set l | l in LeavesAll(es) :: EntryOf(l)
    decreases es, 0
  {
    if es != [] { EntriesOfLeaves(es[0]); EntriesOfAllLeaves(es[1..]); }
  }

  /** The rows offer the same values of the entries listed. */
  ghost predicate SameEntries(entries: set<int>, r: Row, r': Row) {
    forall l: Leaf | EntryOf(l) in entries :: LeafValue(r, l) == LeafValue(r', l)
  }

  ghost predicate GroupsSameEntries(entries: set<int>, g: seq<Row>, g': seq<Row>) {
    |g| == |g'| && forall k | 0 <= k < |g| :: SameEntries(entries, g[k], g'[k])
  }

  /** So an expression depends on its row and group only through the entries of its columns. */
  lemma ReadsOnlyItsEntries(i: Interp, e: Expr, entries: set<int>, r: Row, g: seq<Row>, r': Row, g': seq<Row>)
    requires Entries(e) <= entries && SameEntries(entries, r, r') && GroupsSameEntries(entries, g, g')
    ensures Eval(i, e, r, g) == Eval(i, e, r', g')
  {
    EntriesOfLeaves(e);
    hide Entries, Leaves;
    assert forall l | l in Leaves(e) :: EntryOf(l) in Entries(e);
    assert forall k | 0 <= k < |g| :: SameEntries(entries, g[k], g'[k]);
    ReadsOnlyItsLeaves(i, e, Leaves(e), r, g, r', g');
  }

  // ---------------------------------------------------------------- SQL's operators

  /** AND, OR and NOT are the minimum, the maximum and the mirror image in the order FALSE, unknown, TRUE. */
  lemma ThreeValued(a: Truth, b: Truth)
    ensures var order := map[False := 0, Unknown := 1, True := 2];
            && order[And3(a, b)] == (if order[a] <= order[b] then order[a] else order[b])
            && order[Or3(a, b)] == (if order[a] <= order[b] then order[b] else order[a])
            && order[Not3(a)] == 2 - order[a]
            && TruthOf(FromTruth(a)) == a
  {
  }

  predicate Compares(i: Interp, v: Value, w: Value, equal: bool) {
    !v.Null? && !w.Null? && i.equal(v, w) == equal
  }

  /** IN is true if one comparison is, and false if all are; with a NULL it is neither. */
  lemma {:induction false} InMeans(i: Interp, v: Value, vs: seq<Value>)
    ensures IsIn(i, v, vs).True? <==> exists w | w in vs :: Compares(i, v, w, true)
    ensures IsIn(i, v, vs).False? <==> forall w | w in vs :: Compares(i, v, w, false)
  {
    if vs != [] {
      InMeans(i, v, vs[1..]);
      assert vs[0] in vs && forall w :: w in vs <==> w == vs[0] || w in vs[1..];
      if IsIn(i, v, vs[1..]).True? {
        var w :| w in vs[1..] && Compares(i, v, w, true);
        assert w in vs;
      }
      assert IsIn(i, v, vs) == Or3(IsIn(i, v, [vs[0]]), IsIn(i, v, vs[1..]));
    }
  }

  predicate NoneTrue(conds: seq<Value>) {
    forall k | 0 <= k < |conds| :: !TruthOf(conds[k]).True?
  }

  /** CASE is the result of the first arm whose condition is true, and the default if there is none. */
  lemma {:induction false} CaseMeans(conds: seq<Value>, results: seq<Value>, default: Value)
    requires |conds| == |results|
    ensures forall k | 0 <= k < |conds| && TruthOf(conds[k]).True? && NoneTrue(conds[..k]) ::
              FirstTrue(conds, results, default) == results[k]
    ensures NoneTrue(conds) ==> FirstTrue(conds, results, default) == default
  {
    if conds != [] {
      CaseMeans(conds[1..], results[1..], default);
      forall k | 0 < k < |conds| && TruthOf(conds[k]).True? && NoneTrue(conds[..k])
        ensures FirstTrue(conds, results, default) == results[k]
      {
        assert conds[..k][0] == conds[0] && conds[1..][k - 1] == conds[k] && conds[1..][..k - 1] == conds[..k][1..];
      }
    }
  }

  // ---------------------------------------------------------------- agreeing expressions

  function ValueOf(e: Expr): Value
    requires e.Constant?
  {
    if e.isNull then Null else e.val
  }

  predicate IsNullConstant(e: Expr) {
    e.Constant? && ValueOf(e).Null?
  }

  /** What equality would have to be: it also looks at the types cast to and at the second arguments
      of aggregates, where an absent one counts as NULL, and never mixes up names and positions. */
  predicate Agree(a: Expr, b: Expr)
    decreases a, 1
  {
    match a
    case ColumnVar(_, key, rte) => b.ColumnVar? && key == b.key && rte == b.rte
    case Var(_, _, _, which, varno) => b.Var? && which == b.which && varno == b.varno
    case Constant(_, _, _) => b.Constant? && ValueOf(a) == ValueOf(b)
    case UOper(ti, op, x) => b.UOper? && op == b.uop && (op.Cast? ==> ti == b.ti) && Agree(x, b.operand)
    case BinOper(_, op, _, x, y) => b.BinOper? && op == b.bop && Agree(x, b.left) && Agree(y, b.right)
    case InValues(x, vs) => b.InValues? && Agree(x, b.arg) && AgreeAll(vs, b.values)
    case CaseExpr(_, conds, results, otherwise) =>
      && b.CaseExpr? && AgreeAll(conds, b.conds) && AgreeAll(results, b.results)
      && (match otherwise
          case None => b.otherwise.None?
          case Some(x) => b.otherwise.Some? && Agree(x, b.otherwise.value))
    case AggExpr(_, agg, arg, distinct, arg1) =>
      && b.AggExpr? && agg == b.agg && distinct == b.distinct
      && (match arg case None => b.aggArg.None? case Some(x) => b.aggArg.Some? && Agree(x, b.aggArg.value))
      && (match arg1
          case None => b.arg1.None? || IsNullConstant(b.arg1.value)
          case Some(y) => if b.arg1.None? then IsNullConstant(y) else Agree(y, b.arg1.value))
    case DateTrunc(_, field, x) => b.DateTrunc? && field == b.field && Agree(x, b.from)
    case DateAdd(_, field, x, y) => b.DateAdd? && field == b.field && Agree(x, b.number) && Agree(y, b.datetime)
  }

  predicate AgreeAll(xs: seq<Expr>, ys: seq<Expr>)
    decreases xs, 0
  {
    |xs| == |ys| && (xs == [] || (Agree(xs[0], ys[0]) && AgreeAll(xs[1..], ys[1..])))
  }

  /** Expressions that agree have the same value, whatever the operators mean. */
  lemma {:induction false} AgreeSameMeaning(i: Interp, a: Expr, b: Expr, r: Row, g: seq<Row>)
    requires Agree(a, b)
    ensures Eval(i, a, r, g) == Eval(i, b, r, g)
    decreases a, 1
  {
    match a
    case UOper(_, _, x) => AgreeSameMeaning(i, x, b.operand, r, g);
    case BinOper(_, _, _, x, y) => AgreeSameMeaning(i, x, b.left, r, g); AgreeSameMeaning(i, y, b.right, r, g);
    case InValues(x, vs) => AgreeSameMeaning(i, x, b.arg, r, g); AgreeAllSameMeaning(i, vs, b.values, r, g);
    case CaseExpr(_, conds, results, otherwise) =>
      AgreeAllSameMeaning(i, conds, b.conds, r, g); AgreeAllSameMeaning(i, results, b.results, r, g);
      if otherwise.Some? { AgreeSameMeaning(i, otherwise.value, b.otherwise.value, r, g); }
    case AggExpr(_, _, _, _, _) => AgreeSameAggregate(i, a, b, r, g);
    case DateTrunc(_, _, x) => AgreeSameMeaning(i, x, b.from, r, g);
    case DateAdd(_, _, x, y) => AgreeSameMeaning(i, x, b.number, r, g); AgreeSameMeaning(i, y, b.datetime, r, g);
    case _ =>
  }

  lemma {:induction false} AgreeSameAggregate(i: Interp, a: Expr, b: Expr, r: Row, g: seq<Row>)
    requires a.AggExpr? && Agree(a, b)
    ensures Eval(i, a, r, g) == Eval(i, b, r, g)
    decreases a, 0
  {
    if a.arg1.Some? && b.arg1.Some? { AgreeSameMeaning(i, a.arg1.value, b.arg1.value, r, g); }
    if a.aggArg.Some? {
      forall k | 0 <= k < |g| ensures Eval(i, a.aggArg.value, g[k], g) == Eval(i, b.aggArg.value, g[k], g) {
        AgreeSameMeaning(i, a.aggArg.value, b.aggArg.value, g[k], g);
      }
      assert EvalRows(i, a.aggArg.value, g, g) == EvalRows(i, b.aggArg.value, g, g);
    }
  }

  lemma {:induction false} AgreeAllSameMeaning(i: Interp, xs: seq<Expr>, ys: seq<Expr>, r: Row, g: seq<Row>)
    requires AgreeAll(xs, ys)
    ensures EvalAll(i, xs, r, g) == EvalAll(i, ys, r, g)
    decreases xs, 0
  {
    if xs != [] { AgreeSameMeaning(i, xs[0], ys[0], r, g); AgreeAllSameMeaning(i, xs[1..], ys[1..], r, g); }
  }

  lemma {:induction false} AgreeSymmetric(a: Expr, b: Expr)
    requires Agree(a, b)
    ensures Agree(b, a)
    decreases a, 1
  {
    match a
    case UOper(_, _, x) => AgreeSymmetric(x, b.operand);
    case BinOper(_, _, _, x, y) => AgreeSymmetric(x, b.left); AgreeSymmetric(y, b.right);
    case InValues(x, vs) => AgreeSymmetric(x, b.arg); AgreeAllSymmetric(vs, b.values);
    case CaseExpr(_, conds, results, otherwise) =>
      AgreeAllSymmetric(conds, b.conds); AgreeAllSymmetric(results, b.results);
      if otherwise.Some? { AgreeSymmetric(otherwise.value, b.otherwise.value); }
    case AggExpr(_, _, arg, _, arg1) =>
      if arg.Some? { AgreeSymmetric(arg.value, b.aggArg.value); }
      if arg1.Some? && b.arg1.Some? { AgreeSymmetric(arg1.value, b.arg1.value); }
    case DateTrunc(_, _, x) => AgreeSymmetric(x, b.from);
    case DateAdd(_, _, x, y) => AgreeSymmetric(x, b.number); AgreeSymmetric(y, b.datetime);
    case _ =>
  }

  lemma {:induction false} AgreeAllSymmetric(xs: seq<Expr>, ys: seq<Expr>)
    requires AgreeAll(xs, ys)
    ensures AgreeAll(ys, xs)
    decreases xs, 0
  {
    if xs != [] { AgreeSymmetric(xs[0], ys[0]); AgreeAllSymmetric(xs[1..], ys[1..]); }
  }

  /** Placed columns, no casts, no second aggregate arguments. */
  predicate Transparent(e: Expr) {
    Placed(e) && (e.UOper? ==> !e.uop.Cast?) && (e.AggExpr? ==> e.arg1.None?)
  }

  /** Without casts and second arguments equality is agreement. */
  lemma {:induction false} TransparentEqAgrees(a: Expr, b: Expr)
    requires All(Transparent, a) && All(Transparent, b) && Eq(a, b)
    ensures Agree(a, b)
    decreases a, 1
  {
    match a
    case UOper(_, _, x) => TransparentEqAgrees(x, b.operand);
    case BinOper(_, _, _, x, y) => TransparentEqAgrees(x, b.left); TransparentEqAgrees(y, b.right);
    case InValues(x, vs) => TransparentEqAgrees(x, b.arg); TransparentEqAllAgree(vs, b.values);
    case CaseExpr(_, conds, results, otherwise) =>
      TransparentEqAllAgree(conds, b.conds); TransparentEqAllAgree(results, b.results);
      if otherwise.Some? { TransparentEqAgrees(otherwise.value, b.otherwise.value); }
    case AggExpr(_, _, arg, _, _) => if arg.Some? { TransparentEqAgrees(arg.value, b.aggArg.value); }
    case DateTrunc(_, _, x) => TransparentEqAgrees(x, b.from);
    case DateAdd(_, _, x, y) => TransparentEqAgrees(x, b.number); TransparentEqAgrees(y, b.datetime);
    case _ =>
  }

  lemma {:induction false} TransparentEqAllAgree(xs: seq<Expr>, ys: seq<Expr>)
    requires AllOf(Transparent, xs) && AllOf(Transparent, ys) && EqAll(xs, ys)
    ensures AgreeAll(xs, ys)
    decreases xs, 0
  {
    if xs != [] { TransparentEqAgrees(xs[0], ys[0]); TransparentEqAllAgree(xs[1..], ys[1..]); }
  }
}
