/** What the two rewrites leave as it was, node by node, and how they are undone. */
module RewriteShape {
  import opened Expressions
  import opened Forms
  import opened Options
  import opened Rewrite

  // ---------------------------------------------------------------- node by node

  /** Position j + 1 of the row that the target list makes. */
  predicate IsPosition(e: Expr, j: nat) {
    e.Var? && e.which.InputOuter? && e.varno == j + 1
  }

  /** e' is the position of the first column listed under the key of e, with its type and entry. */
  predicate ColumnSwapped(tl: seq<Expr>, e: Expr, e': Expr)
    requires e.ColumnVar?
  {
    exists j: nat | j < |tl| ::
      && (tl[j].ColumnVar? || tl[j].Var?) && tl[j].key == e.key
      && (forall m | 0 <= m < j && (tl[m].ColumnVar? || tl[m].Var?) :: tl[m].key != e.key)
      && IsPosition(e', j) && e'.ti == tl[j].ti && e'.key == e.key && e'.rte == tl[j].rte
  }

  /** e' is the position of the first entry that answers to e, with the type that entry yields. */
  predicate EntrySwapped(tl: seq<Expr>, e: Expr, e': Expr) {
    exists j: nat | j < |tl| ::
      && Answers(tl[j], e) && (forall m | 0 <= m < j :: !Answers(tl[m], e))
      && IsPosition(e', j) && e'.key == ColumnKey(0, 0, 0) && e'.rte == -1
      && !tl[j].InValues? && e'.ti == tl[j].ti
  }

  /** e' is e but for what is looked up: the same nodes, with the same types, operators, qualifiers,
      fields and second arguments; a constant that is not null may have become one of a not-null type.
      In HAVING positions and aggregates are looked up too, otherwise IN lists are left alone. */
  predicate SameNodes(tl: seq<Expr>, having: bool, e: Expr, e': Expr)
    decreases e, 1
  {
    match e
    case ColumnVar(_, _, _) => ColumnSwapped(tl, e, e')
    case Var(_, _, _, _, _) => if having then EntrySwapped(tl, e, e') else e' == e
    case Constant(ti, isNull, val) =>
      && e'.Constant? && e'.isNull == isNull && e'.val == val && e'.ti.(notNull := false) == ti.(notNull := false)
      && (e'.ti.notNull <==> ti.notNull || !isNull)
    case UOper(ti, op, x) => e'.UOper? && e'.ti == ti && e'.uop == op && SameNodes(tl, having, x, e'.operand)
    case BinOper(ti, op, q, x, y) =>
      && e'.BinOper? && e'.ti == ti && e'.bop == op && e'.qualifier == q
      && SameNodes(tl, having, x, e'.left) && SameNodes(tl, having, y, e'.right)
    case InValues(x, vs) =>
      && e'.InValues? && SameNodes(tl, having, x, e'.arg)
      && (if having then SameNodesAll(tl, having, vs, e'.values) else LoosenedAll(e'.values) == LoosenedAll(vs))
    case CaseExpr(ti, conds, results, otherwise) =>
      && e'.CaseExpr? && e'.ti == ti
      && SameNodesAll(tl, having, conds, e'.conds) && SameNodesAll(tl, having, results, e'.results)
      && (match otherwise
          case None => e'.otherwise.None?
          case Some(x) => e'.otherwise.Some? && SameNodes(tl, having, x, e'.otherwise.value))
    case AggExpr(ti, agg, arg, distinct, arg1) =>
      if having then EntrySwapped(tl, e, e')
      else
        && e'.AggExpr? && e'.ti == ti && e'.agg == agg && e'.distinct == distinct && e'.arg1 == arg1
        && (match arg
            case None => e'.aggArg.None?
            case Some(x) => e'.aggArg.Some? && SameNodes(tl, having, x, e'.aggArg.value))
    case DateTrunc(ti, field, x) =>
      e'.DateTrunc? && e'.ti == ti && e'.field == field && SameNodes(tl, having, x, e'.from)
    case DateAdd(ti, field, x, y) =>
      && e'.DateAdd? && e'.ti == ti && e'.field == field
      && SameNodes(tl, having, x, e'.number) && SameNodes(tl, having, y, e'.datetime)
  }

  predicate SameNodesAll(tl: seq<Expr>, having: bool, es: seq<Expr>, es': seq<Expr>)
    decreases es, 0
  {
    if es == [] then es' == []
    else es' != [] && SameNodes(tl, having, es[0], es'[0]) && SameNodesAll(tl, having, es[1..], es'[1..])
  }

  lemma {:induction false} ChildRewriteKeepsNodes(tl: seq<Expr>, e: Expr)
    requires ChildRewrite(tl, e).Some?
    ensures SameNodes(tl, false, e, ChildRewrite(tl, e).value)
    decreases e, 1
  {
    hide FirstColumn, ColumnSwapped;
    match e
    case ColumnVar(_, _, _) => FoundColumnSwapped(tl, e, false);
    case UOper(_, _, x) => ChildRewriteKeepsNodes(tl, x);
    case BinOper(_, _, _, x, y) => ChildRewriteKeepsNodes(tl, x); ChildRewriteKeepsNodes(tl, y);
    case InValues(x, vs) => ChildRewriteKeepsNodes(tl, x); CopyAllKeepsTheRest(vs);
    case CaseExpr(_, conds, results, otherwise) =>
      ChildRewriteAllKeepsNodes(tl, conds); ChildRewriteAllKeepsNodes(tl, results);
      if otherwise.Some? { ChildRewriteKeepsNodes(tl, otherwise.value); }
    case AggExpr(_, _, arg, _, _) => if arg.Some? { ChildRewriteKeepsNodes(tl, arg.value); }
    case DateTrunc(_, _, x) => ChildRewriteKeepsNodes(tl, x);
    case DateAdd(_, _, x, y) => ChildRewriteKeepsNodes(tl, x); ChildRewriteKeepsNodes(tl, y);
    case _ =>
  }

  lemma FoundColumnSwapped(tl: seq<Expr>, e: Expr, having: bool)
    requires e.ColumnVar? && FirstColumn(tl, e.key, having, 0).Some?
    ensures var e' := if having then AggRewrite(tl, e) else ChildRewrite(tl, e);
            e'.Some? && ColumnSwapped(tl, e, e'.value)
  {
    FirstColumnFound(tl, e.key, having, 0);
    var j := FirstColumn(tl, e.key, having, 0).value;
    var e' := (if having then AggRewrite(tl, e) else ChildRewrite(tl, e)).value;
    assert IsPosition(e', j);
  }

  lemma {:induction false} ChildRewriteAllKeepsNodes(tl: seq<Expr>, es: seq<Expr>)
    requires ChildRewriteAll(tl, es).Some?
    ensures SameNodesAll(tl, false, es, ChildRewriteAll(tl, es).value)
    decreases es, 0
  {
    if es != [] {
      ChildRewriteKeepsNodes(tl, es[0]);
      ChildRewriteAllKeepsNodes(tl, es[1..]);
      assert ChildRewriteAll(tl, es).value[1..] == ChildRewriteAll(tl, es[1..]).value;
    }
  }

  lemma {:induction false} AggRewriteKeepsNodes(tl: seq<Expr>, e: Expr)
    requires AggRewrite(tl, e).Some?
    ensures SameNodes(tl, true, e, AggRewrite(tl, e).value)
    decreases e, 1
  {
    hide FirstColumn, FirstEqual, ColumnSwapped, EntrySwapped;
    match e
    case ColumnVar(_, _, _) => FoundColumnSwapped(tl, e, true);
    case Var(_, _, _, _, _) => FoundEntrySwapped(tl, e);
    case AggExpr(_, _, _, _, _) => FoundEntrySwapped(tl, e);
    case Constant(_, _, _) =>
    case UOper(_, _, x) => AggRewriteKeepsNodes(tl, x);
    case BinOper(_, _, _, x, y) => AggRewriteKeepsNodes(tl, x); AggRewriteKeepsNodes(tl, y);
    case InValues(x, vs) => AggRewriteKeepsNodes(tl, x); AggRewriteAllKeepsNodes(tl, vs);
    case CaseExpr(_, conds, results, otherwise) =>
      AggRewriteAllKeepsNodes(tl, conds); AggRewriteAllKeepsNodes(tl, results);
      if otherwise.Some? { AggRewriteKeepsNodes(tl, otherwise.value); }
    case DateTrunc(_, _, x) => AggRewriteKeepsNodes(tl, x);
    case DateAdd(_, _, x, y) => AggRewriteKeepsNodes(tl, x); AggRewriteKeepsNodes(tl, y);
  }

  lemma FoundEntrySwapped(tl: seq<Expr>, e: Expr)
    requires (e.Var? || e.AggExpr?) && FirstEqual(tl, e, 0).Some?
    ensures AggRewrite(tl, e).Some? && EntrySwapped(tl, e, AggRewrite(tl, e).value)
  {
    FirstEqualFound(tl, e, 0);
    var j := FirstEqual(tl, e, 0).value;
    assert IsPosition(AggRewrite(tl, e).value, j);
  }

  lemma {:induction false} AggRewriteAllKeepsNodes(tl: seq<Expr>, es: seq<Expr>)
    requires AggRewriteAll(tl, es).Some?
    ensures SameNodesAll(tl, true, es, AggRewriteAll(tl, es).value)
    decreases es, 0
  {
    if es != [] {
      AggRewriteKeepsNodes(tl, es[0]);
      AggRewriteAllKeepsNodes(tl, es[1..]);
      assert AggRewriteAll(tl, es).value[1..] == AggRewriteAll(tl, es[1..]).value;
    }
  }

  // ---------------------------------------------------------------- putting entries back

  /** Each position of the plan's row is replaced by the entry that it is; IN lists only in HAVING. */
  function PutBack(tl: seq<Expr>, having: bool, e: Expr): Expr
    decreases e, 1
  {
    match e
    case ColumnVar(_, _, _) => e
    case Var(_, _, _, which, varno) => if which.InputOuter? && 1 <= varno <= |tl| then tl[varno - 1] else e
    case Constant(_, _, _) => e
    case UOper(ti, op, x) => UOper(ti, op, PutBack(tl, having, x))
    case BinOper(ti, op, q, x, y) => BinOper(ti, op, q, PutBack(tl, having, x), PutBack(tl, having, y))
    case InValues(x, vs) => InValues(PutBack(tl, having, x), if having then PutBackAll(tl, having, vs) else vs)
    case CaseExpr(ti, conds, results, otherwise) =>
      CaseExpr(ti, PutBackAll(tl, having, conds), PutBackAll(tl, having, results),
               match otherwise case None => None case Some(x) => Some(PutBack(tl, having, x)))
    case AggExpr(ti, agg, arg, distinct, arg1) =>
      AggExpr(ti, agg, match arg case None => None case Some(x) => Some(PutBack(tl, having, x)), distinct, arg1)
    case DateTrunc(ti, field, x) => DateTrunc(ti, field, PutBack(tl, having, x))
    case DateAdd(ti, field, x, y) => DateAdd(ti, field, PutBack(tl, having, x), PutBack(tl, having, y))
  }

  function PutBackAll(tl: seq<Expr>, having: bool, es: seq<Expr>): (r: seq<Expr>)
    ensures |r| == |es|
    decreases es, 0
  {
    if es == [] then [] else [PutBack(tl, having, es[0])] + PutBackAll(tl, having, es[1..])
  }

  /** What is looked up finds exactly itself, what is left alone is no position of the plan's row, and
      constants that are not null are of a not-null type. */
  predicate Restorable(tl: seq<Expr>, having: bool, e: Expr)
    decreases e, 1
  {
    match e
    case ColumnVar(_, key, _) => var j := FirstColumn(tl, key, having, 0); j.Some? && tl[j.value] == e
    case Var(_, _, _, which, varno) =>
      if having then FindsEqual(tl, e) else !(which.InputOuter? && 1 <= varno <= |tl|) || tl[varno - 1] == e
    case Constant(_, _, _) => Tight(e)
    case UOper(_, _, x) => Restorable(tl, having, x)
    case BinOper(_, _, _, x, y) => Restorable(tl, having, x) && Restorable(tl, having, y)
    case InValues(x, vs) =>
      Restorable(tl, having, x) && if having then RestorableAll(tl, having, vs) else AllOf(Tight, vs)
    case CaseExpr(_, conds, results, otherwise) =>
      RestorableAll(tl, having, conds) && RestorableAll(tl, having, results) &&
      (match otherwise case None => true case Some(x) => Restorable(tl, having, x))
    case AggExpr(_, _, arg, _, _) =>
      if having then FindsEqual(tl, e) else (match arg case None => true case Some(x) => Restorable(tl, having, x))
    case DateTrunc(_, _, x) => Restorable(tl, having, x)
    case DateAdd(_, _, x, y) => Restorable(tl, having, x) && Restorable(tl, having, y)
  }

  predicate RestorableAll(tl: seq<Expr>, having: bool, es: seq<Expr>)
    decreases es, 0
  {
    es == [] || (Restorable(tl, having, es[0]) && RestorableAll(tl, having, es[1..]))
  }

  predicate FindsEqual(tl: seq<Expr>, e: Expr) {
    var j := FirstEqual(tl, e, 0);
    j.Some? && tl[j.value] == e
  }

  /** Putting the entries back undoes the rewrite for a child plan exactly then. */
  lemma {:induction false} ChildRewriteUndoneIff(tl: seq<Expr>, e: Expr)
    requires ChildRewrite(tl, e).Some?
    ensures PutBack(tl, false, ChildRewrite(tl, e).value) == e <==> Restorable(tl, false, e)
    decreases e, 1
  {
    hide FirstColumn;
    match e
    case UOper(_, _, x) => ChildRewriteUndoneIff(tl, x);
    case BinOper(_, _, _, x, y) => ChildRewriteUndoneIff(tl, x); ChildRewriteUndoneIff(tl, y);
    case InValues(x, vs) => ChildRewriteUndoneIff(tl, x); CopyAllIdenticalIff(vs);
    case CaseExpr(_, conds, results, otherwise) =>
      ChildRewriteAllUndoneIff(tl, conds); ChildRewriteAllUndoneIff(tl, results);
      if otherwise.Some? { ChildRewriteUndoneIff(tl, otherwise.value); }
    case AggExpr(_, _, arg, _, _) => if arg.Some? { ChildRewriteUndoneIff(tl, arg.value); }
    case DateTrunc(_, _, x) => ChildRewriteUndoneIff(tl, x);
    case DateAdd(_, _, x, y) => ChildRewriteUndoneIff(tl, x); ChildRewriteUndoneIff(tl, y);
    case _ =>
  }

  lemma {:induction false} ChildRewriteAllUndoneIff(tl: seq<Expr>, es: seq<Expr>)
    requires ChildRewriteAll(tl, es).Some?
    ensures PutBackAll(tl, false, ChildRewriteAll(tl, es).value) == es <==> RestorableAll(tl, false, es)
    decreases es, 0
  {
    if es != [] {
      ChildRewriteUndoneIff(tl, es[0]);
      ChildRewriteAllUndoneIff(tl, es[1..]);
      var xs := ChildRewriteAll(tl, es[1..]).value;
      assert ChildRewriteAll(tl, es).value[1..] == xs;
      Headed(PutBack(tl, false, ChildRewrite(tl, es[0]).value), PutBackAll(tl, false, xs), es[0], es[1..]);
      assert [es[0]] + es[1..] == es;
    }
  }

  /** And so it undoes the rewrite of HAVING. */
  lemma {:induction false} AggRewriteUndoneIff(tl: seq<Expr>, e: Expr)
    requires AggRewrite(tl, e).Some?
    ensures PutBack(tl, true, AggRewrite(tl, e).value) == e <==> Restorable(tl, true, e)
    decreases e, 1
  {
    hide FirstColumn, FirstEqual;
    match e
    case UOper(_, _, x) => AggRewriteUndoneIff(tl, x);
    case BinOper(_, _, _, x, y) => AggRewriteUndoneIff(tl, x); AggRewriteUndoneIff(tl, y);
    case InValues(x, vs) => AggRewriteUndoneIff(tl, x); AggRewriteAllUndoneIff(tl, vs);
    case CaseExpr(_, conds, results, otherwise) =>
      AggRewriteAllUndoneIff(tl, conds); AggRewriteAllUndoneIff(tl, results);
      if otherwise.Some? { AggRewriteUndoneIff(tl, otherwise.value); }
    case DateTrunc(_, _, x) => AggRewriteUndoneIff(tl, x);
    case DateAdd(_, _, x, y) => AggRewriteUndoneIff(tl, x); AggRewriteUndoneIff(tl, y);
    case _ =>
  }

  lemma {:induction false} AggRewriteAllUndoneIff(tl: seq<Expr>, es: seq<Expr>)
    requires AggRewriteAll(tl, es).Some?
    ensures PutBackAll(tl, true, AggRewriteAll(tl, es).value) == es <==> RestorableAll(tl, true, es)
    decreases es, 0
  {
    if es != [] {
      AggRewriteUndoneIff(tl, es[0]);
      AggRewriteAllUndoneIff(tl, es[1..]);
      var xs := AggRewriteAll(tl, es[1..]).value;
      assert AggRewriteAll(tl, es).value[1..] == xs;
      Headed(PutBack(tl, true, AggRewrite(tl, es[0]).value), PutBackAll(tl, true, xs), es[0], es[1..]);
      assert [es[0]] + es[1..] == es;
    }
  }
}
