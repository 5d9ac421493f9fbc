/** Rewriting expressions to read the rows a child plan or an aggregate plan produces. */
module Rewrite {
  import opened Expressions
  import opened FreeTerms
  import opened Meaning
  import opened Options

  predicate IsColumn(e: Expr) {
    e.ColumnVar? || e.Var?
  }

  // ---------------------------------------------------------------- searching a target list

  /** The first entry from k on that is the column named key; any other kind of entry on the way,
      except an aggregate where these are skipped, ends the search. */
  function FirstColumn(tl: seq<Expr>, key: ColumnKey, skipAggs: bool, k: nat): (j: Option<nat>)
    requires k <= |tl|
    ensures j.Some? ==> k <= j.value < |tl| && IsColumn(tl[j.value]) && tl[j.value].key == key
    decreases |tl| - k
  {
    if k == |tl| then None
    else if skipAggs && tl[k].AggExpr? then FirstColumn(tl, key, skipAggs, k + 1)
    else if !IsColumn(tl[k]) then None
    else if tl[k].key == key then Some(k)
    else FirstColumn(tl, key, skipAggs, k + 1)
  }

  method FindColumn(tl: seq<Expr>, key: ColumnKey, skipAggs: bool) returns (j: Option<nat>)
    ensures j == FirstColumn(tl, key, skipAggs, 0)
  {
    var k := 0;
    while k < |tl|
      invariant k <= |tl| && FirstColumn(tl, key, skipAggs, 0) == FirstColumn(tl, key, skipAggs, k)
    {
      if !(skipAggs && tl[k].AggExpr?) {
        if !IsColumn(tl[k]) {
          return None;
        }
        if tl[k].key == key {
          return Some(k);
        }
      }
      k := k + 1;
    }
    return None;
  }

  /** Found exactly when the column is listed and nothing before it ends the search. */
  lemma {:induction false} FirstColumnFound(tl: seq<Expr>, key: ColumnKey, skipAggs: bool, k: nat)
    requires k <= |tl|
    ensures FirstColumn(tl, key, skipAggs, k).Some? <==>
            exists j | k <= j < |tl| :: IsColumn(tl[j]) && tl[j].key == key &&
              forall m | k <= m < j :: IsColumn(tl[m]) || (skipAggs && tl[m].AggExpr?)
    ensures var j := FirstColumn(tl, key, skipAggs, k);
            j.Some? ==> forall m | k <= m < j.value :: IsColumn(tl[m]) ==> tl[m].key != key
    decreases |tl| - k
  {
    if k < |tl| {
      FirstColumnFound(tl, key, skipAggs, k + 1);
    }
  }

  /** x is what a search for e looks for; an aggregate only equals aggregates. */
  predicate Answers(x: Expr, e: Expr) {
    if e.AggExpr? then x.AggExpr? && Eq(e, x) else Eq(x, e)
  }

  /** The first entry from k on that equals e. */
  function FirstEqual(tl: seq<Expr>, e: Expr, k: nat): (j: Option<nat>)
    requires k <= |tl|
    ensures j.Some? ==> k <= j.value < |tl| && Answers(tl[j.value], e)
    decreases |tl| - k
  {
    if k == |tl| then None else if Answers(tl[k], e) then Some(k) else FirstEqual(tl, e, k + 1)
  }

  method FindEqual(tl: seq<Expr>, e: Expr) returns (j: Option<nat>)
    ensures j == FirstEqual(tl, e, 0)
  {
    var k := 0;
    while k < |tl|
      invariant k <= |tl| && FirstEqual(tl, e, 0) == FirstEqual(tl, e, k)
    {
      if Answers(tl[k], e) {
        return Some(k);
      }
      k := k + 1;
    }
    return None;
  }

  /** Found exactly when there is one, and then it is the first. */
  lemma {:induction false} FirstEqualFound(tl: seq<Expr>, e: Expr, k: nat)
    requires k <= |tl|
    ensures FirstEqual(tl, e, k).Some? <==> exists j | k <= j < |tl| :: Answers(tl[j], e)
    ensures var j := FirstEqual(tl, e, k); j.Some? ==> forall m | k <= m < j.value :: !Answers(tl[m], e)
    decreases |tl| - k
  {
    if k < |tl| { FirstEqualFound(tl, e, k + 1); }
  }

  // ---------------------------------------------------------------- rewriting for a child plan

  /** rewrite_with_child_targetlist: columns become positions of the child's row; the values of IN
      lists and second aggregate arguments are only copied. None stands for the thrown error. */
  function ChildRewrite(tl: seq<Expr>, e: Expr): Option<Expr>
    decreases e, 1
  {
    match e
    case ColumnVar(_, key, _) =>
      var j :- FirstColumn(tl, key, false, 0);
      Some(Var(tl[j].ti, tl[j].key, tl[j].rte, InputOuter, j + 1))
    case Var(_, _, _, _, _) => Some(DeepCopy(e))
    case Constant(_, _, _) => Some(DeepCopy(e))
    case UOper(ti, op, x) => var x' :- ChildRewrite(tl, x); Some(UOper(ti, op, x'))
    case BinOper(ti, op, q, x, y) =>
      var x' :- ChildRewrite(tl, x);
      var y' :- ChildRewrite(tl, y);
      Some(BinOper(ti, op, q, x', y'))
    case InValues(x, vs) => var x' :- ChildRewrite(tl, x); Some(InValues(x', DeepCopyAll(vs)))
    case CaseExpr(ti, conds, results, otherwise) =>
      var conds' :- ChildRewriteAll(tl, conds);
      var results' :- ChildRewriteAll(tl, results);
      (match otherwise
       case None => Some(CaseExpr(ti, conds', results', None))
       case Some(x) => var x' :- ChildRewrite(tl, x); Some(CaseExpr(ti, conds', results', Some(x'))))
    case AggExpr(ti, agg, arg, distinct, arg1) =>
      (match arg
       case None => Some(e)
       case Some(x) => var x' :- ChildRewrite(tl, x); Some(AggExpr(ti, agg, Some(x'), distinct, arg1)))
    case DateTrunc(ti, field, x) => var x' :- ChildRewrite(tl, x); Some(DateTrunc(ti, field, x'))
    case DateAdd(ti, field, x, y) =>
      var x' :- ChildRewrite(tl, x);
      var y' :- ChildRewrite(tl, y);
      Some(DateAdd(ti, field, x', y'))
  }

  function ChildRewriteAll(tl: seq<Expr>, es: seq<Expr>): (r: Option<seq<Expr>>)
    ensures r.Some? ==> |r.value| == |es|
    decreases es, 0
  {
    if es == [] then Some([])
    else
      var x :- ChildRewrite(tl, es[0]);
      var xs :- ChildRewriteAll(tl, es[1..]);
      Some([x] + xs)
  }

  /** The keys of the columns that the rewrite has to replace. */
  function UsedKeys(e: Expr): set<ColumnKey>
    decreases e, 1
  {
    match e
    case ColumnVar(_, key, _) => {key}
    case Var(_, _, _, _, _) => {}
    case Constant(_, _, _) => {}
    case UOper(_, _, x) => UsedKeys(x)
    case BinOper(_, _, _, x, y) => UsedKeys(x) + UsedKeys(y)
    case InValues(x, _) => UsedKeys(x)
    case CaseExpr(_, conds, results, otherwise) =>
      UsedKeysAll(conds) + UsedKeysAll(results) + (match otherwise case None => {} case Some(x) => UsedKeys(x))
    case AggExpr(_, _, arg, _, _) => (match arg case None => {} case Some(x) => UsedKeys(x))
    case DateTrunc(_, _, x) => UsedKeys(x)
    case DateAdd(_, _, x, y) => UsedKeys(x) + UsedKeys(y)
  }

  function UsedKeysAll(es: seq<Expr>): set<ColumnKey>
    decreases es, 0
  {
    if es == [] then {} else UsedKeys(es[0]) + UsedKeysAll(es[1..])
  }

  /** The rewrite succeeds exactly when every column used is found. */
  lemma {:induction false} ChildRewriteSucceedsIff(tl: seq<Expr>, e: Expr)
    ensures ChildRewrite(tl, e).Some? <==> forall key | key in UsedKeys(e) :: FirstColumn(tl, key, false, 0).Some?
    decreases e, 1
  {
    match e
    case ColumnVar(_, key, _) => assert key in UsedKeys(e);
    case UOper(_, _, x) => ChildRewriteSucceedsIff(tl, x);
    case BinOper(_, _, _, x, y) => ChildRewriteSucceedsIff(tl, x); ChildRewriteSucceedsIff(tl, y);
    case InValues(x, _) => ChildRewriteSucceedsIff(tl, x);
    case CaseExpr(_, conds, results, otherwise) =>
      ChildRewriteAllSucceedsIff(tl, conds); ChildRewriteAllSucceedsIff(tl, results);
      if otherwise.Some? { ChildRewriteSucceedsIff(tl, otherwise.value); }
    case AggExpr(_, _, arg, _, _) => if arg.Some? { ChildRewriteSucceedsIff(tl, arg.value); }
    case DateTrunc(_, _, x) => ChildRewriteSucceedsIff(tl, x);
    case DateAdd(_, _, x, y) => ChildRewriteSucceedsIff(tl, x); ChildRewriteSucceedsIff(tl, y);
    case _ =>
  }

  lemma {:induction false} ChildRewriteAllSucceedsIff(tl: seq<Expr>, es: seq<Expr>)
    ensures ChildRewriteAll(tl, es).Some? <==>
            forall key | key in UsedKeysAll(es) :: FirstColumn(tl, key, false, 0).Some?
    decreases es, 0
  {
    if es != [] { ChildRewriteSucceedsIff(tl, es[0]); ChildRewriteAllSucceedsIff(tl, es[1..]); }
  }

  /** With a target list of columns only: exactly when every column used is in the list. */
  lemma ChildRewriteOfColumnsSucceedsIff(tl: seq<Expr>, e: Expr)
    requires forall k | 0 <= k < |tl| :: IsColumn(tl[k])
    ensures ChildRewrite(tl, e).Some? <==> UsedKeys(e) <= set k | 0 <= k < |tl| && IsColumn(tl[k]) :: tl[k].key
  {
    ChildRewriteSucceedsIff(tl, e);
    forall key
      ensures FirstColumn(tl, key, false, 0).Some? <==> key in set k | 0 <= k < |tl| && IsColumn(tl[k]) :: tl[k].key
    {
      FirstColumnFound(tl, key, false, 0);
    }
  }

  // ---------------------------------------------------------------- and its meaning

  /** A search for the column e finds one of the same range-table entry, if it finds one; a position
      without an entry is not one. */
  predicate FindsItself(tl: seq<Expr>, e: Expr, skipAggs: bool)
    requires e.ColumnVar?
  {
    var j := FirstColumn(tl, e.key, skipAggs, 0);
    j.Some? ==> tl[j.value].rte == e.rte && (e.rte == -1 ==> tl[j.value].ColumnVar?)
  }

  /** Every column that the rewrite for a child plan replaces finds one of its own entry. */
  predicate ChildReady(tl: seq<Expr>, e: Expr)
    decreases e, 1
  {
    match e
    case ColumnVar(_, _, _) => FindsItself(tl, e, false)
    case Var(_, _, _, _, _) => true
    case Constant(_, _, _) => true
    case UOper(_, _, x) => ChildReady(tl, x)
    case BinOper(_, _, _, x, y) => ChildReady(tl, x) && ChildReady(tl, y)
    case InValues(x, _) => ChildReady(tl, x)
    case CaseExpr(_, conds, results, otherwise) =>
      ChildReadyAll(tl, conds) && ChildReadyAll(tl, results) &&
      (match otherwise case None => true case Some(x) => ChildReady(tl, x))
    case AggExpr(_, _, arg, _, _) => (match arg case None => true case Some(x) => ChildReady(tl, x))
    case DateTrunc(_, _, x) => ChildReady(tl, x)
    case DateAdd(_, _, x, y) => ChildReady(tl, x) && ChildReady(tl, y)
  }

  predicate ChildReadyAll(tl: seq<Expr>, es: seq<Expr>)
    decreases es, 0
  {
    es == [] || (ChildReady(tl, es[0]) && ChildReadyAll(tl, es[1..]))
  }

  /** What copied parts read: positions, IN lists and second aggregate arguments. */
  function Copied(e: Expr): set<Leaf>
    decreases e, 1
  {
    match e
    case ColumnVar(_, _, _) => {}
    case Var(_, _, _, which, varno) => {Place(which, varno)}
    case Constant(_, _, _) => {}
    case UOper(_, _, x) => Copied(x)
    case BinOper(_, _, _, x, y) => Copied(x) + Copied(y)
    case InValues(x, vs) => Copied(x) + LeavesAll(vs)
    case CaseExpr(_, conds, results, otherwise) =>
      CopiedAll(conds) + CopiedAll(results) + (match otherwise case None => {} case Some(x) => Copied(x))
    case AggExpr(_, _, arg, _, arg1) =>
      (match arg case None => {} case Some(x) => Copied(x)) + (match arg1 case None => {} case Some(x) => Leaves(x))
    case DateTrunc(_, _, x) => Copied(x)
    case DateAdd(_, _, x, y) => Copied(x) + Copied(y)
  }

  function CopiedAll(es: seq<Expr>): set<Leaf>
    decreases es, 0
  {
    if es == [] then {} else Copied(es[0]) + CopiedAll(es[1..])
  }

  /** A position of the target list that names a range-table entry holds the value of the base column
      it is named after. */
  ghost predicate Traces(tl: seq<Expr>, r: Row) {
    forall k | 0 <= k < |tl| && tl[k].Var? && tl[k].rte != -1 ::
      Position(r, tl[k].which, tl[k].varno) == r.base(tl[k].rte, tl[k].key)
  }

  /** r' is the row that the child plan makes of r. */
  ghost predicate Projects(i: Interp, tl: seq<Expr>, r: Row, r': Row, group: seq<Row>) {
    Traces(tl, r) && r'.outer == EvalAll(i, tl, r, group)
  }

  ghost predicate ProjectsAll(i: Interp, tl: seq<Expr>, g: seq<Row>, g': seq<Row>) {
    |g| == |g'| && forall k | 0 <= k < |g| :: Projects(i, tl, g[k], g'[k], g)
  }

  lemma ColumnLookedUp(i: Interp, tl: seq<Expr>, e: Expr, r: Row, g: seq<Row>, out: Row, skipAggs: bool)
    requires Projects(i, tl, r, out, g) && e.ColumnVar? && FindsItself(tl, e, skipAggs)
    requires FirstColumn(tl, e.key, skipAggs, 0).Some?
    ensures out.outer[FirstColumn(tl, e.key, skipAggs, 0).value] == Eval(i, e, r, g)
  {
  }

  /** The rewritten expression on the child's rows means what the original means on the base rows,
      if the child's rows still offer what copied parts read, which is usually nothing. */
  lemma {:induction false} ChildRewriteSameMeaning(i: Interp, tl: seq<Expr>, e: Expr, leaves: set<Leaf>, r: Row,
      g: seq<Row>, r': Row, g': seq<Row>)
    requires ChildRewrite(tl, e).Some? && ChildReady(tl, e)
    requires Projects(i, tl, r, r', g) && ProjectsAll(i, tl, g, g')
    requires Copied(e) <= leaves && SameOn(leaves, r, r') && GroupsSameOn(leaves, g, g')
    ensures Eval(i, ChildRewrite(tl, e).value, r', g') == Eval(i, e, r, g)
    decreases e, 1
  {
    hide FindsItself, FirstColumn, Traces;
    match e
    case ColumnVar(_, _, _) => ColumnLookedUp(i, tl, e, r, g, r', false);
    case Var(_, _, _, which, varno) => assert LeafValue(r, Place(which, varno)) == LeafValue(r', Place(which, varno));
    case Constant(_, _, _) =>
    case UOper(_, _, x) => ChildRewriteSameMeaning(i, tl, x, leaves, r, g, r', g');
    case BinOper(_, _, _, x, y) =>
      ChildRewriteSameMeaning(i, tl, x, leaves, r, g, r', g');
      ChildRewriteSameMeaning(i, tl, y, leaves, r, g, r', g');
    case InValues(x, vs) =>
      ChildRewriteSameMeaning(i, tl, x, leaves, r, g, r', g');
      CopyAllSameMeaning(i, vs, r', g');
      AllReadOnlyTheirLeaves(i, vs, leaves, r, g, r', g');
    case CaseExpr(_, conds, results, otherwise) =>
      ChildRewriteAllSameMeaning(i, tl, conds, leaves, r, g, r', g');
      ChildRewriteAllSameMeaning(i, tl, results, leaves, r, g, r', g');
      if otherwise.Some? { ChildRewriteSameMeaning(i, tl, otherwise.value, leaves, r, g, r', g'); }
    case AggExpr(_, _, _, _, _) => ChildRewriteSameAggregate(i, tl, e, leaves, r, g, r', g');
    case DateTrunc(_, _, x) => ChildRewriteSameMeaning(i, tl, x, leaves, r, g, r', g');
    case DateAdd(_, _, x, y) =>
      ChildRewriteSameMeaning(i, tl, x, leaves, r, g, r', g');
      ChildRewriteSameMeaning(i, tl, y, leaves, r, g, r', g');
  }

  lemma {:induction false} ChildRewriteSameAggregate(i: Interp, tl: seq<Expr>, e: Expr, leaves: set<Leaf>, r: Row,
      g: seq<Row>, r': Row, g': seq<Row>)
    requires e.AggExpr? && ChildRewrite(tl, e).Some? && ChildReady(tl, e) && ProjectsAll(i, tl, g, g')
    requires Copied(e) <= leaves && SameOn(leaves, r, r') && GroupsSameOn(leaves, g, g')
    ensures Eval(i, ChildRewrite(tl, e).value, r', g') == Eval(i, e, r, g)
    decreases e, 0
  {
    if e.arg1.Some? { ReadsOnlyItsLeaves(i, e.arg1.value, leaves, r, g, r', g'); }
    if e.aggArg.Some? {
      var x, x' := e.aggArg.value, ChildRewrite(tl, e.aggArg.value).value;
      forall k | 0 <= k < |g| ensures Eval(i, x', g'[k], g') == Eval(i, x, g[k], g) {
        ChildRewriteSameMeaning(i, tl, x, leaves, g[k], g, g'[k], g');
      }
      assert EvalRows(i, x', g', g') == EvalRows(i, x, g, g);
    }
  }

  lemma {:induction false} ChildRewriteAllSameMeaning(i: Interp, tl: seq<Expr>, es: seq<Expr>, leaves: set<Leaf>,
      r: Row, g: seq<Row>, r': Row, g': seq<Row>)
    requires ChildRewriteAll(tl, es).Some? && ChildReadyAll(tl, es)
    requires Projects(i, tl, r, r', g) && ProjectsAll(i, tl, g, g')
    requires CopiedAll(es) <= leaves && SameOn(leaves, r, r') && GroupsSameOn(leaves, g, g')
    ensures EvalAll(i, ChildRewriteAll(tl, es).value, r', g') == EvalAll(i, es, r, g)
    decreases es, 0
  {
    if es != [] {
      ChildRewriteSameMeaning(i, tl, es[0], leaves, r, g, r', g');
      ChildRewriteAllSameMeaning(i, tl, es[1..], leaves, r, g, r', g');
    }
  }

  /** A key that names two range-table entries is read from the wrong one: the column it finds need
      not be the column asked for. */
  lemma SelfJoinReadsTheWrongSide(i: Interp, ti: Type, key: ColumnKey, r: Row, r': Row)
    requires r.base(0, key) != r.base(1, key)
    requires r'.outer == EvalAll(i, [ColumnVar(ti, key, 0), ColumnVar(ti, key, 1)], r, [])
    ensures var e' := ChildRewrite([ColumnVar(ti, key, 0), ColumnVar(ti, key, 1)], ColumnVar(ti, key, 1));
            e'.Some? && Eval(i, e'.value, r', []) != Eval(i, ColumnVar(ti, key, 1), r, [])
  {
  }

  // ---------------------------------------------------------------- rewriting HAVING over aggregates

  /** The type an expression yields; the test of an IN list is a boolean. */
  function TypeOf(e: Expr): Type {
    if e.InValues? then Type(Boolean, 0, 0, false) else e.ti
  }

  const NO_KEY := ColumnKey(0, 0, 0)

  /** rewrite_agg_to_var: aggregates and columns become positions of the aggregate plan's row. */
  function AggRewrite(tl: seq<Expr>, e: Expr): Option<Expr>
    decreases e, 1
  {
    match e
    case ColumnVar(_, key, _) =>
      var j :- FirstColumn(tl, key, true, 0);
      Some(Var(tl[j].ti, tl[j].key, tl[j].rte, InputOuter, j + 1))
    case Var(_, _, _, _, _) =>
      var j :- FirstEqual(tl, e, 0);
      Some(Var(TypeOf(tl[j]), NO_KEY, -1, InputOuter, j + 1))
    case AggExpr(_, _, _, _, _) =>
      var j :- FirstEqual(tl, e, 0);
      Some(Var(TypeOf(tl[j]), NO_KEY, -1, InputOuter, j + 1))
    case Constant(_, _, _) => Some(DeepCopy(e))
    case UOper(ti, op, x) => var x' :- AggRewrite(tl, x); Some(UOper(ti, op, x'))
    case BinOper(ti, op, q, x, y) =>
      var x' :- AggRewrite(tl, x);
      var y' :- AggRewrite(tl, y);
      Some(BinOper(ti, op, q, x', y'))
    case InValues(x, vs) =>
      var vs' :- AggRewriteAll(tl, vs);
      var x' :- AggRewrite(tl, x);
      Some(InValues(x', vs'))
    case CaseExpr(ti, conds, results, otherwise) =>
      var conds' :- AggRewriteAll(tl, conds);
      var results' :- AggRewriteAll(tl, results);
      (match otherwise
       case None => Some(CaseExpr(ti, conds', results', None))
       case Some(x) => var x' :- AggRewrite(tl, x); Some(CaseExpr(ti, conds', results', Some(x'))))
    case DateTrunc(ti, field, x) => var x' :- AggRewrite(tl, x); Some(DateTrunc(ti, field, x'))
    case DateAdd(ti, field, x, y) =>
      var x' :- AggRewrite(tl, x);
      var y' :- AggRewrite(tl, y);
      Some(DateAdd(ti, field, x', y'))
  }

  function AggRewriteAll(tl: seq<Expr>, es: seq<Expr>): (r: Option<seq<Expr>>)
    ensures r.Some? ==> |r.value| == |es|
    decreases es, 0
  {
    if es == [] then Some([])
    else
      var x :- AggRewrite(tl, es[0]);
      var xs :- AggRewriteAll(tl, es[1..]);
      Some([x] + xs)
  }

  predicate NotAggregate(e: Expr) {
    !e.AggExpr?
  }

  /** No aggregate is left: the result can be computed from one row. */
  lemma {:induction false} AggRewriteLeavesNoAggregate(tl: seq<Expr>, e: Expr)
    requires AggRewrite(tl, e).Some?
    ensures All(NotAggregate, AggRewrite(tl, e).value)
    decreases e, 1
  {
    match e
    case UOper(_, _, x) => AggRewriteLeavesNoAggregate(tl, x);
    case BinOper(_, _, _, x, y) => AggRewriteLeavesNoAggregate(tl, x); AggRewriteLeavesNoAggregate(tl, y);
    case InValues(x, vs) => AggRewriteLeavesNoAggregate(tl, x); AggRewriteAllLeavesNoAggregate(tl, vs);
    case CaseExpr(_, conds, results, otherwise) =>
      AggRewriteAllLeavesNoAggregate(tl, conds); AggRewriteAllLeavesNoAggregate(tl, results);
      if otherwise.Some? { AggRewriteLeavesNoAggregate(tl, otherwise.value); }
    case DateTrunc(_, _, x) => AggRewriteLeavesNoAggregate(tl, x);
    case DateAdd(_, _, x, y) => AggRewriteLeavesNoAggregate(tl, x); AggRewriteLeavesNoAggregate(tl, y);
    case _ =>
  }

  lemma {:induction false} AggRewriteAllLeavesNoAggregate(tl: seq<Expr>, es: seq<Expr>)
    requires AggRewriteAll(tl, es).Some?
    ensures AllOf(NotAggregate, AggRewriteAll(tl, es).value)
    decreases es, 0
  {
    if es != [] { AggRewriteLeavesNoAggregate(tl, es[0]); AggRewriteAllLeavesNoAggregate(tl, es[1..]); }
  }

  /** What is looked up in the target list is right: a column of the same entry, or an expression
      that agrees with the one asked for. */
  predicate FindsItsLike(tl: seq<Expr>, e: Expr) {
    if e.ColumnVar? then FindsItself(tl, e, true)
    else var j := FirstEqual(tl, e, 0); j.Some? ==> Agree(tl[j.value], e)
  }

  predicate HavingReady(tl: seq<Expr>, e: Expr)
    decreases e, 1
  {
    match e
    case ColumnVar(_, _, _) => FindsItsLike(tl, e)
    case Var(_, _, _, _, _) => FindsItsLike(tl, e)
    case AggExpr(_, _, _, _, _) => FindsItsLike(tl, e)
    case Constant(_, _, _) => true
    case UOper(_, _, x) => HavingReady(tl, x)
    case BinOper(_, _, _, x, y) => HavingReady(tl, x) && HavingReady(tl, y)
    case InValues(x, vs) => HavingReady(tl, x) && HavingReadyAll(tl, vs)
    case CaseExpr(_, conds, results, otherwise) =>
      HavingReadyAll(tl, conds) && HavingReadyAll(tl, results) &&
      (match otherwise case None => true case Some(x) => HavingReady(tl, x))
    case DateTrunc(_, _, x) => HavingReady(tl, x)
    case DateAdd(_, _, x, y) => HavingReady(tl, x) && HavingReady(tl, y)
  }

  predicate HavingReadyAll(tl: seq<Expr>, es: seq<Expr>)
    decreases es, 0
  {
    es == [] || (HavingReady(tl, es[0]) && HavingReadyAll(tl, es[1..]))
  }

  /** What an agreeing entry of the target list holds is the value looked for. */
  lemma LookedUp(i: Interp, tl: seq<Expr>, e: Expr, r: Row, g: seq<Row>, out: Row)
    requires out.outer == EvalAll(i, tl, r, g) && !e.ColumnVar? && FirstEqual(tl, e, 0).Some? && FindsItsLike(tl, e)
    ensures out.outer[FirstEqual(tl, e, 0).value] == Eval(i, e, r, g)
  {
    AgreeSameMeaning(i, tl[FirstEqual(tl, e, 0).value], e, r, g);
  }

  /** A position without a range-table entry always finds its like, and so does an aggregate if
      neither it nor the aggregates listed have casts or second arguments. */
  lemma TransparentFindsItsLike(tl: seq<Expr>, e: Expr)
    requires (e.Var? && e.rte == -1) || (e.AggExpr? && All(Transparent, e))
    requires forall k | 0 <= k < |tl| && tl[k].AggExpr? :: All(Transparent, tl[k])
    ensures FindsItsLike(tl, e)
  {
    var j := FirstEqual(tl, e, 0);
    if j.Some? && e.AggExpr? {
      TransparentEqAgrees(e, tl[j.value]);
      AgreeSymmetric(e, tl[j.value]);
    }
  }

  /** HAVING on the aggregate plan's row means what it means on the group. */
  lemma {:induction false} AggRewriteSameMeaning(i: Interp, tl: seq<Expr>, e: Expr, r: Row, g: seq<Row>,
      out: Row, g': seq<Row>)
    requires AggRewrite(tl, e).Some? && HavingReady(tl, e) && Projects(i, tl, r, out, g)
    ensures Eval(i, AggRewrite(tl, e).value, out, g') == Eval(i, e, r, g)
    decreases e, 1
  {
    hide FindsItself, FirstColumn, FirstEqual, Traces, Agree;
    match e
    case ColumnVar(_, _, _) => ColumnLookedUp(i, tl, e, r, g, out, true);
    case Var(_, _, _, _, _) => LookedUp(i, tl, e, r, g, out);
    case AggExpr(_, _, _, _, _) => LookedUp(i, tl, e, r, g, out);
    case Constant(_, _, _) =>
    case UOper(_, _, x) => AggRewriteSameMeaning(i, tl, x, r, g, out, g');
    case BinOper(_, _, _, x, y) =>
      AggRewriteSameMeaning(i, tl, x, r, g, out, g');
      AggRewriteSameMeaning(i, tl, y, r, g, out, g');
    case InValues(x, vs) =>
      AggRewriteSameMeaning(i, tl, x, r, g, out, g');
      AggRewriteAllSameMeaning(i, tl, vs, r, g, out, g');
    case CaseExpr(_, conds, results, otherwise) =>
      AggRewriteAllSameMeaning(i, tl, conds, r, g, out, g');
      AggRewriteAllSameMeaning(i, tl, results, r, g, out, g');
      if otherwise.Some? { AggRewriteSameMeaning(i, tl, otherwise.value, r, g, out, g'); }
    case DateTrunc(_, _, x) => AggRewriteSameMeaning(i, tl, x, r, g, out, g');
    case DateAdd(_, _, x, y) =>
      AggRewriteSameMeaning(i, tl, x, r, g, out, g');
      AggRewriteSameMeaning(i, tl, y, r, g, out, g');
  }

  lemma {:induction false} AggRewriteAllSameMeaning(i: Interp, tl: seq<Expr>, es: seq<Expr>, r: Row,
      g: seq<Row>, out: Row, g': seq<Row>)
    requires AggRewriteAll(tl, es).Some? && HavingReadyAll(tl, es) && Projects(i, tl, r, out, g)
    ensures EvalAll(i, AggRewriteAll(tl, es).value, out, g') == EvalAll(i, es, r, g)
    decreases es, 0
  {
    if es != [] {
      AggRewriteSameMeaning(i, tl, es[0], r, g, out, g');
      AggRewriteAllSameMeaning(i, tl, es[1..], r, g, out, g');
    }
  }

  // ---------------------------------------------------------------- exactly when a look-up is right

  ghost predicate Reads(i: Interp, tl: seq<Expr>, e: Expr, e': Expr, r: Row, g: seq<Row>, out: Row, g': seq<Row>) {
    out.outer == EvalAll(i, tl, r, g) ==> Eval(i, e', out, g') == Eval(i, e, r, g)
  }

  /** On every row and group, e' on the row made of it has the value of e. */
  ghost predicate AlwaysReads(tl: seq<Expr>, e: Expr, e': Expr) {
    forall i: Interp, r: Row, g: seq<Row>, out: Row, g': seq<Row> :: Reads(i, tl, e, e', r, g, out, g')
  }

  lemma PositionReadsIff(tl: seq<Expr>, e: Expr, e': Expr, j: nat)
    requires j < |tl| && e'.Var? && e'.which.InputOuter? && e'.varno == j + 1
    ensures AlwaysReads(tl, e, e') <==> SameValue(tl[j], e)
  {
    forall i: Interp, r: Row, g: seq<Row>, out: Row, g': seq<Row>
      ensures SameValue(tl[j], e) ==> Reads(i, tl, e, e', r, g, out, g')
    {
      PositionReads(i, tl, e, e', j, r, g, out, g');
    }
    forall i: Interp, r: Row, g: seq<Row>
      ensures AlwaysReads(tl, e, e') ==> Eval(i, tl[j], r, g) == Eval(i, e, r, g)
    {
      var out := Row(r.base, EvalAll(i, tl, r, g), [], [], []);
      PositionReads(i, tl, e, e', j, r, g, out, g);
    }
  }

  lemma PositionReads(i: Interp, tl: seq<Expr>, e: Expr, e': Expr, j: nat, r: Row, g: seq<Row>, out: Row, g': seq<Row>)
    requires j < |tl| && e'.Var? && e'.which.InputOuter? && e'.varno == j + 1
    ensures Reads(i, tl, e, e', r, g, out, g') <==>
            (out.outer == EvalAll(i, tl, r, g) ==> Eval(i, tl[j], r, g) == Eval(i, e, r, g))
  {
  }

  /** In both rewrites a column reads back, whatever the rows hold, exactly when it finds a plain column
      of its range-table entry. */
  lemma ColumnReadsBackIff(tl: seq<Expr>, e: Expr, having: bool)
    requires e.ColumnVar? && FirstColumn(tl, e.key, having, 0).Some?
    ensures var e' := if having then AggRewrite(tl, e) else ChildRewrite(tl, e);
            var x := tl[FirstColumn(tl, e.key, having, 0).value];
            e'.Some? && (AlwaysReads(tl, e, e'.value) <==> x.ColumnVar? && x.rte == e.rte)
  {
    var j := FirstColumn(tl, e.key, having, 0).value;
    var e' := if having then AggRewrite(tl, e) else ChildRewrite(tl, e);
    PositionReadsIff(tl, e, e'.value, j);
    if tl[j].ColumnVar? {
      FreeSameIff(tl[j], e);
    } else {
      var r := FreeRow(0);
      assert Eval(FreeInterp(0), tl[j], r, []) != Eval(FreeInterp(0), e, r, []);
    }
    hide AlwaysReads;
  }

  // ---------------------------------------------------------------- positions that trace base columns

  /** On every row on which positions trace the base columns they name, e' has the value of e. */
  ghost predicate ReadsWhereTraced(tl: seq<Expr>, e: Expr, e': Expr) {
    forall i: Interp, r: Row, g: seq<Row>, out: Row, g': seq<Row> | Traces(tl, r) :: Reads(i, tl, e, e', r, g, out, g')
  }

  /** Positions start at 1, and no position is said to be two things. */
  predicate Placing(tl: seq<Expr>) {
    && (forall k | 0 <= k < |tl| && tl[k].Var? :: tl[k].varno >= 1)
    && (forall j, k | 0 <= j < |tl| && 0 <= k < |tl| && tl[j].Var? && tl[k].Var? &&
                      tl[j].which == tl[k].which && tl[j].varno == tl[k].varno ::
          tl[j].rte == tl[k].rte && tl[j].key == tl[k].key)
  }

  /** What a position is said to be; NULL if nothing. */
  function Named(tl: seq<Expr>, which: WhichRow, varno: int): Value {
    if tl == [] then Null
    else if tl[0].Var? && tl[0].which == which && tl[0].varno == varno then
      if tl[0].rte == -1 then Null else Column(0, tl[0].rte, tl[0].key)
    else Named(tl[1..], which, varno)
  }

  lemma {:induction false} NamedAt(tl: seq<Expr>, k: nat)
    requires Placing(tl) && k < |tl| && tl[k].Var?
    ensures Named(tl, tl[k].which, tl[k].varno) == if tl[k].rte == -1 then Null else Column(0, tl[k].rte, tl[k].key)
  {
    if !(tl[0].Var? && tl[0].which == tl[k].which && tl[0].varno == tl[k].varno) {
      assert tl[1..][k - 1] == tl[k];
      NamedAt(tl[1..], k - 1);
    }
  }

  function LastPosition(tl: seq<Expr>): (n: nat)
    ensures forall k | 0 <= k < |tl| && tl[k].Var? :: tl[k].varno <= n
  {
    if tl == [] then 0
    else
      var n := LastPosition(tl[1..]);
      assert forall k | 0 < k < |tl| :: tl[k] == tl[1..][k - 1];
      if tl[0].Var? && tl[0].varno > n then tl[0].varno else n
  }

  /** A row on which every position is what the target list says it is. */
  function TracedRow(tl: seq<Expr>): Row {
    var n := LastPosition(tl);
    Row((rte, key) => Column(0, rte, key), seq(n, k => Named(tl, InputOuter, k + 1)),
        seq(n, k => Named(tl, InputInner, k + 1)), seq(n, k => Named(tl, Output, k + 1)),
        seq(n, k => Named(tl, GroupBy, k + 1)))
  }

  lemma TracedAt(tl: seq<Expr>, k: nat)
    requires Placing(tl) && k < |tl| && tl[k].Var?
    ensures Position(TracedRow(tl), tl[k].which, tl[k].varno) ==
            if tl[k].rte == -1 then Null else Column(0, tl[k].rte, tl[k].key)
  {
    NamedAt(tl, k);
    hide Named, Column;
  }

  /** Where positions trace base columns, a column reads back exactly when it finds itself. */
  lemma ColumnReadsWhereTracedIff(tl: seq<Expr>, e: Expr, having: bool)
    requires e.ColumnVar? && FirstColumn(tl, e.key, having, 0).Some? && Placing(tl)
    ensures var e' := if having then AggRewrite(tl, e) else ChildRewrite(tl, e);
            e'.Some? && (ReadsWhereTraced(tl, e, e'.value) <==> FindsItself(tl, e, having))
  {
    var j := FirstColumn(tl, e.key, having, 0).value;
    var e' := (if having then AggRewrite(tl, e) else ChildRewrite(tl, e)).value;
    forall i: Interp, r: Row, g: seq<Row>, out: Row, g': seq<Row> | Traces(tl, r) && FindsItself(tl, e, having)
      ensures Reads(i, tl, e, e', r, g, out, g')
    {
      PositionReads(i, tl, e, e', j, r, g, out, g');
    }
    if !FindsItself(tl, e, having) {
      var r := TracedRow(tl);
      forall k | 0 <= k < |tl| && tl[k].Var? && tl[k].rte != -1
        ensures Position(r, tl[k].which, tl[k].varno) == r.base(tl[k].rte, tl[k].key)
      {
        TracedAt(tl, k);
      }
      var i := FreeInterp(0);
      var out := Row(r.base, EvalAll(i, tl, r, []), [], [], []);
      PositionReads(i, tl, e, e', j, r, [], out, []);
      Misread(tl, e, j);
    }
  }

  lemma Misread(tl: seq<Expr>, e: Expr, j: nat)
    requires e.ColumnVar? && j < |tl| && IsColumn(tl[j]) && Placing(tl)
    requires !(tl[j].rte == e.rte && (e.rte == -1 ==> tl[j].ColumnVar?))
    ensures Eval(FreeInterp(0), tl[j], TracedRow(tl), []) != Eval(FreeInterp(0), e, TracedRow(tl), [])
  {
    if tl[j].Var? { TracedAt(tl, j); }
    if tl[j].rte != e.rte { ColumnsTell(tl[j].rte, tl[j].key, e.rte, e.key); }
  }

  lemma ColumnsTell(rte: int, key: ColumnKey, rte': int, key': ColumnKey)
    requires rte != rte'
    ensures Column(0, rte, key) != Column(0, rte', key')
  {
    assert Column(0, rte, key).elems[2] != Column(0, rte', key').elems[2];
  }

  /** A position or an aggregate, of free arguments, reads back exactly when the entry found agrees. */
  lemma LookUpReadsBackIff(tl: seq<Expr>, e: Expr)
    requires (e.Var? || e.AggExpr?) && FirstEqual(tl, e, 0).Some?
    requires var x := tl[FirstEqual(tl, e, 0).value];
             if e.Var? then Free(e) && Free(x) else FreeAggregate(e) && FreeAggregate(x)
    ensures AggRewrite(tl, e).Some? && (AlwaysReads(tl, e, AggRewrite(tl, e).value) <==> FindsItsLike(tl, e))
  {
    var j := FirstEqual(tl, e, 0).value;
    PositionReadsIff(tl, e, AggRewrite(tl, e).value, j);
    hide AlwaysReads, SameValue;
    if e.Var? { FreeSameIff(tl[j], e); } else { AggregatesSameIff(tl[j], e); }
  }

  /** Tells the types cast to apart. */
  function CastTells(a: Type): Interp {
    Interp((c, v) => v, (ti, v) => Num(if ti == a then 0 else 1), (c, v, w) => v, (v, w) => true,
           (agg, d, v, n, vs) => if vs == [] then Null else vs[0], (f, v) => v, (f, v, w) => v)
  }

  predicate AggregatesCast(e: Expr) {
    e.AggExpr? && e.aggArg.Some? && e.aggArg.value.UOper? && e.aggArg.value.uop.Cast?
  }

  function WithoutCast(e: Expr): Expr
    requires AggregatesCast(e)
  {
    AggExpr(e.ti, e.agg, Some(e.aggArg.value.operand), e.distinct, e.arg1)
  }

  lemma CastsSameIff(a: Expr, b: Expr)
    requires AggregatesCast(a) && AggregatesCast(b) && Agree(WithoutCast(a), WithoutCast(b))
    ensures SameValue(a, b) <==> a.aggArg.value.ti == b.aggArg.value.ti
  {
    if a.aggArg.value.ti == b.aggArg.value.ti {
      AgreeIsSame(a, b);
    } else {
      var i, r := CastTells(a.aggArg.value.ti), FreeRow(0);
      hide Agree;
      assert EvalRows(i, a.aggArg.value, [r], [r]) == [Num(0)];
      assert EvalRows(i, b.aggArg.value, [r], [r]) == [Num(1)];
      assert Eval(i, a, r, [r]) != Eval(i, b, r, [r]);
    }
  }

  /** Equality ignores the type a cast goes to. So an aggregate of a cast may find, in whatever
      target list, one that differs from it only in that type, and read its value, which is right
      exactly when the types are the same. */
  lemma CastsAreTakenForEachOther(tl: seq<Expr>, e: Expr)
    requires AggregatesCast(e) && FirstEqual(tl, e, 0).Some?
    requires var x := tl[FirstEqual(tl, e, 0).value]; AggregatesCast(x) && Agree(WithoutCast(x), WithoutCast(e))
    ensures AggRewrite(tl, e).Some?
    ensures AlwaysReads(tl, e, AggRewrite(tl, e).value) <==>
            tl[FirstEqual(tl, e, 0).value].aggArg.value.ti == e.aggArg.value.ti
  {
    var j := FirstEqual(tl, e, 0).value;
    PositionReadsIff(tl, e, AggRewrite(tl, e).value, j);
    CastsSameIff(tl[j], e);
    hide AlwaysReads, SameValue, Agree;
  }

  /** Such a target list there is for any two types. */
  lemma CastsAreEqual(a: Type, b: Type, x: Expr)
    requires Eq(x, x)
    ensures var listed := AggExpr(a, 0, Some(UOper(a, Cast, x)), false, None);
            var asked := AggExpr(b, 0, Some(UOper(b, Cast, x)), false, None);
            FirstEqual([listed], asked, 0) == Some(0)
  {
    assert Eq(UOper(b, Cast, x), UOper(a, Cast, x));
    assert Eq(AggExpr(b, 0, Some(UOper(b, Cast, x)), false, None), AggExpr(a, 0, Some(UOper(a, Cast, x)), false, None));
  }

  /** A second argument that is a constant or absent, which counts as NULL. */
  function SecondValue(e: Expr): Value
    requires e.AggExpr? && (e.arg1.Some? ==> e.arg1.value.Constant?)
  {
    match e.arg1 case None => Null case Some(c) => ValueOf(c)
  }

  /** Tells second arguments of aggregates apart. */
  function SecondTells(): Interp {
    Interp((c, v) => v, (ti, v) => v, (c, v, w) => v, (v, w) => true,
           (agg, d, v, n, vs) => v, (f, v) => v, (f, v, w) => v)
  }

  /** So it is with the second argument of an aggregate, which equality ignores too. */
  lemma SecondArgumentsAreTakenForEachOther(tl: seq<Expr>, e: Expr)
    requires e.AggExpr? && FirstEqual(tl, e, 0).Some? && (e.arg1.Some? ==> e.arg1.value.Constant?)
    requires var x := tl[FirstEqual(tl, e, 0).value];
             && (x.arg1.Some? ==> x.arg1.value.Constant?)
             && Agree(AggExpr(x.ti, x.agg, x.aggArg, x.distinct, None),
                      AggExpr(e.ti, e.agg, e.aggArg, e.distinct, None))
    ensures AggRewrite(tl, e).Some?
    ensures AlwaysReads(tl, e, AggRewrite(tl, e).value) <==>
            SecondValue(tl[FirstEqual(tl, e, 0).value]) == SecondValue(e)
  {
    var j := FirstEqual(tl, e, 0).value;
    PositionReadsIff(tl, e, AggRewrite(tl, e).value, j);
    hide AlwaysReads;
    if SecondValue(tl[j]) == SecondValue(e) {
      AgreeIsSame(tl[j], e);
    } else {
      assert Eval(SecondTells(), tl[j], FreeRow(0), []) != Eval(SecondTells(), e, FreeRow(0), []);
    }
  }

  /** And there is one for any two second arguments. */
  lemma SecondArgumentsAreEqual(ti: Type, x: Expr, arg1: Option<Expr>, arg1': Option<Expr>)
    requires Eq(x, x)
    ensures FirstEqual([AggExpr(ti, 0, Some(x), false, arg1)], AggExpr(ti, 0, Some(x), false, arg1'), 0) == Some(0)
  {
    assert Eq(AggExpr(ti, 0, Some(x), false, arg1'), AggExpr(ti, 0, Some(x), false, arg1));
  }
}
