/** Splitting a WHERE condition into scan, join and constant predicates. */
module Predicates {
  import opened Expressions
  import opened Meaning
  import opened Options
  import opened Rewrite

  // ---------------------------------------------------------------- the split

  /** collect_rte_idx: the range-table entries of the columns, -1 for a position of a plan's row.
      The values of an IN list and the second argument of an aggregate are not visited. */
  function RteIndexes(e: Expr): set<int>
    decreases e, 1
  {
    match e
    case ColumnVar(_, _, rte) => {rte}
    case Var(_, _, _, _, _) => {-1}
    case Constant(_, _, _) => {}
    case UOper(_, _, x) => RteIndexes(x)
    case BinOper(_, _, _, x, y) => RteIndexes(x) + RteIndexes(y)
    case InValues(x, _) => RteIndexes(x)
    case CaseExpr(_, conds, results, otherwise) =>
      RteIndexesAll(conds) + RteIndexesAll(results) + (match otherwise case None => {} case Some(x) => RteIndexes(x))
    case AggExpr(_, _, arg, _, _) => (match arg case None => {} case Some(x) => RteIndexes(x))
    case DateTrunc(_, _, x) => RteIndexes(x)
    case DateAdd(_, _, x, y) => RteIndexes(x) + RteIndexes(y)
  }

  function RteIndexesAll(es: seq<Expr>): set<int>
    decreases es, 0
  {
    if es == [] then {} else RteIndexes(es[0]) + RteIndexesAll(es[1..])
  }

  function Conjuncts(e: Expr): seq<Expr> {
    if e.BinOper? && e.bop.And? then Conjuncts(e.left) + Conjuncts(e.right) else [e]
  }

  datatype Fate = Scan | Join | Const | Dropped

  /** Where one conjunct goes; constants and columns that are not boolean go nowhere. */
  function FateOf(e: Expr): Fate {
    if IsColumn(e) then (if e.ti.base.Boolean? then Scan else Dropped)
    else if e.Constant? then Dropped
    else if |RteIndexes(e)| > 1 then Join
    else if |RteIndexes(e)| == 1 then Scan
    else Const
  }

  function Select(es: seq<Expr>, fate: Fate): seq<Expr> {
    if es == [] then []
    else if FateOf(es[0]) == fate then [es[0]] + Select(es[1..], fate)
    else Select(es[1..], fate)
  }

  lemma {:induction false} SelectAppend(es: seq<Expr>, fs: seq<Expr>, fate: Fate)
    ensures Select(es + fs, fate) == Select(es, fate) + Select(fs, fate)
  {
    if es == [] {
      assert es + fs == fs;
    } else {
      assert (es + fs)[1..] == es[1..] + fs;
      SelectAppend(es[1..], fs, fate);
    }
  }

  /** An aggregate without an argument may not stand as a conjunct. */
  predicate Groupable(e: Expr) {
    forall x | x in Conjuncts(e) :: x.AggExpr? ==> x.aggArg.Some?
  }

  /** Only constants and columns that are not boolean go nowhere. */
  lemma DroppedIff(e: Expr)
    ensures FateOf(e).Dropped? <==> e.Constant? || ((e.ColumnVar? || e.Var?) && !e.ti.base.Boolean?)
  {
  }

  /** What is selected are the members with that fate. */
  lemma {:induction false} SelectedIff(es: seq<Expr>, fate: Fate, x: Expr)
    ensures x in Select(es, fate) <==> x in es && FateOf(x) == fate
  {
    if es != [] {
      assert es == [es[0]] + es[1..];
      SelectedIff(es[1..], fate, x);
    }
  }

  lemma KeptAreSelected(es: seq<Expr>)
    ensures forall x | x in es ::
              || x in Select(es, Scan) || x in Select(es, Join) || x in Select(es, Const)
              || x.Constant? || ((x.ColumnVar? || x.Var?) && !x.ti.base.Boolean?)
  {
    forall x | x in es ensures x in Select(es, FateOf(x)) {
      SelectedIff(es, FateOf(x), x);
    }
    forall x | x in es
      ensures FateOf(x).Dropped? <==> x.Constant? || ((x.ColumnVar? || x.Var?) && !x.ti.base.Boolean?)
    {
      DroppedIff(x);
    }
    hide FateOf, Select;
  }

  lemma AndSelects(e: Expr)
    requires e.BinOper? && e.bop.And? && Groupable(e)
    ensures forall fate ::
              Select(Conjuncts(e), fate) == Select(Conjuncts(e.left), fate) + Select(Conjuncts(e.right), fate)
    ensures Groupable(e.left) && Groupable(e.right)
  {
    forall fate
      ensures Select(Conjuncts(e), fate) == Select(Conjuncts(e.left), fate) + Select(Conjuncts(e.right), fate)
    {
      SelectAppend(Conjuncts(e.left), Conjuncts(e.right), fate);
    }
  }

  /** No conjunct is itself an AND. */
  lemma {:induction false} ConjunctsAreWhole(e: Expr)
    ensures Conjuncts(e) != [] && forall x | x in Conjuncts(e) :: !(x.BinOper? && x.bop.And?)
  {
    if e.BinOper? && e.bop.And? { ConjunctsAreWhole(e.left); ConjunctsAreWhole(e.right); }
  }

  /** group_predicates, the three lists being threaded through. */
  method GroupPredicates(e: Expr, scan: seq<Expr>, join: seq<Expr>, constants: seq<Expr>)
    returns (scan': seq<Expr>, join': seq<Expr>, constants': seq<Expr>)
    requires Groupable(e)
    ensures scan' == scan + Select(Conjuncts(e), Scan)
    ensures join' == join + Select(Conjuncts(e), Join)
    ensures constants' == constants + Select(Conjuncts(e), Const)
    ensures forall x | x in Conjuncts(e) ::
              || x in scan' || x in join' || x in constants'
              || x.Constant? || ((x.ColumnVar? || x.Var?) && !x.ti.base.Boolean?)
    decreases e
  {
    KeptAreSelected(Conjuncts(e));
    scan', join', constants' := scan, join, constants;
    if e.BinOper? && e.bop.And? {
      AndSelects(e);
      hide *;
      scan', join', constants' := GroupPredicates(e.left, scan, join, constants);
      scan', join', constants' := GroupPredicates(e.right, scan', join', constants');
    } else if IsColumn(e) {
      if e.ti.base.Boolean? {
        scan' := scan + [e];
      }
    } else if !e.Constant? {
      var entries := RteIndexes(e);
      if |entries| > 1 {
        join' := join + [e];
      } else if |entries| == 1 {
        scan' := scan + [e];
      } else {
        constants' := constants + [e];
      }
    }
  }

  // ---------------------------------------------------------------- conservation

  /** Every conjunct is in exactly one place, as often as it occurs. */
  lemma {:induction false} SplitConserves(es: seq<Expr>)
    ensures multiset(es) == multiset(Select(es, Scan)) + multiset(Select(es, Join)) +
                            multiset(Select(es, Const)) + multiset(Select(es, Dropped))
  {
    if es != [] {
      SplitConserves(es[1..]);
      assert es == [es[0]] + es[1..];
    }
  }

  /** The conjunction of a list on a row. */
  function AllTrue(i: Interp, es: seq<Expr>, r: Row, g: seq<Row>): Truth {
    if es == [] then True else And3(TruthOf(Eval(i, es[0], r, g)), AllTrue(i, es[1..], r, g))
  }

  lemma {:induction false} AllTrueAppend(i: Interp, es: seq<Expr>, fs: seq<Expr>, r: Row, g: seq<Row>)
    ensures AllTrue(i, es + fs, r, g) == And3(AllTrue(i, es, r, g), AllTrue(i, fs, r, g))
  {
    if es == [] {
      assert es + fs == fs;
    } else {
      assert (es + fs)[1..] == es[1..] + fs;
      AllTrueAppend(i, es[1..], fs, r, g);
    }
  }

  lemma {:induction false} ConjunctsMean(i: Interp, e: Expr, r: Row, g: seq<Row>)
    ensures AllTrue(i, Conjuncts(e), r, g) == TruthOf(Eval(i, e, r, g))
    decreases e
  {
    if e.BinOper? && e.bop.And? {
      ConjunctsMean(i, e.left, r, g);
      ConjunctsMean(i, e.right, r, g);
      AllTrueAppend(i, Conjuncts(e.left), Conjuncts(e.right), r, g);
    } else {
      assert Conjuncts(e)[1..] == [];
    }
  }

  /** What the three lists mean together. */
  function Kept(i: Interp, es: seq<Expr>, r: Row, g: seq<Row>): Truth {
    And3(AllTrue(i, Select(es, Scan), r, g),
         And3(AllTrue(i, Select(es, Join), r, g), AllTrue(i, Select(es, Const), r, g)))
  }

  lemma {:induction false} SplitMeans(i: Interp, es: seq<Expr>, r: Row, g: seq<Row>)
    ensures AllTrue(i, es, r, g) == And3(Kept(i, es, r, g), AllTrue(i, Select(es, Dropped), r, g))
  {
    if es != [] {
      SplitMeans(i, es[1..], r, g);
      forall fate ensures AllTrue(i, Select(es, fate), r, g) ==
          if FateOf(es[0]) == fate then And3(TruthOf(Eval(i, es[0], r, g)), AllTrue(i, Select(es[1..], fate), r, g))
          else AllTrue(i, Select(es[1..], fate), r, g)
      {
        assert FateOf(es[0]) == fate ==> Select(es, fate)[1..] == Select(es[1..], fate);
      }
    }
  }

  /** On every row: the condition is the conjunction of the three lists and of what was dropped. */
  lemma GroupingMeans(i: Interp, e: Expr, r: Row, g: seq<Row>)
    ensures TruthOf(Eval(i, e, r, g)) ==
            And3(Kept(i, Conjuncts(e), r, g), AllTrue(i, Select(Conjuncts(e), Dropped), r, g))
  {
    ConjunctsMean(i, e, r, g);
    SplitMeans(i, Conjuncts(e), r, g);
  }

  /** So the lists let exactly the right rows through if there are no bare constants and columns that
      are not boolean. */
  lemma GroupingPreservesFilter(i: Interp, e: Expr, r: Row, g: seq<Row>)
    requires forall x | x in Conjuncts(e) :: !x.Constant? && (x.ColumnVar? || x.Var? ==> x.ti.base.Boolean?)
    ensures Kept(i, Conjuncts(e), r, g) == TruthOf(Eval(i, e, r, g))
  {
    GroupingMeans(i, e, r, g);
    NoneSelected(Conjuncts(e), Dropped);
  }

  lemma {:induction false} NoneSelected(es: seq<Expr>, fate: Fate)
    requires forall x | x in es :: FateOf(x) != fate
    ensures Select(es, fate) == []
  {
    if es != [] { NoneSelected(es[1..], fate); }
  }

  /** WHERE FALSE lets every row through: all three lists are empty. */
  lemma WhereFalsePassesEverything(i: Interp, ti: Type, r: Row, g: seq<Row>)
    ensures var e := Constant(ti, false, Bool(false));
            Kept(i, Conjuncts(e), r, g).True? && TruthOf(Eval(i, e, r, g)).False?
  {
    var es := Conjuncts(Constant(ti, false, Bool(false)));
    NoneSelected(es, Scan);
    NoneSelected(es, Join);
    NoneSelected(es, Const);
  }

  ghost predicate PassesTheSame(i: Interp, e: Expr, r: Row, g: seq<Row>) {
    Kept(i, Conjuncts(e), r, g).True? <==> TruthOf(Eval(i, e, r, g)).True?
  }

  predicate IsTrueConstant(e: Expr) {
    e.Constant? && !e.isNull && e.val == Bool(true)
  }

  /** When there are no bare columns but boolean ones: the lists pass the same rows as the condition exactly when
      every constant among its conjuncts is TRUE, or when they pass no row at all. */
  lemma FilterPreservedIff(i: Interp, e: Expr, g: seq<Row>)
    requires forall x | x in Conjuncts(e) && (x.ColumnVar? || x.Var?) :: x.ti.base.Boolean?
    ensures (forall r: Row :: PassesTheSame(i, e, r, g)) <==>
            || (forall x | x in Conjuncts(e) && x.Constant? :: IsTrueConstant(x))
            || (forall r: Row :: !Kept(i, Conjuncts(e), r, g).True?)
  {
    hide Kept, Eval, Conjuncts, PassesTheSame;
    forall r: Row
      ensures PassesTheSame(i, e, r, g) <==>
              (Kept(i, Conjuncts(e), r, g).True? ==> forall x | x in Conjuncts(e) && x.Constant? :: IsTrueConstant(x))
    {
      DroppedConstants(i, Conjuncts(e), r, g);
      PassesIff(i, e, r, g);
    }
  }

  lemma PassesIff(i: Interp, e: Expr, r: Row, g: seq<Row>)
    ensures PassesTheSame(i, e, r, g) <==>
            (Kept(i, Conjuncts(e), r, g).True? ==> AllTrue(i, Select(Conjuncts(e), Dropped), r, g).True?)
  {
    GroupingMeans(i, e, r, g);
  }

  lemma {:induction false} DroppedConstants(i: Interp, es: seq<Expr>, r: Row, g: seq<Row>)
    requires forall x | x in es && FateOf(x) == Dropped :: x.Constant?
    ensures AllTrue(i, Select(es, Dropped), r, g).True? <==> forall x | x in es && x.Constant? :: IsTrueConstant(x)
  {
    if es != [] {
      DroppedConstants(i, es[1..], r, g);
      assert es == [es[0]] + es[1..];
      assert FateOf(es[0]) == Dropped ==> Select(es, Dropped)[1..] == Select(es[1..], Dropped);
    }
  }

  // ---------------------------------------------------------------- whether a predicate is in the right list

  /** The entries that are not collected: those named in IN lists and second aggregate arguments. */
  function Unvisited(e: Expr): set<int>
    decreases e, 1
  {
    match e
    case ColumnVar(_, _, _) => {}
    case Var(_, _, _, _, _) => {}
    case Constant(_, _, _) => {}
    case UOper(_, _, x) => Unvisited(x)
    case BinOper(_, _, _, x, y) => Unvisited(x) + Unvisited(y)
    case InValues(x, vs) => Unvisited(x) + EntriesAll(vs)
    case CaseExpr(_, conds, results, otherwise) =>
      UnvisitedAll(conds) + UnvisitedAll(results) + (match otherwise case None => {} case Some(x) => Unvisited(x))
    case AggExpr(_, _, arg, _, arg1) =>
      (match arg case None => {} case Some(x) => Unvisited(x)) + (match arg1 case None => {} case Some(x) => Entries(x))
    case DateTrunc(_, _, x) => Unvisited(x)
    case DateAdd(_, _, x, y) => Unvisited(x) + Unvisited(y)
  }

  function UnvisitedAll(es: seq<Expr>): set<int>
    decreases es, 0
  {
    if es == [] then {} else Unvisited(es[0]) + UnvisitedAll(es[1..])
  }

  /** Every entry is collected or in a part that is not visited. */
  lemma {:induction false} CollectedOrUnvisited(e: Expr)
    ensures Entries(e) == RteIndexes(e) + Unvisited(e)
    decreases e, 1
  {
    match e
    case UOper(_, _, x) => CollectedOrUnvisited(x);
    case BinOper(_, _, _, x, y) => CollectedOrUnvisited(x); CollectedOrUnvisited(y);
    case InValues(x, vs) => CollectedOrUnvisited(x);
    case CaseExpr(_, conds, results, otherwise) =>
      AllCollectedOrUnvisited(conds); AllCollectedOrUnvisited(results);
      if otherwise.Some? { CollectedOrUnvisited(otherwise.value); }
    case AggExpr(_, _, arg, _, _) => if arg.Some? { CollectedOrUnvisited(arg.value); }
    case DateTrunc(_, _, x) => CollectedOrUnvisited(x);
    case DateAdd(_, _, x, y) => CollectedOrUnvisited(x); CollectedOrUnvisited(y);
    case _ =>
  }

  lemma {:induction false} AllCollectedOrUnvisited(es: seq<Expr>)
    ensures EntriesAll(es) == RteIndexesAll(es) + UnvisitedAll(es)
    decreases es, 0
  {
    if es != [] { CollectedOrUnvisited(es[0]); AllCollectedOrUnvisited(es[1..]); }
  }

  /** Whatever stands in the parts not visited, the same entries are collected. */
  lemma UnvisitedPartsDoNotCount(e: Expr, vs: seq<Expr>, arg1: Option<Expr>)
    ensures e.InValues? ==> RteIndexes(e.(values := vs)) == RteIndexes(e)
    ensures e.AggExpr? ==> RteIndexes(e.(arg1 := arg1)) == RteIndexes(e)
  {
  }

  /** The list a predicate belongs to: by no entry, one or more of all its columns. */
  function Belongs(e: Expr): Fate {
    if |Entries(e)| > 1 then Join else if |Entries(e)| == 1 then Scan else Const
  }

  /** A predicate that is no constant, and boolean if a column, is in the list it belongs to exactly
      when it is a join by the entries collected already, or no other entry is named in the parts not
      visited. */
  lemma ListedWhereItBelongsIff(e: Expr)
    requires !e.Constant? && (e.ColumnVar? || e.Var? ==> e.ti.base.Boolean?)
    ensures FateOf(e) == Belongs(e) <==> |RteIndexes(e)| > 1 || Unvisited(e) <= RteIndexes(e)
  {
    CollectedOrUnvisited(e);
    var s, t := RteIndexes(e), Entries(e);
    assert FateOf(e) == if |s| > 1 then Join else if |s| == 1 then Scan else Const;
    hide RteIndexes, Entries, Unvisited, FateOf;
    GrownSize(s, t);
    assert s == t <==> Unvisited(e) <= s;
  }

  lemma GrownSize<T>(s: set<T>, t: set<T>)
    requires s <= t
    ensures |s| <= |t| && (|s| == |t| <==> s == t)
  {
    assert t == s + (t - s);
  }

  /** A predicate that is where it belongs depends only on the entries collected: a constant one on
      no table, a scan predicate on the one it is pushed down to. */
  lemma PlacedByWhatItReads(i: Interp, e: Expr, r: Row, g: seq<Row>, r': Row, g': seq<Row>)
    requires Unvisited(e) <= RteIndexes(e)
    requires SameEntries(RteIndexes(e), r, r') && GroupsSameEntries(RteIndexes(e), g, g')
    ensures Eval(i, e, r, g) == Eval(i, e, r', g')
    ensures FateOf(e).Const? ==> RteIndexes(e) == {}
    ensures FateOf(e).Scan? ==> exists rte :: RteIndexes(e) == {rte}
  {
    CollectedOrUnvisited(e);
    ReadsOnlyItsEntries(i, e, RteIndexes(e), r, g, r', g');
    if FateOf(e).Scan? {
      var rte := OnlyMember(RteIndexes(e));
    }
  }

  lemma OnlyMember<T>(s: set<T>) returns (x: T)
    requires |s| == 1
    ensures s == {x}
  {
    x :| x in s;
    assert s == (s - {x}) + {x};
  }

  /** x IN (y) with the columns of two tables is taken for a scan of the first, yet depends on the second. */
  lemma InListColumnIsMissed(i: Interp, ti: Type, key: ColumnKey, r: Row, r': Row)
    requires r.base(0, key) == r'.base(0, key) == Num(7) && r.base(1, key) == Num(7) && r'.base(1, key) == Null
             && i.equal(Num(7), Num(7))
    ensures var e := InValues(ColumnVar(ti, key, 0), [ColumnVar(ti, key, 1)]);
            FateOf(e).Scan? && RteIndexes(e) == {0} && Eval(i, e, r, []) != Eval(i, e, r', [])
  {
    var e := InValues(ColumnVar(ti, key, 0), [ColumnVar(ti, key, 1)]);
    assert |RteIndexes(e)| == 1;
    assert EvalAll(i, e.values, r, []) == [Num(7)] && EvalAll(i, e.values, r', []) == [Null];
    assert IsIn(i, Num(7), [Num(7)]) == True && IsIn(i, Num(7), [Null]) == Unknown;
  }
}
