/** Collecting the distinct parts of an expression that satisfy a condition. */
module FindExpr {
  import opened Expressions
  import opened Options
  import opened Rewrite

  predicate Holds(list: seq<Expr>, e: Expr) {
    exists k | 0 <= k < |list| :: Eq(list[k], e)
  }

  predicate Distinct(list: seq<Expr>) {
    forall j, k | 0 <= j < k < |list| :: !Eq(list[j], list[k])
  }

  function AddAll(list: seq<Expr>, es: seq<Expr>): seq<Expr>
    decreases |es|
  {
    if es == [] then list else AddAll(if Holds(list, es[0]) then list else list + [es[0]], es[1..])
  }

  lemma {:induction false} AddAllAppend(list: seq<Expr>, es: seq<Expr>, fs: seq<Expr>)
    ensures AddAll(list, es + fs) == AddAll(AddAll(list, es), fs)
    decreases |es|
  {
    if es == [] {
      assert es + fs == fs;
    } else {
      assert (es + fs)[1..] == es[1..] + fs;
      AddAllAppend(if Holds(list, es[0]) then list else list + [es[0]], es[1..], fs);
    }
  }

  /** Earlier entries stay, later ones come from es, all are told apart by equality if they were
      before, and everything in es is there or equals something that is. */
  lemma {:induction false} AddAllCollects(list: seq<Expr>, es: seq<Expr>)
    ensures var out := AddAll(list, es);
            && list <= out
            && (forall k | |list| <= k < |out| :: out[k] in es)
            && (Distinct(list) ==> Distinct(out))
            && (forall e | e in es :: e in out || Holds(out, e))
    decreases |es|
  {
    if es != [] {
      var next := if Holds(list, es[0]) then list else list + [es[0]];
      AddAllCollects(next, es[1..]);
      var out := AddAll(next, es[1..]);
      assert next <= out && list <= next;
      forall e | e in es ensures e in out || Holds(out, e) {
        if e == es[0] {
          if Holds(list, e) {
            var k :| 0 <= k < |list| && Eq(list[k], e);
            assert out[k] == list[k];
          } else {
            assert out[|list|] == e;
          }
        } else {
          assert e in es[1..];
        }
      }
    }
  }

  // ---------------------------------------------------------------- the parts that match

  /** The matching parts of e that are not inside another one, left to right. The second argument
      of an aggregate is not looked into. */
  function Topmost(f: Expr -> bool, e: Expr): seq<Expr>
    decreases e, 1
  {
    if f(e) then [e] else
    match e
    case ColumnVar(_, _, _) => []
    case Var(_, _, _, _, _) => []
    case Constant(_, _, _) => []
    case UOper(_, _, x) => Topmost(f, x)
    case BinOper(_, _, _, x, y) => Topmost(f, x) + Topmost(f, y)
    case InValues(x, vs) => Topmost(f, x) + TopmostAll(f, vs)
    case CaseExpr(_, conds, results, otherwise) =>
      TopmostArms(f, e, 0) + (match otherwise case None => [] case Some(x) => Topmost(f, x))
    case AggExpr(_, _, arg, _, _) => (match arg case None => [] case Some(x) => Topmost(f, x))
    case DateTrunc(_, _, x) => Topmost(f, x)
    case DateAdd(_, _, x, y) => Topmost(f, x) + Topmost(f, y)
  }

  function TopmostAll(f: Expr -> bool, es: seq<Expr>): seq<Expr>
    decreases es, 0
  {
    if es == [] then [] else Topmost(f, es[0]) + TopmostAll(f, es[1..])
  }

  function TopmostArms(f: Expr -> bool, e: Expr, k: nat): seq<Expr>
    requires e.CaseExpr?
    decreases e, 0, |e.conds| - k
  {
    if k >= |e.conds| || k >= |e.results| then []
    else Topmost(f, e.conds[k]) + Topmost(f, e.results[k]) + TopmostArms(f, e, k + 1)
  }

  /** find_expr with add_unique, the list being threaded through. */
  method Find(f: Expr -> bool, e: Expr, list: seq<Expr>) returns (out: seq<Expr>)
    ensures out == AddAll(list, Topmost(f, e))
    decreases e
  {
    if f(e) {
      out := AddUnique(list, e);
      return;
    }
    out := list;
    match e
    case ColumnVar(_, _, _) =>
    case Var(_, _, _, _, _) =>
    case Constant(_, _, _) =>
    case UOper(_, _, x) => out := Find(f, x, list);
    case BinOper(_, _, _, x, y) =>
      AddAllAppend(list, Topmost(f, x), Topmost(f, y));
      out := Find(f, x, list);
      out := Find(f, y, out);
    case InValues(x, vs) =>
      AddAllAppend(list, Topmost(f, x), TopmostAll(f, vs));
      out := Find(f, x, list);
      ghost var mid := out;
      for k := 0 to |vs|
        invariant AddAll(out, TopmostAll(f, vs[k..])) == AddAll(mid, TopmostAll(f, vs))
      {
        assert vs[k..][1..] == vs[k + 1..];
        AddAllAppend(out, Topmost(f, vs[k]), TopmostAll(f, vs[k + 1..]));
        out := Find(f, vs[k], out);
      }
    case CaseExpr(_, conds, results, otherwise) =>
      AddAllAppend(list, TopmostArms(f, e, 0), match otherwise case None => [] case Some(x) => Topmost(f, x));
      out := FindArms(f, e, list);
      if otherwise.Some? {
        out := Find(f, otherwise.value, out);
      }
    case AggExpr(_, _, arg, _, _) =>
      if arg.Some? {
        out := Find(f, arg.value, list);
      }
    case DateTrunc(_, _, x) => out := Find(f, x, list);
    case DateAdd(_, _, x, y) =>
      AddAllAppend(list, Topmost(f, x), Topmost(f, y));
      out := Find(f, x, list);
      out := Find(f, y, out);
  }

  method FindArms(f: Expr -> bool, e: Expr, list: seq<Expr>) returns (out: seq<Expr>)
    requires e.CaseExpr?
    ensures out == AddAll(list, TopmostArms(f, e, 0))
    decreases e, 0
  {
    out := list;
    var k := 0;
    while k < |e.conds| && k < |e.results|
      invariant AddAll(out, TopmostArms(f, e, k)) == AddAll(list, TopmostArms(f, e, 0))
    {
      var x, y := e.conds[k], e.results[k];
      AddAllAppend(out, Topmost(f, x) + Topmost(f, y), TopmostArms(f, e, k + 1));
      AddAllAppend(out, Topmost(f, x), Topmost(f, y));
      out := Find(f, x, out);
      out := Find(f, y, out);
      k := k + 1;
    }
  }

  method AddUnique(list: seq<Expr>, e: Expr) returns (out: seq<Expr>)
    ensures out == AddAll(list, [e])
    ensures out == if Holds(list, e) then list else list + [e]
  {
    for k := 0 to |list|
      invariant forall m | 0 <= m < k :: !Eq(list[m], e)
    {
      if Eq(list[k], e) {
        return list;
      }
    }
    return list + [e];
  }

  // ---------------------------------------------------------------- what is found

  lemma {:induction false} TopmostMatches(f: Expr -> bool, e: Expr)
    ensures forall x | x in Topmost(f, e) :: f(x)
    decreases e, 1
  {
    match e
    case UOper(_, _, x) => TopmostMatches(f, x);
    case BinOper(_, _, _, x, y) => TopmostMatches(f, x); TopmostMatches(f, y);
    case InValues(x, vs) => TopmostMatches(f, x); TopmostAllMatches(f, vs);
    case CaseExpr(_, conds, results, otherwise) =>
      TopmostArmsMatch(f, e, 0);
      if otherwise.Some? { TopmostMatches(f, otherwise.value); }
    case AggExpr(_, _, arg, _, _) => if arg.Some? { TopmostMatches(f, arg.value); }
    case DateTrunc(_, _, x) => TopmostMatches(f, x);
    case DateAdd(_, _, x, y) => TopmostMatches(f, x); TopmostMatches(f, y);
    case _ =>
  }

  lemma {:induction false} TopmostAllMatches(f: Expr -> bool, es: seq<Expr>)
    ensures forall x | x in TopmostAll(f, es) :: f(x)
    decreases es, 0
  {
    if es != [] { TopmostMatches(f, es[0]); TopmostAllMatches(f, es[1..]); }
  }

  lemma {:induction false} TopmostArmsMatch(f: Expr -> bool, e: Expr, k: nat)
    requires e.CaseExpr?
    ensures forall x | x in TopmostArms(f, e, k) :: f(x)
    decreases e, 0, |e.conds| - k
  {
    if k < |e.conds| && k < |e.results| {
      TopmostMatches(f, e.conds[k]); TopmostMatches(f, e.results[k]); TopmostArmsMatch(f, e, k + 1);
    }
  }

  predicate Paired(e: Expr) {
    e.CaseExpr? ==> |e.conds| == |e.results|
  }

  function Fails(f: Expr -> bool): Expr -> bool {
    e => !f(e)
  }

  /** Nothing is found exactly when nothing matches outside the second arguments of aggregates. */
  lemma {:induction false} NothingFoundIff(f: Expr -> bool, e: Expr)
    requires All(Paired, e)
    ensures Topmost(f, e) == [] <==> All(Fails(f), e)
    decreases e, 1
  {
    match e
    case UOper(_, _, x) => NothingFoundIff(f, x);
    case BinOper(_, _, _, x, y) => NothingFoundIff(f, x); NothingFoundIff(f, y);
    case InValues(x, vs) => NothingFoundIff(f, x); NothingFoundInAllIff(f, vs);
    case CaseExpr(_, conds, results, otherwise) =>
      assert conds[0..] == conds && results[0..] == results;
      NothingFoundInArmsIff(f, e, 0);
      if otherwise.Some? { NothingFoundIff(f, otherwise.value); }
    case AggExpr(_, _, arg, _, _) => if arg.Some? { NothingFoundIff(f, arg.value); }
    case DateTrunc(_, _, x) => NothingFoundIff(f, x);
    case DateAdd(_, _, x, y) => NothingFoundIff(f, x); NothingFoundIff(f, y);
    case _ =>
  }

  lemma {:induction false} NothingFoundInAllIff(f: Expr -> bool, es: seq<Expr>)
    requires AllOf(Paired, es)
    ensures TopmostAll(f, es) == [] <==> AllOf(Fails(f), es)
    decreases es, 0
  {
    if es != [] { NothingFoundIff(f, es[0]); NothingFoundInAllIff(f, es[1..]); }
  }

  lemma {:induction false} NothingFoundInArmsIff(f: Expr -> bool, e: Expr, k: nat)
    requires e.CaseExpr? && k <= |e.conds| == |e.results|
    requires AllOf(Paired, e.conds[k..]) && AllOf(Paired, e.results[k..])
    ensures TopmostArms(f, e, k) == [] <==> AllOf(Fails(f), e.conds[k..]) && AllOf(Fails(f), e.results[k..])
    decreases e, 0, |e.conds| - k
  {
    if k < |e.conds| {
      assert e.conds[k..][1..] == e.conds[k + 1..] && e.results[k..][1..] == e.results[k + 1..];
      NothingFoundIff(f, e.conds[k]);
      NothingFoundIff(f, e.results[k]);
      NothingFoundInArmsIff(f, e, k + 1);
    }
  }

  // ---------------------------------------------------------------- all that is found, in order

  function Arms(conds: seq<Expr>, results: seq<Expr>): (ps: seq<Expr>)
    ensures forall x | x in ps :: x in conds || x in results
  {
    if conds == [] || results == [] then [] else [conds[0], results[0]] + Arms(conds[1..], results[1..])
  }

  /** The parts that the search goes on to, left to right; of a CASE each condition before its result. */
  function Parts(e: Expr): (ps: seq<Expr>)
    ensures forall k | 0 <= k < |ps| :: ps[k] < e
  {
    match e
    case ColumnVar(_, _, _) => []
    case Var(_, _, _, _, _) => []
    case Constant(_, _, _) => []
    case UOper(_, _, x) => [x]
    case BinOper(_, _, _, x, y) => [x, y]
    case InValues(x, vs) => [x] + vs
    case CaseExpr(_, conds, results, otherwise) =>
      var arms := Arms(conds, results);
      assert (forall k | 0 <= k < |conds| :: conds[k] < e) && forall k | 0 <= k < |results| :: results[k] < e;
      assert forall k | 0 <= k < |arms| :: arms[k] in arms;
      arms + (match otherwise case None => [] case Some(x) => [x])
    case AggExpr(_, _, arg, _, _) => (match arg case None => [] case Some(x) => [x])
    case DateTrunc(_, _, x) => [x]
    case DateAdd(_, _, x, y) => [x, y]
  }

  /** The way to every part visited, itself last, in the order of the search. */
  function Ways(e: Expr, above: seq<Expr>): seq<seq<Expr>>
    decreases e, 1, 0
  {
    [above + [e]] + WaysOn(e, 0, above + [e])
  }

  function WaysOn(e: Expr, k: nat, above: seq<Expr>): seq<seq<Expr>>
    decreases e, 0, |Parts(e)| - k
  {
    if k >= |Parts(e)| then [] else Ways(Parts(e)[k], above) + WaysOn(e, k + 1, above)
  }

  predicate NoneMatches(f: Expr -> bool, way: seq<Expr>) {
    forall k | 0 <= k < |way| :: !f(way[k])
  }

  /** The ends of those ways on which the end matches and nothing before it does. */
  function Ends(f: Expr -> bool, ways: seq<seq<Expr>>): seq<Expr> {
    if ways == [] then []
    else
      var w := ways[0];
      (if w != [] && f(w[|w| - 1]) && NoneMatches(f, w[..|w| - 1]) then [w[|w| - 1]] else []) + Ends(f, ways[1..])
  }

  lemma {:induction false} EndsAppend(f: Expr -> bool, ways: seq<seq<Expr>>, ways': seq<seq<Expr>>)
    ensures Ends(f, ways + ways') == Ends(f, ways) + Ends(f, ways')
  {
    if ways == [] {
      assert ways + ways' == ways';
    } else {
      assert (ways + ways')[1..] == ways[1..] + ways';
      EndsAppend(f, ways[1..], ways');
    }
  }

  lemma {:induction false} TopmostAllAppend(f: Expr -> bool, es: seq<Expr>, fs: seq<Expr>)
    ensures TopmostAll(f, es + fs) == TopmostAll(f, es) + TopmostAll(f, fs)
    decreases |es|
  {
    if es == [] {
      assert es + fs == fs;
    } else {
      assert (es + fs)[1..] == es[1..] + fs;
      TopmostAllAppend(f, es[1..], fs);
    }
  }

  lemma {:induction false} TopmostOfArms(f: Expr -> bool, e: Expr, k: nat)
    requires e.CaseExpr? && k <= |e.conds| && k <= |e.results|
    ensures TopmostArms(f, e, k) == TopmostAll(f, Arms(e.conds[k..], e.results[k..]))
    decreases |e.conds| - k
  {
    if k < |e.conds| && k < |e.results| {
      var rest := Arms(e.conds[k + 1..], e.results[k + 1..]);
      assert e.conds[k..][1..] == e.conds[k + 1..] && e.results[k..][1..] == e.results[k + 1..];
      assert Arms(e.conds[k..], e.results[k..]) == [e.conds[k], e.results[k]] + rest;
      TopmostAllAppend(f, [e.conds[k], e.results[k]], rest);
      TopmostOfTwo(f, e.conds[k], e.results[k]);
      TopmostOfArms(f, e, k + 1);
    }
  }

  lemma TopmostOfTwo(f: Expr -> bool, x: Expr, y: Expr)
    ensures TopmostAll(f, [x, y]) == Topmost(f, x) + Topmost(f, y) && TopmostAll(f, [x]) == Topmost(f, x)
  {
    assert [x, y][1..] == [y] && [x][1..] == [] && [y][1..] == [];
    assert TopmostAll(f, [y]) == Topmost(f, y) + TopmostAll(f, []);
  }

  /** Where e itself does not match, what is found is found in its parts. */
  lemma TopmostOfParts(f: Expr -> bool, e: Expr)
    requires !f(e)
    ensures Topmost(f, e) == TopmostAll(f, Parts(e))
  {
    match e
    case UOper(_, _, x) => TopmostOfTwo(f, x, x);
    case BinOper(_, _, _, x, y) => TopmostOfTwo(f, x, y);
    case InValues(x, vs) => TopmostOfTwo(f, x, x); TopmostAllAppend(f, [x], vs);
    case CaseExpr(_, conds, results, otherwise) =>
      assert conds[0..] == conds && results[0..] == results;
      TopmostOfArms(f, e, 0);
      TopmostAllAppend(f, Arms(conds, results), match otherwise case None => [] case Some(x) => [x]);
      if otherwise.Some? { TopmostOfTwo(f, otherwise.value, otherwise.value); }
    case AggExpr(_, _, arg, _, _) => if arg.Some? { TopmostOfTwo(f, arg.value, arg.value); }
    case DateTrunc(_, _, x) => TopmostOfTwo(f, x, x);
    case DateAdd(_, _, x, y) => TopmostOfTwo(f, x, y);
    case _ =>
  }

  lemma {:induction false} EndsOfWays(f: Expr -> bool, e: Expr, above: seq<Expr>)
    ensures Ends(f, Ways(e, above)) == if NoneMatches(f, above) then Topmost(f, e) else []
    decreases e, 1, 0
  {
    var way := above + [e];
    assert way[..|way| - 1] == above;
    EndsAppend(f, [way], WaysOn(e, 0, way));
    EndsOfWaysOn(f, e, 0, way);
    assert Parts(e)[0..] == Parts(e);
    assert [way][1..] == [] && Ends(f, [way]) == if f(e) && NoneMatches(f, above) then [e] else [];
    assert NoneMatches(f, way) <==> NoneMatches(f, above) && !f(e) by { assert way[|above|] == e; }
    if !f(e) { TopmostOfParts(f, e); }
    hide Parts, WaysOn, NoneMatches;
  }

  lemma {:induction false} EndsOfWaysOn(f: Expr -> bool, e: Expr, k: nat, above: seq<Expr>)
    requires k <= |Parts(e)|
    ensures Ends(f, WaysOn(e, k, above)) == if NoneMatches(f, above) then TopmostAll(f, Parts(e)[k..]) else []
    decreases e, 0, |Parts(e)| - k
  {
    if k < |Parts(e)| {
      EndsOfWays(f, Parts(e)[k], above);
      EndsOfWaysOn(f, e, k + 1, above);
      EndsAppend(f, Ways(Parts(e)[k], above), WaysOn(e, k + 1, above));
      assert Parts(e)[k..][1..] == Parts(e)[k + 1..];
    }
    hide Parts, NoneMatches, Ways, Topmost;
  }

  /** Found are exactly the matching parts that are not inside another one, in the order of the search. */
  lemma FoundInOrder(f: Expr -> bool, e: Expr)
    ensures Topmost(f, e) == Ends(f, Ways(e, []))
  {
    EndsOfWays(f, e, []);
  }

  // ---------------------------------------------------------------- what is missed

  /** All parts of e, also those in second arguments, satisfy p. */
  predicate Everywhere(p: Expr -> bool, e: Expr)
    decreases e, 1
  {
    p(e) &&
    match e
    case ColumnVar(_, _, _) => true
    case Var(_, _, _, _, _) => true
    case Constant(_, _, _) => true
    case UOper(_, _, x) => Everywhere(p, x)
    case BinOper(_, _, _, x, y) => Everywhere(p, x) && Everywhere(p, y)
    case InValues(x, vs) => Everywhere(p, x) && EverywhereOf(p, vs)
    case CaseExpr(_, conds, results, otherwise) =>
      EverywhereOf(p, conds) && EverywhereOf(p, results) &&
      (match otherwise case None => true case Some(x) => Everywhere(p, x))
    case AggExpr(_, _, arg, _, arg1) =>
      (match arg case None => true case Some(x) => Everywhere(p, x)) &&
      (match arg1 case None => true case Some(x) => Everywhere(p, x))
    case DateTrunc(_, _, x) => Everywhere(p, x)
    case DateAdd(_, _, x, y) => Everywhere(p, x) && Everywhere(p, y)
  }

  predicate EverywhereOf(p: Expr -> bool, es: seq<Expr>)
    decreases es, 0
  {
    es == [] || (Everywhere(p, es[0]) && EverywhereOf(p, es[1..]))
  }

  /** Some second argument contains a match. */
  predicate Hidden(f: Expr -> bool, e: Expr)
    decreases e, 1
  {
    match e
    case ColumnVar(_, _, _) => false
    case Var(_, _, _, _, _) => false
    case Constant(_, _, _) => false
    case UOper(_, _, x) => Hidden(f, x)
    case BinOper(_, _, _, x, y) => Hidden(f, x) || Hidden(f, y)
    case InValues(x, vs) => Hidden(f, x) || HiddenIn(f, vs)
    case CaseExpr(_, conds, results, otherwise) =>
      HiddenIn(f, conds) || HiddenIn(f, results) || (match otherwise case None => false case Some(x) => Hidden(f, x))
    case AggExpr(_, _, arg, _, arg1) =>
      (match arg case None => false case Some(x) => Hidden(f, x)) ||
      (match arg1 case None => false case Some(x) => !Everywhere(Fails(f), x))
    case DateTrunc(_, _, x) => Hidden(f, x)
    case DateAdd(_, _, x, y) => Hidden(f, x) || Hidden(f, y)
  }

  predicate HiddenIn(f: Expr -> bool, es: seq<Expr>)
    decreases es, 0
  {
    es != [] && (Hidden(f, es[0]) || HiddenIn(f, es[1..]))
  }

  lemma {:induction false} EverywhereIff(f: Expr -> bool, e: Expr)
    ensures Everywhere(Fails(f), e) <==> All(Fails(f), e) && !Hidden(f, e)
    decreases e, 1
  {
    match e
    case UOper(_, _, x) => EverywhereIff(f, x);
    case BinOper(_, _, _, x, y) => EverywhereIff(f, x); EverywhereIff(f, y);
    case InValues(x, vs) => EverywhereIff(f, x); EverywhereOfIff(f, vs);
    case CaseExpr(_, conds, results, otherwise) =>
      EverywhereOfIff(f, conds); EverywhereOfIff(f, results);
      if otherwise.Some? { EverywhereIff(f, otherwise.value); }
    case AggExpr(_, _, arg, _, _) => if arg.Some? { EverywhereIff(f, arg.value); }
    case DateTrunc(_, _, x) => EverywhereIff(f, x);
    case DateAdd(_, _, x, y) => EverywhereIff(f, x); EverywhereIff(f, y);
    case _ =>
  }

  lemma {:induction false} EverywhereOfIff(f: Expr -> bool, es: seq<Expr>)
    ensures EverywhereOf(Fails(f), es) <==> AllOf(Fails(f), es) && !HiddenIn(f, es)
    decreases es, 0
  {
    if es != [] { EverywhereIff(f, es[0]); EverywhereOfIff(f, es[1..]); }
  }

  /** An empty answer tells whether nothing matches anywhere, unless it is empty and a second
      argument contains a match. */
  lemma EmptyAnswerIsRightIff(f: Expr -> bool, e: Expr)
    requires All(Paired, e)
    ensures (Topmost(f, e) == [] <==> Everywhere(Fails(f), e)) <==> (Topmost(f, e) != [] || !Hidden(f, e))
  {
    NothingFoundIff(f, e);
    EverywhereIff(f, e);
  }

  // ---------------------------------------------------------------- finding what HAVING looks up

  predicate LookedUpPart(e: Expr) {
    IsColumn(e) || e.AggExpr?
  }

  predicate Found(tl: seq<Expr>, e: Expr) {
    if e.ColumnVar? then FirstColumn(tl, e.key, true, 0).Some? else FirstEqual(tl, e, 0).Some?
  }

  ghost predicate AllFound(tl: seq<Expr>, es: seq<Expr>) {
    forall x | x in es :: Found(tl, x)
  }

  /** HAVING is rewritten exactly when each of its topmost columns and aggregates is found. */
  lemma {:induction false} AggRewriteSucceedsIff(tl: seq<Expr>, e: Expr)
    requires All(Paired, e)
    ensures AggRewrite(tl, e).Some? <==> AllFound(tl, Topmost(LookedUpPart, e))
    decreases e, 1
  {
    match e
    case UOper(_, _, x) => AggRewriteSucceedsIff(tl, x);
    case BinOper(_, _, _, x, y) => AggRewriteSucceedsIff(tl, x); AggRewriteSucceedsIff(tl, y);
    case InValues(x, vs) => AggRewriteSucceedsIff(tl, x); AggRewriteAllSucceedsIff(tl, vs);
    case CaseExpr(_, conds, results, otherwise) =>
      AggRewriteArmsSucceedIff(tl, e, 0);
      assert conds[0..] == conds && results[0..] == results;
      if otherwise.Some? { AggRewriteSucceedsIff(tl, otherwise.value); }
    case DateTrunc(_, _, x) => AggRewriteSucceedsIff(tl, x);
    case DateAdd(_, _, x, y) => AggRewriteSucceedsIff(tl, x); AggRewriteSucceedsIff(tl, y);
    case _ => assert LookedUpPart(e) ==> Topmost(LookedUpPart, e) == [e] && e in Topmost(LookedUpPart, e);
  }

  lemma {:induction false} AggRewriteAllSucceedsIff(tl: seq<Expr>, es: seq<Expr>)
    requires AllOf(Paired, es)
    ensures AggRewriteAll(tl, es).Some? <==> AllFound(tl, TopmostAll(LookedUpPart, es))
    decreases es, 0
  {
    if es != [] { AggRewriteSucceedsIff(tl, es[0]); AggRewriteAllSucceedsIff(tl, es[1..]); }
  }

  lemma {:induction false} AggRewriteArmsSucceedIff(tl: seq<Expr>, e: Expr, k: nat)
    requires e.CaseExpr? && k <= |e.conds| == |e.results|
    requires AllOf(Paired, e.conds[k..]) && AllOf(Paired, e.results[k..])
    ensures AggRewriteAll(tl, e.conds[k..]).Some? && AggRewriteAll(tl, e.results[k..]).Some? <==>
            AllFound(tl, TopmostArms(LookedUpPart, e, k))
    decreases e, 0, |e.conds| - k
  {
    if k < |e.conds| {
      assert e.conds[k..][1..] == e.conds[k + 1..] && e.results[k..][1..] == e.results[k + 1..];
      AggRewriteSucceedsIff(tl, e.conds[k]);
      AggRewriteSucceedsIff(tl, e.results[k]);
      AggRewriteArmsSucceedIff(tl, e, k + 1);
    }
  }

  /** A target list gathered with Find from a HAVING expression serves to rewrite it. */
  lemma GatheredListServes(e: Expr)
    requires All(Paired, e)
    requires forall x | x in Topmost(LookedUpPart, e) :: All(Placed, x)
    ensures AggRewrite(AddAll([], Topmost(LookedUpPart, e)), e).Some?
  {
    var es := Topmost(LookedUpPart, e);
    var tl := AddAll([], es);
    AggRewriteSucceedsIff(tl, e);
    TopmostMatches(LookedUpPart, e);
    AddAllCollects([], es);
    forall x | x in es ensures Found(tl, x) {
      HeldIsFound(tl, x);
    }
  }

  lemma HeldIsFound(tl: seq<Expr>, x: Expr)
    requires (forall k | 0 <= k < |tl| :: LookedUpPart(tl[k]) && All(Placed, tl[k])) && LookedUpPart(x)
             && All(Placed, x)
    requires x in tl || Holds(tl, x)
    ensures Found(tl, x)
  {
    EqReflexive(x);
    var k :| 0 <= k < |tl| && Eq(tl[k], x);
    if x.ColumnVar? {
      FirstColumnFound(tl, x.key, true, 0);
    } else {
      if x.AggExpr? { EqSymmetric(tl[k], x); }
      assert Answers(tl[k], x);
      FirstEqualFound(tl, x, 0);
    }
  }

  /** The second argument of an aggregate is not searched. */
  lemma SecondArgumentIsNotSearched(ti: Type, key: ColumnKey, x: Expr)
    requires !IsColumn(x) && Topmost(IsColumn, x) == []
    ensures Topmost(IsColumn, AggExpr(ti, 0, Some(x), false, Some(ColumnVar(ti, key, 0)))) == []
  {
  }
}
