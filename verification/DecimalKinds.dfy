/** When the precision of the common type of NUMERICs and DECIMALs of any scales depends on their order. */
module DecimalKinds {
  import opened DecimalTypes
  import opened Expressions
  import opened Precision

  function Scale(t: Type): int {
    t.scale
  }

  function Digits(t: Type): int {
    t.dimension - t.scale
  }

  function Width(t: Type): int {
    t.dimension
  }

  predicate AllDecimals(ts: seq<Type>) {
    forall t | t in ts :: NumberType(t) && IsDecimal(t.base)
  }

  /** The greatest precision, scale and number of digits before the point, each of some type. */
  datatype Extent = Extent(precision: int, scale: int, digits: int)

  predicate Within(t: Type, x: Extent) {
    t.dimension <= x.precision && t.scale <= x.scale && Digits(t) <= x.digits
  }

  predicate Spans(ts: seq<Type>, kind: Base, x: Extent) {
    && (forall t | t in ts && t.base == kind :: Within(t, x))
    && (exists t | t in ts :: t.base == kind && t.dimension == x.precision)
    && (exists t | t in ts :: t.base == kind && t.scale == x.scale)
    && (exists t | t in ts :: t.base == kind && Digits(t) == x.digits)
  }

  /** The most that any order makes of NUMERICs of extent n and DECIMALs of extent d. */
  function Most(n: Extent, d: Extent): int {
    Max(n.digits + Max(n.scale, d.scale), Max(d.digits + n.scale, d.precision))
  }

  /** One type has the most already. */
  predicate Covered(n: Extent, d: Extent) {
    Max(n.precision, d.precision) == Most(n, d)
  }

  /** All DECIMALs have the most digits before the point. */
  predicate Level(ts: seq<Type>, n: Extent, d: Extent) {
    forall t | t in ts && t.base == Base.Decimal :: Digits(t) == Max(n.digits, d.digits)
  }

  /** A DECIMAL has the greatest scale, or it has what the greatest NUMERIC lacks at that scale. */
  predicate Fits(t: Type, n: Extent, s: int) {
    t.scale == s || (t.scale <= n.scale && Digits(t) + n.scale == n.digits + s)
  }

  /** One NUMERIC is the greatest in all respects and all DECIMALs fit it. */
  predicate Led(ts: seq<Type>, n: Extent, d: Extent) {
    n.precision == n.digits + n.scale &&
    forall t | t in ts && t.base == Base.Decimal :: Fits(t, n, Max(n.scale, d.scale))
  }

  // ---------------------------------------------------------------- what the condition is enough for

  predicate AllWithin(p: seq<Type>, n: Extent, d: Extent) {
    forall t | t in p :: NumberType(t) && IsDecimal(t.base) && Within(t, if t.base == Numeric then n else d)
  }

  predicate Bounded(x: Type, n: Extent, d: Extent) {
    && x.dimension <= Most(n, d) && x.scale <= Max(n.scale, d.scale) && Digits(x) <= Max(n.digits, d.digits)
    && (x.base == Numeric ==> x.scale <= n.scale && Digits(x) <= n.digits)
  }

  lemma BoundedStep(x: Type, t: Type, n: Extent, d: Extent)
    requires NumberType(x) && IsDecimal(x.base) && Bounded(x, n, d)
    requires NumberType(t) && IsDecimal(t.base) && Within(t, if t.base == Numeric then n else d)
    ensures var c := Common(x, t);
            && Bounded(c, n, d) && IsDecimal(c.base) && x.dimension <= c.dimension && t.dimension <= c.dimension
            && (c.base == Numeric <==> x.base == Numeric && t.base == Numeric)
  {
  }

  predicate Numerics(p: seq<Type>) {
    forall t | t in p :: t.base == Numeric
  }

  lemma {:induction false} FoldBounded(p: seq<Type>, n: Extent, d: Extent)
    requires |p| > 0 && AllWithin(p, n, d)
    ensures var x := Fold(p);
            && Bounded(x, n, d) && IsDecimal(x.base) && DecimalUpTo(p, x.dimension)
            && (x.base == Numeric <==> Numerics(p))
  {
    var k := |p| - 1;
    var q, t := p[..k], p[k];
    assert p == q + [t] && t in p && forall y | y in q :: y in p;
    if k > 0 {
      FoldBounded(q, n, d);
      BoundedStep(Fold(q), t, n, d);
      FoldSnoc(q, t);
      hide Common, Bounded, Fold;
      assert Numerics(p) <==> Numerics(q) && t.base == Numeric;
    }
  }

  lemma {:induction false} LevelKept(p: seq<Type>, e: int)
    requires |p| > 0 && AllDecimals(p)
    requires forall t | t in p :: if t.base == Numeric then Digits(t) <= e else Digits(t) == e
    ensures var x := Fold(p); if x.base == Numeric then Digits(x) <= e else x.base == Base.Decimal && Digits(x) == e
  {
    var k := |p| - 1;
    assert p == p[..k] + [p[k]] && p[k] in p && forall y | y in p[..k] :: y in p;
    if k > 0 {
      LevelKept(p[..k], e);
      FoldSnoc(p[..k], p[k]);
    }
  }

  /** With the greatest NUMERIC the fold has all its digits at the greatest scale; before it comes, it
      has that scale, or the digits that will do. */
  predicate Reaching(x: Type, n: Extent, s: int, led: bool) {
    if led then
      if x.base == Numeric then x.scale == n.scale && Digits(x) >= n.digits else x.dimension >= n.digits + s
    else x.base == Numeric || x.scale == s || Digits(x) + n.scale >= n.digits + s
  }

  lemma ReachingStep(x: Type, t: Type, n: Extent, d: Extent, led: bool)
    requires NumberType(x) && IsDecimal(x.base) && Bounded(x, n, d)
    requires NumberType(t) && IsDecimal(t.base) && Within(t, if t.base == Numeric then n else d)
    requires n.precision == n.digits + n.scale && (t.base == Base.Decimal ==> Fits(t, n, Max(n.scale, d.scale)))
    requires Reaching(x, n, Max(n.scale, d.scale), led)
    ensures Reaching(Common(x, t), n, Max(n.scale, d.scale), led)
    ensures t.base == Numeric && t.dimension == n.precision ==> Reaching(Common(x, t), n, Max(n.scale, d.scale), true)
  {
  }

  predicate HasLeader(p: seq<Type>, n: Extent) {
    exists t | t in p :: t.base == Numeric && t.dimension == n.precision
  }

  lemma {:induction false} FoldReaches(p: seq<Type>, n: Extent, d: Extent)
    requires |p| > 0 && AllWithin(p, n, d) && Led(p, n, d)
    ensures Reaching(Fold(p), n, Max(n.scale, d.scale), HasLeader(p, n))
  {
    var k := |p| - 1;
    var q, t := p[..k], p[k];
    assert p == q + [t] && t in p && forall y | y in q :: y in p;
    assert HasLeader(p, n) <==> HasLeader(q, n) || (t.base == Numeric && t.dimension == n.precision);
    if k > 0 {
      FoldReaches(q, n, d);
      FoldBounded(q, n, d);
      ReachingStep(Fold(q), t, n, d, HasLeader(q, n));
      FoldSnoc(q, t);
    }
    hide Common, Reaching, Led;
  }

  lemma LedIsMost(ts: seq<Type>, n: Extent, d: Extent)
    requires Spans(ts, Base.Decimal, d) && Led(ts, n, d) && !Covered(n, d)
    ensures Most(n, d) == n.digits + Max(n.scale, d.scale)
  {
    var t :| t in ts && t.base == Base.Decimal && Digits(t) == d.digits;
    assert Within(t, d) && Fits(t, n, Max(n.scale, d.scale));
  }

  lemma KindsWithin(ts: seq<Type>, us: seq<Type>, n: Extent, d: Extent)
    requires multiset(us) == multiset(ts) && AllDecimals(ts) && Spans(ts, Numeric, n) && Spans(ts, Base.Decimal, d)
    ensures |us| == |ts| > 0 && AllWithin(us, n, d) && Spans(us, Numeric, n) && Spans(us, Base.Decimal, d)
    ensures !Numerics(us)
  {
    SameElements(ts, us);
    hide Within;
    var t :| t in ts && t.base == Base.Decimal && t.scale == d.scale;
    assert t in us;
  }

  lemma ConditionSuffices(ts: seq<Type>, n: Extent, d: Extent, us: seq<Type>)
    requires AllDecimals(ts) && Spans(ts, Numeric, n) && Spans(ts, Base.Decimal, d) && multiset(us) == multiset(ts)
    requires Covered(n, d) || Led(ts, n, d)
    ensures PrecisionOf(us) == Most(n, d)
  {
    KindsWithin(ts, us, n, d);
    SameElements(ts, us);
    FoldBounded(us, n, d);
    if !Covered(n, d) {
      assert Led(us, n, d);
      LedIsMost(us, n, d);
      FoldReaches(us, n, d);
      assert HasLeader(us, n);
    }
    hide Fold, Led, AllWithin;
  }

  lemma LevelSuffices(ts: seq<Type>, n: Extent, d: Extent, us: seq<Type>)
    requires AllDecimals(ts) && Spans(ts, Numeric, n) && Spans(ts, Base.Decimal, d) && multiset(us) == multiset(ts)
    requires Level(ts, n, d)
    ensures PrecisionOf(us) == Max(n.digits, d.digits) + Fold(ts).scale
  {
    KindsWithin(ts, us, n, d);
    SameElements(ts, us);
    FoldBounded(us, n, d);
    LevelKept(us, Max(n.digits, d.digits));
    FoldIgnoresOrder(ts, us);
  }

  // ---------------------------------------------------------------- and that it is needed: folding blocks

  function FoldOn(x: Type, q: seq<Type>): (c: Type)
    requires NumberType(x) && forall t | t in q :: NumberType(t)
    ensures NumberType(c)
  {
    if q == [] then x
    else
      var c := FoldOn(x, q[..|q| - 1]);
      CommonIsJoin(c, q[|q| - 1]);
      Common(c, q[|q| - 1])
  }

  lemma {:induction false} FoldOnAppends(p: seq<Type>, q: seq<Type>)
    requires |p| > 0 && (forall t | t in p :: NumberType(t)) && forall t | t in q :: NumberType(t)
    ensures Fold(p + q) == FoldOn(Fold(p), q)
    decreases |q|
  {
    hide Common, NumberType;
    if q == [] {
      assert p + q == p;
    } else {
      var k := |q| - 1;
      assert p + q == (p + q[..k]) + [q[k]] && q[k] in q;
      FoldOnAppends(p, q[..k]);
      FoldSnoc(p + q[..k], q[k]);
    }
  }

  /** r is the greatest of a and what f makes of the types in q. */
  ghost predicate Greatest(r: int, a: int, q: seq<Type>, f: Type -> int) {
    a <= r && (forall t | t in q :: f(t) <= r) && (r == a || exists t | t in q :: f(t) == r)
  }

  lemma GreatestStep(r: int, a: int, q: seq<Type>, t: Type, f: Type -> int)
    requires Greatest(r, a, q, f)
    ensures Greatest(Max(r, f(t)), a, q + [t], f)
  {
    assert t in q + [t];
    if r != a && f(t) <= r {
      var y :| y in q && f(y) == r;
      assert y in q + [t];
    }
  }

  /** Decimals of one kind. */
  lemma {:induction false} MergeBlock(x: Type, q: seq<Type>)
    requires NumberType(x) && IsDecimal(x.base) && AllDecimals(q) && forall t | t in q :: t.base == x.base
    ensures var c := FoldOn(x, q);
            c.base == x.base && Greatest(c.dimension, x.dimension, q, Width) && Greatest(c.scale, x.scale, q, Scale)
    decreases |q|
  {
    if q != [] {
      var k := |q| - 1;
      var p, t := q[..k], q[k];
      assert q == p + [t] && t in q && forall y | y in p :: y in q;
      MergeBlock(x, p);
      GreatestStep(FoldOn(x, p).dimension, x.dimension, p, t, Width);
      GreatestStep(FoldOn(x, p).scale, x.scale, p, t, Scale);
      hide Greatest;
    }
  }

  lemma MixStep(x: Type, t: Type)
    requires NumberType(x) && x.base == Base.Decimal && NumberType(t) && t.base == Numeric
    ensures var c := Common(x, t);
            c.base == Base.Decimal && Digits(c) == Max(Digits(x), Digits(t)) && c.scale == Max(x.scale, Scale(t))
  {
  }

  /** NUMERICs after a DECIMAL. */
  lemma {:induction false} MixBlock(x: Type, q: seq<Type>)
    requires NumberType(x) && x.base == Base.Decimal && AllDecimals(q) && forall t | t in q :: t.base == Numeric
    ensures var c := FoldOn(x, q);
            c.base == Base.Decimal && Greatest(Digits(c), Digits(x), q, Digits) && Greatest(c.scale, x.scale, q, Scale)
    decreases |q|
  {
    if q != [] {
      var k := |q| - 1;
      var p, t := q[..k], q[k];
      assert q == p + [t] && t in q && forall y | y in p :: y in q;
      MixBlock(x, p);
      MixStep(FoldOn(x, p), t);
      hide Common;
      GreatestStep(Digits(FoldOn(x, p)), Digits(x), p, t, Digits);
      GreatestStep(FoldOn(x, p).scale, x.scale, p, t, Scale);
      hide Greatest;
    }
  }

  // ---------------------------------------------------------------- three orders

  function OfKind(ts: seq<Type>, kind: Base): seq<Type> {
    if ts == [] then [] else (if ts[0].base == kind then [ts[0]] else []) + OfKind(ts[1..], kind)
  }

  lemma {:induction false} OfKindIs(ts: seq<Type>, kind: Base)
    ensures forall t :: t in OfKind(ts, kind) <==> t in ts && t.base == kind
  {
    if ts != [] {
      OfKindIs(ts[1..], kind);
      assert forall t :: t in ts <==> t == ts[0] || t in ts[1..];
    }
  }

  lemma {:induction false} KindsSplit(ts: seq<Type>)
    requires AllDecimals(ts)
    ensures multiset(ts) == multiset(OfKind(ts, Numeric)) + multiset(OfKind(ts, Base.Decimal))
  {
    if ts != [] {
      assert ts == [ts[0]] + ts[1..] && ts[0] in ts && forall t | t in ts[1..] :: t in ts;
      KindsSplit(ts[1..]);
    }
  }

  /** The NUMERICs ns and the DECIMALs ds of the list, and their extents. */
  ghost predicate Parts(ts: seq<Type>, ns: seq<Type>, ds: seq<Type>, n: Extent, d: Extent) {
    && AllDecimals(ns) && AllDecimals(ds) && Numerics(ns) && (forall t | t in ds :: t.base == Base.Decimal)
    && multiset(ts) == multiset(ns) + multiset(ds) && ns != [] && ds != []
    && Spans(ns, Numeric, n) && Spans(ds, Base.Decimal, d)
  }

  lemma PartsOf(ts: seq<Type>, n: Extent, d: Extent)
    requires AllDecimals(ts) && Spans(ts, Numeric, n) && Spans(ts, Base.Decimal, d)
    ensures Parts(ts, OfKind(ts, Numeric), OfKind(ts, Base.Decimal), n, d)
  {
    PartOf(ts, Numeric, n);
    PartOf(ts, Base.Decimal, d);
    KindsSplit(ts);
    hide OfKind, Spans, AllDecimals;
  }

  lemma PartOf(ts: seq<Type>, kind: Base, x: Extent)
    requires AllDecimals(ts) && Spans(ts, kind, x)
    ensures var q := OfKind(ts, kind);
            q != [] && AllDecimals(q) && Spans(q, kind, x) && forall t | t in q :: t.base == kind
  {
    OfKindIs(ts, kind);
    hide OfKind, Within, NumberType;
    var t :| t in ts && t.base == kind && t.scale == x.scale;
    assert t in OfKind(ts, kind);
  }

  /** A greatest value over a list that is spanned. */
  lemma GreatestOfSpan(r: int, a: int, q: seq<Type>, kind: Base, x: Extent)
    requires Spans(q, kind, x) && forall t | t in q :: t.base == kind
    ensures Greatest(r, a, q, Scale) ==> r == Max(a, x.scale)
    ensures Greatest(r, a, q, Digits) ==> r == Max(a, x.digits)
    ensures Greatest(r, a, q, Width) ==> r == Max(a, x.precision)
  {
    var t :| t in q && t.base == kind && t.scale == x.scale;
    var u :| u in q && u.base == kind && Digits(u) == x.digits;
    var v :| v in q && v.base == kind && v.dimension == x.precision;
    assert Scale(t) == x.scale && Width(v) == x.precision;
    assert forall y | y in q :: Within(y, x) && Scale(y) <= x.scale && Width(y) <= x.precision;
  }

  lemma FoldOfPart(q: seq<Type>, kind: Base, x: Extent)
    requires q != [] && AllDecimals(q) && IsDecimal(kind) && Spans(q, kind, x) && forall t | t in q :: t.base == kind
    ensures var c := Fold(q); c.base == kind && c.dimension == x.precision && c.scale == x.scale
  {
    var a, p := q[0], q[1..];
    assert q == [a] + p && a in q && forall t | t in p :: t in q;
    FoldOnAppends([a], p);
    MergeBlock(a, p);
    var c := FoldOn(a, p);
    assert Greatest(c.dimension, a.dimension, q, Width) && Greatest(c.scale, a.scale, q, Scale);
    GreatestOfSpan(c.dimension, a.dimension, q, kind, x);
    GreatestOfSpan(c.scale, a.scale, q, kind, x);
    assert Within(a, x);
  }

  lemma DecimalsThenNumerics(ts: seq<Type>, ns: seq<Type>, ds: seq<Type>, n: Extent, d: Extent)
    requires Parts(ts, ns, ds, n, d) && OrderFree(ts)
    ensures PrecisionOf(ts) == Max(d.precision - d.scale, n.digits) + Max(d.scale, n.scale)
  {
    var us := ds + ns;
    assert multiset(us) == multiset(ts);
    FoldOfPart(ds, Base.Decimal, d);
    FoldOnAppends(ds, ns);
    MixBlock(Fold(ds), ns);
    var c := FoldOn(Fold(ds), ns);
    GreatestOfSpan(Digits(c), d.precision - d.scale, ns, Numeric, n);
    GreatestOfSpan(c.scale, d.scale, ns, Numeric, n);
    hide Fold, FoldOn, Greatest, Spans;
    assert PrecisionOf(us) == c.dimension;
  }

  /** More DECIMALs, none of r digits, do not make it r. */
  lemma DecimalsLast(ts: seq<Type>, p: seq<Type>, q: seq<Type>, d: Extent)
    requires OrderFree(ts) && multiset(ts) == multiset(p + q) && |p| > 0 && AllDecimals(p) && AllDecimals(q)
    requires (forall t | t in q :: t.base == Base.Decimal && Within(t, d)) && Fold(p).base == Base.Decimal
    ensures PrecisionOf(ts) >= Fold(p).dimension
    ensures PrecisionOf(ts) > d.precision ==> PrecisionOf(ts) == Fold(p).dimension
  {
    FoldOnAppends(p, q);
    MergeBlock(Fold(p), q);
    assert PrecisionOf(p + q) == PrecisionOf(ts);
    assert forall t | t in q :: Width(t) <= d.precision;
    hide Fold, FoldOn;
  }

  lemma RestAfter(ts: seq<Type>, ns: seq<Type>, ds: seq<Type>, n: Extent, d: Extent, k: nat)
    requires Parts(ts, ns, ds, n, d) && k < |ds|
    ensures var q := Without(ds, k);
            && AllDecimals(q) && (forall t | t in q :: t.base == Base.Decimal && Within(t, d))
            && multiset(ts) == multiset(ns + [ds[k]] + q) == multiset([ds[k]] + ns + q)
  {
    var q := Without(ds, k);
    MultisetWithout(ds, k);
    assert forall t | t in q :: t in ds;
    assert ds[k] in multiset(ds);
    assert multiset(ds) == multiset(q) + multiset{ds[k]};
    hide Within, AllDecimals;
  }

  lemma NumericsFirst(ts: seq<Type>, ns: seq<Type>, ds: seq<Type>, n: Extent, d: Extent, k: nat)
    requires Parts(ts, ns, ds, n, d) && OrderFree(ts) && k < |ds|
    ensures PrecisionOf(ts) > d.precision ==>
              PrecisionOf(ts) == Max(n.precision - n.scale, Digits(ds[k])) + Max(n.scale, ds[k].scale)
  {
    FoldOfPart(ns, Numeric, n);
    FoldSnoc(ns, ds[k]);
    RestAfter(ts, ns, ds, n, d, k);
    hide Fold, Spans, OrderFree;
    DecimalsLast(ts, ns + [ds[k]], Without(ds, k), d);
  }

  lemma OneDecimalFirst(ts: seq<Type>, ns: seq<Type>, ds: seq<Type>, n: Extent, d: Extent, k: nat)
    requires Parts(ts, ns, ds, n, d) && OrderFree(ts) && k < |ds|
    ensures var m := Max(Digits(ds[k]), n.digits) + Max(ds[k].scale, n.scale);
            PrecisionOf(ts) >= m && (PrecisionOf(ts) > d.precision ==> PrecisionOf(ts) == m)
  {
    var a := ds[k];
    FoldOnAppends([a], ns);
    MixBlock(a, ns);
    var c := FoldOn(a, ns);
    GreatestOfSpan(Digits(c), Digits(a), ns, Numeric, n);
    GreatestOfSpan(c.scale, a.scale, ns, Numeric, n);
    RestAfter(ts, ns, ds, n, d, k);
    hide Spans, OrderFree, Greatest;
    DecimalsLast(ts, [a] + ns, Without(ds, k), d);
  }

  // ---------------------------------------------------------------- the exact condition

  /** NUMERICs and DECIMALs of any scales: every order gives the same precision exactly when one type
      has the most already, or all DECIMALs have the most digits before the point, or one NUMERIC is
      the greatest in all respects and all DECIMALs fit it. */
  lemma KindsIgnoreOrderIff(ts: seq<Type>, n: Extent, d: Extent)
    requires AllDecimals(ts) && Spans(ts, Numeric, n) && Spans(ts, Base.Decimal, d)
    ensures OrderFree(ts) <==> Covered(n, d) || Level(ts, n, d) || Led(ts, n, d)
  {
    if Covered(n, d) || Level(ts, n, d) || Led(ts, n, d) {
      forall us: seq<Type> | multiset(us) == multiset(ts) ensures PrecisionOf(us) == PrecisionOf(ts) {
        if Level(ts, n, d) {
          LevelSuffices(ts, n, d, us);
          LevelSuffices(ts, n, d, ts);
        } else {
          ConditionSuffices(ts, n, d, us);
          ConditionSuffices(ts, n, d, ts);
        }
      }
    }
    if OrderFree(ts) && !Covered(n, d) {
      ConditionNeeded(ts, n, d);
    }
    hide *;
  }

  lemma ConditionNeeded(ts: seq<Type>, n: Extent, d: Extent)
    requires AllDecimals(ts) && Spans(ts, Numeric, n) && Spans(ts, Base.Decimal, d)
    requires OrderFree(ts) && !Covered(n, d)
    ensures Level(ts, n, d) || Led(ts, n, d)
  {
    var ns, ds := OfKind(ts, Numeric), OfKind(ts, Base.Decimal);
    PartsOf(ts, n, d);
    OfKindIs(ts, Base.Decimal);
    MostOfOrders(ts, ns, ds, n, d);
    hide OfKind, OrderFree, PrecisionOf;
    if d.scale <= n.scale {
      forall t | t in ts && t.base == Base.Decimal ensures Digits(t) == Max(n.digits, d.digits) {
        assert t in ds;
        LevelNeeded(ts, ns, ds, n, d, t);
      }
    } else {
      DecimalsThenNumerics(ts, ns, ds, n, d);
      LeaderNeeded(ts, ns, ds, n, d);
      forall t | t in ts && t.base == Base.Decimal ensures Fits(t, n, Max(n.scale, d.scale)) {
        assert t in ds;
        FitNeeded(ts, ns, ds, n, d, t);
      }
    }
  }

  /** Every order must then give the most, and that is more than any one type has. */
  lemma MostOfOrders(ts: seq<Type>, ns: seq<Type>, ds: seq<Type>, n: Extent, d: Extent)
    requires Parts(ts, ns, ds, n, d) && OrderFree(ts) && !Covered(n, d)
    requires AllDecimals(ts) && Spans(ts, Numeric, n) && Spans(ts, Base.Decimal, d)
    ensures PrecisionOf(ts) == Most(n, d) && PrecisionOf(ts) > d.precision && PrecisionOf(ts) > n.precision
  {
    KindsWithin(ts, ts, n, d);
    FoldBounded(ts, n, d);
    DecimalsThenNumerics(ts, ns, ds, n, d);
    PrecisionIsFold(ts, n, d);
    var t :| t in ds && t.base == Base.Decimal && Digits(t) == d.digits;
    var k := IndexOf(ds, t);
    OneDecimalFirst(ts, ns, ds, n, d, k);
    hide Fold, OrderFree, Spans;
  }

  lemma PrecisionIsFold(ts: seq<Type>, n: Extent, d: Extent)
    requires |ts| > 0 && AllDecimals(ts) && Spans(ts, Numeric, n) && Spans(ts, Base.Decimal, d)
    requires DecimalUpTo(ts, Fold(ts).dimension)
    ensures PrecisionOf(ts) == Fold(ts).dimension >= Max(n.precision, d.precision)
  {
    hide Fold, Within;
  }

  lemma LevelNeeded(ts: seq<Type>, ns: seq<Type>, ds: seq<Type>, n: Extent, d: Extent, t: Type)
    requires Parts(ts, ns, ds, n, d) && OrderFree(ts) && t in ds && d.scale <= n.scale
    requires PrecisionOf(ts) == Most(n, d) > n.precision && PrecisionOf(ts) > d.precision
    ensures Digits(t) == Max(n.digits, d.digits)
  {
    var k := IndexOf(ds, t);
    NumericsFirst(ts, ns, ds, n, d, k);
    assert Within(t, d);
  }

  lemma LeaderNeeded(ts: seq<Type>, ns: seq<Type>, ds: seq<Type>, n: Extent, d: Extent)
    requires Parts(ts, ns, ds, n, d) && OrderFree(ts) && d.scale > n.scale
    requires PrecisionOf(ts) == n.digits + d.scale > d.precision
    ensures n.precision == n.digits + n.scale
  {
    var t :| t in ds && t.base == Base.Decimal && t.scale == d.scale;
    var k := IndexOf(ds, t);
    NumericsFirst(ts, ns, ds, n, d, k);
    assert Within(t, d);
  }

  lemma FitNeeded(ts: seq<Type>, ns: seq<Type>, ds: seq<Type>, n: Extent, d: Extent, t: Type)
    requires Parts(ts, ns, ds, n, d) && OrderFree(ts) && t in ds && d.scale > n.scale
    requires PrecisionOf(ts) == n.digits + d.scale > d.precision
    ensures Fits(t, n, Max(n.scale, d.scale))
  {
    var k := IndexOf(ds, t);
    OneDecimalFirst(ts, ns, ds, n, d, k);
    assert Within(t, d);
  }
}
