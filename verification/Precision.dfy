/** When the precision of the common type of a list of number types depends on its order. */
module Precision {
  import opened DecimalTypes
  import opened Expressions

  /** A number type as the system makes them: only decimals have a precision. */
  predicate Usual(t: Type) {
    NumberType(t) && (!IsDecimal(t.base) ==> t.dimension == 0)
  }

  predicate AllUsual(ts: seq<Type>) {
    forall t | t in ts :: Usual(t)
  }

  function PrecisionOf(ts: seq<Type>): int {
    if |ts| > 0 && forall t | t in ts :: NumberType(t) then Fold(ts).dimension else 0
  }

  /** All orders of the list give the same precision. */
  ghost predicate OrderFree(ts: seq<Type>) {
    forall us: seq<Type> | multiset(us) == multiset(ts) :: PrecisionOf(us) == PrecisionOf(ts)
  }

  function Bases(ts: seq<Type>): set<Base> {
    set t | t in ts :: t.base
  }

  predicate HasDecimal(ts: seq<Type>) {
    exists t | t in ts :: IsDecimal(t.base)
  }

  predicate HasFloating(ts: seq<Type>) {
    exists t | t in ts :: IsFloating(t.base)
  }

  // ---------------------------------------------------------------- two types

  /** For INT the precisions of both, for TINYINT that of the decimal. */
  predicate Balanced(a: Type, b: Type) {
    match a.base
    case TinyInt => b.dimension >= 5 + b.scale
    case Int => a.dimension == b.dimension || Max(a.dimension, b.dimension) <= Min(MAX_PRECISION, 10 + b.scale)
    case _ => true
  }

  /** The order of two number types matters to the precision only between an integer and a decimal. */
  lemma PairOrderFreeIff(a: Type, b: Type)
    requires NumberType(a) && NumberType(b)
    ensures Common(a, b).dimension == Common(b, a).dimension <==>
            if IsInteger(a.base) && IsDecimal(b.base) then Balanced(a, b)
            else if IsDecimal(a.base) && IsInteger(b.base) then Balanced(b, a)
            else true
  {
  }

  /** INT and DECIMAL(18, 2) give 18 digits in this order and 12 in the other. */
  lemma PrecisionDependsOnOrder()
    ensures PrecisionOf([Plain(Int, true), Type(Base.Decimal, 18, 2, true)]) == 18
    ensures PrecisionOf([Type(Base.Decimal, 18, 2, true), Plain(Int, true)]) == 12
  {
    FoldSnoc([Plain(Int, true)], Type(Base.Decimal, 18, 2, true));
    FoldSnoc([Type(Base.Decimal, 18, 2, true)], Plain(Int, true));
  }

  /** So do decimals of different scales and both kinds, although any two of them may change places. */
  lemma KindsMakeOrderMatter(n: Type, d: Type, e: Type)
    requires n == Type(Numeric, 5, 0, true)
    requires d == Type(Base.Decimal, 5, 4, true) && e == Type(Base.Decimal, 8, 0, true)
    ensures PrecisionOf([n, d, e]) == 9 && PrecisionOf([n, e, d]) == 8
  {
    hide PrecisionOf;
    ThreeTypes(n, d, e);
    ThreeTypes(n, e, d);
  }

  /** And so do decimals of different scales with an integer beside them. */
  lemma ScalesMakeOrderMatter(i: Type, d: Type, e: Type)
    requires i == Plain(SmallInt, true) && d == Type(Base.Decimal, 5, 0, true) && e == Type(Base.Decimal, 5, 4, true)
    ensures PrecisionOf([i, d, e]) == 5 && PrecisionOf([i, e, d]) == 9
  {
    hide PrecisionOf, Common;
    ThreeTypes(i, d, e);
    ThreeTypes(i, e, d);
    SmallIntegerThen(i, d, e);
    SmallIntegerThen(i, e, d);
  }

  lemma SmallIntegerThen(i: Type, d: Type, e: Type)
    requires i == Plain(SmallInt, true) && NumberType(d) && NumberType(e) && d.base == e.base == Base.Decimal
    ensures NumberType(Common(i, d))
    ensures Common(Common(i, d), e).dimension == Max(Max(5 + d.scale, d.dimension), e.dimension)
  {
  }

  lemma ThreeTypes(a: Type, b: Type, c: Type)
    requires NumberType(a) && NumberType(b) && NumberType(c)
    ensures NumberType(Common(a, b)) && PrecisionOf([a, b, c]) == Common(Common(a, b), c).dimension
  {
    assert [a, b, c] == [a, b] + [c] && [a, b] == [a] + [b];
    FoldSnoc([a], b);
    FoldSnoc([a, b], c);
  }

  lemma FoldSnoc(p: seq<Type>, t: Type)
    requires |p| > 0 && NumberType(t) && forall x | x in p :: NumberType(x)
    ensures Fold(p + [t]) == Common(Fold(p), t)
  {
    assert (p + [t])[..|p|] == p;
  }

  // ---------------------------------------------------------------- one more type

  function IntDigits(s: int): int {
    Min(MAX_PRECISION, 10 + s)
  }

  /** A decimal of d digits and scale s after an integer type b joins it. */
  function IntegerJoins(b: Base, s: int, d: int): int {
    match b
    case TinyInt => Max(3 + s, d)
    case SmallInt => Max(5 + s, d)
    case Int => IntDigits(s)
    case _ => MAX_PRECISION
  }

  /** An integer type b after a decimal of d digits and scale s joins it. */
  function DecimalJoins(b: Base, s: int, d: int): int {
    match b
    case BigInt => MAX_PRECISION
    case Int => Max(IntDigits(s), d)
    case _ => Max(5 + s, d)
  }

  /** Two decimals of one scale or of the kind DECIMAL combine place by place. */
  predicate Merge(x: Type, t: Type) {
    x.scale == t.scale || (x.base == Base.Decimal && t.base == Base.Decimal)
  }

  lemma DecimalStep(x: Type, t: Type)
    requires NumberType(x) && IsDecimal(x.base) && Usual(t) && !IsFloating(t.base)
    requires IsDecimal(t.base) ==> Merge(x, t)
    ensures var c := Common(x, t);
            && IsDecimal(c.base) && (x.base == Base.Decimal ==> c.base == Base.Decimal)
            && (IsDecimal(t.base) ==> c.scale == Max(x.scale, t.scale) && c.dimension == Max(x.dimension, t.dimension))
            && (IsInteger(t.base) ==> c.scale == x.scale && c.dimension == IntegerJoins(t.base, x.scale, x.dimension))
  {
  }

  lemma IntegerStep(x: Type, t: Type)
    requires Usual(x) && IsInteger(x.base) && Usual(t) && !IsFloating(t.base)
    ensures var c := Common(x, t);
            if IsDecimal(t.base) then
              c.base == Base.Decimal && c.scale == t.scale && c.dimension == DecimalJoins(x.base, t.scale, t.dimension)
            else Usual(c) && c.base == if Rank(x.base) < Rank(t.base) then t.base else x.base
  {
  }

  // ---------------------------------------------------------------- lists that merge

  /** Integers and decimals; the decimals of scale m, or DECIMALs of scales up to m. */
  predicate Merging(ts: seq<Type>, m: int, one: bool) {
    forall t | t in ts ::
      && Usual(t) && !IsFloating(t.base)
      && (IsDecimal(t.base) ==> t.scale <= m && if one then t.scale == m else t.base == Base.Decimal)
  }

  /** s is the greatest scale of a decimal in the list. */
  predicate TopScale(p: seq<Type>, s: int) {
    && (forall t | t in p && IsDecimal(t.base) :: t.scale <= s)
    && exists t | t in p :: IsDecimal(t.base) && t.scale == s
  }

  /** The type is a decimal of the greatest scale as soon as there is one, and before that the highest
      integer type. */
  predicate Settles(p: seq<Type>, one: bool, x: Type) {
    if HasDecimal(p) then IsDecimal(x.base) && TopScale(p, x.scale) && (!one ==> x.base == Base.Decimal)
    else Usual(x) && IsInteger(x.base) && x.base in Bases(p) && forall t | t in p :: Rank(t.base) <= Rank(x.base)
  }

  lemma {:induction false} FoldSettles(p: seq<Type>, m: int, one: bool)
    requires |p| > 0 && Merging(p, m, one)
    ensures Settles(p, one, Fold(p))
  {
    var n := |p| - 1;
    if n > 0 {
      var q, t := p[..n], p[n];
      assert p == q + [t];
      MergingInit(q, t, m, one);
      FoldSettles(q, m, one);
      SettlesStep(q, t, m, one, Fold(q));
    } else {
      assert p == [p[0]] && p[0] in p;
    }
  }

  lemma MergingInit(p: seq<Type>, t: Type, m: int, one: bool)
    requires Merging(p + [t], m, one)
    ensures Merging(p, m, one) && Merging([t], m, one) && t in p + [t]
  {
    assert forall x | x in p + [t] :: x in p || x == t;
    assert forall x | x in p :: x in p + [t];
  }

  /** How the fold goes on. */
  lemma OneMore(p: seq<Type>, t: Type, m: int, one: bool, x: Type)
    requires Merging(p + [t], m, one) && NumberType(x) && Settles(p, one, x)
    ensures Usual(t) && !IsFloating(t.base)
    ensures HasDecimal(p) ==>
              && IsDecimal(x.base) && x.scale <= m
              && Common(x, t).dimension ==
                 if IsDecimal(t.base) then Max(x.dimension, t.dimension) else IntegerJoins(t.base, x.scale, x.dimension)
    ensures !HasDecimal(p) && IsDecimal(t.base) ==>
              IsInteger(x.base) && Common(x, t).dimension == DecimalJoins(x.base, t.scale, t.dimension)
  {
    MergingInit(p, t, m, one);
    assert t in [t];
    if HasDecimal(p) { DecimalStep(x, t); } else { IntegerStep(x, t); }
    hide Common;
  }

  lemma SettlesStep(p: seq<Type>, t: Type, m: int, one: bool, x: Type)
    requires Merging(p + [t], m, one) && NumberType(x) && Settles(p, one, x)
    ensures Settles(p + [t], one, Common(x, t))
  {
    HasSnoc(p, t);
    MergingInit(p, t, m, one);
    assert t in [t] && forall y | y in p + [t] :: y in p || y == t;
    if HasDecimal(p) {
      DecimalStep(x, t);
      hide Common;
      var d :| d in p && IsDecimal(d.base) && d.scale == x.scale;
      assert d in p + [t];
    } else {
      IntegerStep(x, t);
      hide Common;
    }
  }

  lemma HasSnoc(p: seq<Type>, t: Type)
    ensures HasDecimal(p + [t]) <==> HasDecimal(p) || IsDecimal(t.base)
    ensures Bases(p + [t]) == Bases(p) + {t.base}
  {
    forall x | x in p ensures x in p + [t] {}
    assert t in p + [t];
  }

  // ---------------------------------------------------------------- without INT and BIGINT

  predicate DecimalUpTo(ts: seq<Type>, d: int) {
    forall t | t in ts && IsDecimal(t.base) :: t.dimension <= d
  }

  predicate DecimalOf(ts: seq<Type>, d: int) {
    exists t | t in ts :: IsDecimal(t.base) && t.dimension == d
  }

  /** d is the greatest precision of a decimal in the list, or made by one of the small integers. */
  predicate Peak(p: seq<Type>, m: int, one: bool, d: int) {
    && DecimalUpTo(p, d)
    && (one && SmallInt in Bases(p) ==> d >= 5 + m)
    && (DecimalOf(p, d) || ((SmallInt in Bases(p) || TinyInt in Bases(p)) && d <= 5 + m))
  }

  predicate NoReset(ts: seq<Type>) {
    Int !in Bases(ts) && BigInt !in Bases(ts)
  }

  lemma {:induction false} FoldPeaks(p: seq<Type>, m: int, one: bool)
    requires |p| > 0 && Merging(p, m, one) && NoReset(p) && HasDecimal(p)
    ensures Peak(p, m, one, Fold(p).dimension)
  {
    var n := |p| - 1;
    if n > 0 {
      var q, t := p[..n], p[n];
      assert p == q + [t];
      HasSnoc(q, t);
      MergingInit(q, t, m, one);
      FoldSettles(q, m, one);
      if HasDecimal(q) { FoldPeaks(q, m, one); }
      PeakStep(q, t, m, one, Fold(q));
    } else {
      assert p == [p[0]] && p[0] in p;
    }
  }

  lemma PeakStep(p: seq<Type>, t: Type, m: int, one: bool, x: Type)
    requires Merging(p + [t], m, one) && NoReset(p + [t]) && HasDecimal(p + [t])
    requires NumberType(x) && Settles(p, one, x) && (HasDecimal(p) ==> Peak(p, m, one, x.dimension))
    ensures Peak(p + [t], m, one, Common(x, t).dimension)
  {
    HasSnoc(p, t);
    OneMore(p, t, m, one, x);
    MergingInit(p, t, m, one);
    hide Common;
    assert t in [t] && forall y | y in p :: y in p + [t];
    if HasDecimal(p) {
      var d :| d in p && IsDecimal(d.base) && d.scale == x.scale;
      if DecimalOf(p, x.dimension) { assert DecimalOf(p + [t], x.dimension); }
    } else {
      assert x.base in Bases(p);
    }
  }

  // ---------------------------------------------------------------- with INT or BIGINT

  /** Decimals in the bag are all one and the same, once. */
  predicate Lone(b: multiset<Type>) {
    forall t, u | t in b && u in b && IsDecimal(t.base) && IsDecimal(u.base) :: t == u && b[t] == 1
  }

  /** The precision that INT or BIGINT sets, whatever it was. */
  function Reset(big: bool, m: int): int {
    if big then MAX_PRECISION else IntDigits(m)
  }

  /** Nothing in the list exceeds what INT or BIGINT sets. */
  predicate Calm(p: seq<Type>, m: int, big: bool) {
    var r := Reset(big, m);
    && (TinyInt in Bases(p) ==> 3 + m <= r)
    && (SmallInt in Bases(p) ==> 5 + m <= r)
    && (Int in Bases(p) ==> IntDigits(m) == r)
    && (BigInt in Bases(p) ==> big)
    && (DecimalUpTo(p, r) || (big && Lone(multiset(p))))
  }

  /** The decimal has the scale with which INT sets r digits. */
  predicate High(t: Type, r: int) {
    IsDecimal(t.base) && IntDigits(t.scale) >= r
  }

  predicate AllHigh(ts: seq<Type>, r: int) {
    forall t | t in ts && IsDecimal(t.base) :: High(t, r)
  }

  predicate HasFull(ts: seq<Type>, r: int) {
    exists t | t in ts :: High(t, r) && t.dimension == r
  }

  /** After INT has set fewer digits, at a smaller scale, something makes up for it. */
  predicate Restored(p: seq<Type>, r: int, given: bool) {
    given || HasFull(p, r)
  }

  /** What makes up for it in any case: no INT, or no smaller scale that matters. */
  predicate Given(p: seq<Type>, r: int, given: bool) {
    given ==> Int !in Bases(p) || AllHigh(p, r)
  }

  lemma CalmInit(p: seq<Type>, t: Type, m: int, big: bool, given: bool)
    requires Calm(p + [t], m, big) && Given(p + [t], Reset(big, m), given)
    ensures Calm(p, m, big) && Given(p, Reset(big, m), given)
  {
    HasSnoc(p, t);
    assert forall y | y in p :: y in p + [t];
    assert multiset(p + [t]) == multiset(p) + multiset{t};
    if Lone(multiset(p + [t])) {
      forall x, y | x in multiset(p) && y in multiset(p) && IsDecimal(x.base) && IsDecimal(y.base)
        ensures x == y && multiset(p)[x] == 1
      {
        assert x in multiset(p + [t]) && y in multiset(p + [t]);
      }
    }
  }

  predicate WasReset(p: seq<Type>, big: bool) {
    HasDecimal(p) && (if big then BigInt else Int) in Bases(p)
  }

  lemma {:induction false} FoldResets(p: seq<Type>, m: int, one: bool, big: bool, given: bool)
    requires |p| > 0 && Merging(p, m, one) && Calm(p, m, big) && Given(p, Reset(big, m), given) && WasReset(p, big)
    ensures Fold(p).dimension <= Reset(big, m)
    ensures Restored(p, Reset(big, m), given) ==> Fold(p).dimension == Reset(big, m)
  {
    var n := |p| - 1;
    assert p == p[..n] + [p[n]];
    HasSnoc(p[..n], p[n]);
    if n > 0 {
      MergingInit(p[..n], p[n], m, one);
      CalmInit(p[..n], p[n], m, big, given);
      FoldSettles(p[..n], m, one);
      if WasReset(p[..n], big) { FoldResets(p[..n], m, one, big, given); }
      ResetStep(p[..n], p[n], m, one, big, given, Fold(p[..n]));
    }
  }

  lemma ResetStep(p: seq<Type>, t: Type, m: int, one: bool, big: bool, given: bool, x: Type)
    requires Merging(p + [t], m, one) && Calm(p + [t], m, big) && Given(p + [t], Reset(big, m), given)
    requires WasReset(p + [t], big) && NumberType(x) && Settles(p, one, x)
    requires WasReset(p, big) ==> x.dimension <= Reset(big, m)
    requires WasReset(p, big) && Restored(p, Reset(big, m), given) ==> x.dimension == Reset(big, m)
    ensures Common(x, t).dimension <= Reset(big, m)
    ensures Restored(p + [t], Reset(big, m), given) ==> Common(x, t).dimension == Reset(big, m)
  {
    HasSnoc(p, t);
    OneMore(p, t, m, one, x);
    hide Common, Merging;
    assert t in p + [t];
    if !HasDecimal(p) {
      TopInteger(p, x, big);
      FirstDecimalResets(p, t, big, m, given);
    } else if IsDecimal(t.base) {
      if t.dimension > Reset(big, m) { NotLone(p, t); }
      FullSnoc(p, t, Reset(big, m));
    } else {
      FullSnoc(p, t, Reset(big, m));
      if t.base.Int? { ScaleIsHigh(p, t, x.scale, m, Reset(big, m), given); }
    }
  }

  lemma FullSnoc(p: seq<Type>, t: Type, r: int)
    ensures HasFull(p + [t], r) <==> HasFull(p, r) || (High(t, r) && t.dimension == r)
  {
    assert forall y | y in p + [t] :: y in p || y == t;
    assert t in p + [t] && forall y | y in p :: y in p + [t];
  }

  lemma ScaleIsHigh(p: seq<Type>, t: Type, s: int, m: int, r: int, given: bool)
    requires TopScale(p, s) && s <= m && IntDigits(m) == r && t.base.Int? && Given(p + [t], r, given)
    ensures IntDigits(s) <= r
    ensures Restored(p + [t], r, given) ==> IntDigits(s) == r
  {
    HasSnoc(p, t);
    FullSnoc(p, t, r);
    var d :| d in p && IsDecimal(d.base) && d.scale == s;
    assert d in p + [t];
  }

  lemma FirstDecimalResets(p: seq<Type>, t: Type, big: bool, m: int, given: bool)
    requires !HasDecimal(p) && IsDecimal(t.base) && t.scale <= m && t in p + [t]
    requires Calm(p + [t], m, big) && Given(p + [t], Reset(big, m), given) && (if big then BigInt else Int) in Bases(p)
    ensures var d := DecimalJoins(if big then BigInt else Int, t.scale, t.dimension);
            d <= Reset(big, m) && (Restored(p + [t], Reset(big, m), given) ==> d == Reset(big, m))
  {
    HasSnoc(p, t);
    FullSnoc(p, t, Reset(big, m));
    assert !HasFull(p, Reset(big, m));
  }

  lemma NotLone(p: seq<Type>, t: Type)
    requires HasDecimal(p) && IsDecimal(t.base)
    ensures !Lone(multiset(p + [t]))
  {
    var d :| d in p && IsDecimal(d.base);
    var b := multiset(p + [t]);
    assert b == multiset(p) + multiset{t};
    assert d in multiset(p) && d in b && t in b && (d == t ==> b[t] >= 2);
  }

  lemma TopInteger(p: seq<Type>, x: Type, big: bool)
    requires x.base in Bases(p) && IsInteger(x.base) && forall t | t in p :: Rank(t.base) <= Rank(x.base)
    requires BigInt in Bases(p) ==> big
    requires (if big then BigInt else Int) in Bases(p)
    ensures x.base == if big then BigInt else Int
  {
    var t :| t in p && t.base == if big then BigInt else Int;
    assert Rank(t.base) <= Rank(x.base);
  }

  // ---------------------------------------------------------------- the condition

  predicate AllOfScale(ts: seq<Type>, m: int) {
    forall t | t in ts && IsDecimal(t.base) :: t.scale == m
  }

  predicate HasDigitsFrom(ts: seq<Type>, d: int) {
    exists t | t in ts :: IsDecimal(t.base) && t.dimension >= d
  }

  /** With INT or BIGINT in the list: nothing exceeds what these set, and where INT may have set less
      some decimal makes up for it. Otherwise: no small integers, or a decimal with all digits they may
      call for, or SMALLINT and one scale only, at which it always calls for the same. */
  predicate Settled(ts: seq<Type>, m: int) {
    var big := BigInt in Bases(ts);
    if big || Int in Bases(ts) then
      Calm(ts, m, big) && (Int !in Bases(ts) || AllHigh(ts, Reset(big, m)) || HasFull(ts, Reset(big, m)))
    else
      || (TinyInt !in Bases(ts) && SmallInt !in Bases(ts))
      || HasDigitsFrom(ts, 5 + m)
      || (SmallInt in Bases(ts) && AllOfScale(ts, m))
  }

  /** Integers and decimals, the decimals of one scale or of the kind DECIMAL, m being the greatest. */
  predicate Mergeable(ts: seq<Type>, m: int) {
    TopScale(ts, m) && (Merging(ts, m, true) || Merging(ts, m, false))
  }

  lemma SameLists(ts: seq<Type>, us: seq<Type>)
    requires multiset(ts) == multiset(us)
    ensures |ts| == |us| && Bases(ts) == Bases(us) && (HasDecimal(ts) <==> HasDecimal(us))
    ensures forall t :: t in ts <==> t in us
  {
    SameElements(ts, us);
    assert forall t :: t in ts <==> t in us;
  }

  lemma PeakIsUnique(ts: seq<Type>, us: seq<Type>, m: int, one: bool, d: int, e: int)
    requires (forall t :: t in ts <==> t in us) && Bases(ts) == Bases(us)
    requires Peak(ts, m, one, d) && Peak(us, m, one, e)
    requires || (TinyInt !in Bases(ts) && SmallInt !in Bases(ts))
             || HasDigitsFrom(ts, 5 + m)
             || (SmallInt in Bases(ts) && one)
    ensures d == e
  {
  }

  lemma SettledIsOrderFree(ts: seq<Type>, us: seq<Type>, m: int)
    requires multiset(ts) == multiset(us) && Mergeable(ts, m) && Settled(ts, m)
    ensures PrecisionOf(us) == PrecisionOf(ts)
  {
    SameLists(ts, us);
    var one := AllOfScale(ts, m);
    MergesAs(ts, m);
    assert HasDecimal(ts) && |ts| > 0;
    hide Fold, Bases, HasDecimal;
    var big := BigInt in Bases(ts);
    if big || Int in Bases(ts) {
      var given := Int !in Bases(ts) || AllHigh(ts, Reset(big, m));
      FoldResets(ts, m, one, big, given);
      FoldResets(us, m, one, big, given);
    } else {
      FoldPeaks(ts, m, one);
      FoldPeaks(us, m, one);
      PeakIsUnique(ts, us, m, one, Fold(ts).dimension, Fold(us).dimension);
    }
  }

  lemma MergesAs(ts: seq<Type>, m: int)
    requires Mergeable(ts, m)
    ensures Merging(ts, m, AllOfScale(ts, m)) && forall t | t in ts :: NumberType(t)
  {
  }

  // ---------------------------------------------------------------- and that it is needed: one type last

  lemma MovedLast<T>(ts: seq<T>, k: nat)
    requires k < |ts|
    ensures var us := Without(ts, k) + [ts[k]];
            multiset(us) == multiset(ts) && (forall t | t in us :: t in ts) && forall t | t in Without(ts, k) :: t in us
  {
    var us := Without(ts, k) + [ts[k]];
    MultisetWithout(ts, k);
    assert ts[k] in multiset(ts);
    assert multiset(us) == multiset(Without(ts, k)) + multiset{ts[k]} == multiset(ts);
    SameElements(ts, us);
  }

  lemma LastInOrder(ts: seq<Type>, k: nat)
    requires OrderFree(ts) && k < |ts| && |ts| > 1 && forall t | t in ts :: NumberType(t)
    ensures (forall t | t in Without(ts, k) :: NumberType(t)) && |Without(ts, k)| > 0
    ensures Common(Fold(Without(ts, k)), ts[k]).dimension == PrecisionOf(ts)
  {
    hide Common, Fold, NumberType;
    MovedLast(ts, k);
    var us := Without(ts, k) + [ts[k]];
    assert ts[k] in us;
    FoldSnoc(Without(ts, k), ts[k]);
    assert PrecisionOf(us) == Fold(us).dimension && multiset(us) == multiset(ts);
  }

  lemma RestOf(ts: seq<Type>, m: int, one: bool, k: nat)
    requires k < |ts| && Merging(ts, m, one)
    ensures Merging(Without(ts, k), m, one) && Merging(Without(ts, k) + [ts[k]], m, one)
    ensures Bases(ts) == Bases(Without(ts, k)) + {ts[k].base}
    ensures TopScale(ts, m) && !IsDecimal(ts[k].base) ==> TopScale(Without(ts, k), m) && |Without(ts, k)| > 0
  {
    var rest := Without(ts, k);
    MovedLast(ts, k);
    assert forall t :: t in ts <==> t in rest || t == ts[k];
    if TopScale(ts, m) && !IsDecimal(ts[k].base) {
      var d :| d in ts && IsDecimal(d.base) && d.scale == m;
      assert d in rest;
    }
  }

  /** An integer type may come last. */
  lemma IntegerLast(ts: seq<Type>, m: int, one: bool, k: nat) returns (d: int)
    requires OrderFree(ts) && Merging(ts, m, one) && TopScale(ts, m) && k < |ts| && IsInteger(ts[k].base)
    ensures PrecisionOf(ts) == IntegerJoins(ts[k].base, m, d)
  {
    RestOf(ts, m, one, k);
    assert forall t | t in ts :: NumberType(t);
    LastInOrder(ts, k);
    FoldSettles(Without(ts, k), m, one);
    hide Common, Fold, OrderFree, Merging;
    var x := Fold(Without(ts, k));
    OneMore(Without(ts, k), ts[k], m, one, x);
    d := x.dimension;
  }

  /** A decimal may come last, after other decimals or after integers only. */
  lemma DecimalLast(ts: seq<Type>, m: int, one: bool, k: nat, big: bool)
    requires OrderFree(ts) && Merging(ts, m, one) && k < |ts| && IsDecimal(ts[k].base) && |ts| > 1
    requires (if big then BigInt else Int) in Bases(ts) && (BigInt in Bases(ts) ==> big)
    ensures PrecisionOf(ts) >= ts[k].dimension || (big && !HasDecimal(Without(ts, k)))
  {
    RestOf(ts, m, one, k);
    assert forall t | t in ts :: NumberType(t);
    LastInOrder(ts, k);
    FoldSettles(Without(ts, k), m, one);
    hide Common, Fold, OrderFree, Merging;
    var x := Fold(Without(ts, k));
    OneMore(Without(ts, k), ts[k], m, one, x);
    if !HasDecimal(Without(ts, k)) { TopInteger(Without(ts, k), x, big); }
  }

  lemma At(ts: seq<Type>, b: Base) returns (k: nat)
    requires b in Bases(ts)
    ensures k < |ts| && ts[k].base == b
  {
    var t :| t in ts && t.base == b;
    k := IndexOf(ts, t);
  }

  lemma OrderFreeIsCalm(ts: seq<Type>, m: int, one: bool, big: bool)
    requires OrderFree(ts) && Merging(ts, m, one) && TopScale(ts, m) && big == (BigInt in Bases(ts))
    requires (if big then BigInt else Int) in Bases(ts)
    ensures Calm(ts, m, big) && PrecisionOf(ts) == Reset(big, m)
  {
    hide OrderFree, Bases, Merging, TopScale;
    var k := At(ts, if big then BigInt else Int);
    var d := IntegerLast(ts, m, one, k);
    assert PrecisionOf(ts) == Reset(big, m);
    if TinyInt in Bases(ts) { var j := At(ts, TinyInt); var e := IntegerLast(ts, m, one, j); }
    if SmallInt in Bases(ts) { var j := At(ts, SmallInt); var e := IntegerLast(ts, m, one, j); }
    if Int in Bases(ts) { var j := At(ts, Int); var e := IntegerLast(ts, m, one, j); }
    if !DecimalUpTo(ts, Reset(big, m)) {
      var t :| t in ts && IsDecimal(t.base) && t.dimension > Reset(big, m);
      var j := IndexOf(ts, t);
      assert ts[j] != ts[k];
      DecimalLast(ts, m, one, j, big);
      LoneOne(ts, j);
    }
  }

  lemma LoneOne(ts: seq<Type>, k: nat)
    requires k < |ts| && IsDecimal(ts[k].base) && !HasDecimal(Without(ts, k))
    ensures Lone(multiset(ts))
  {
    MultisetWithout(ts, k);
    var b, n := multiset(ts), multiset(Without(ts, k));
    assert ts[k] in b;
    assert b == n + multiset{ts[k]};
    assert forall t | t in n :: t in Without(ts, k);
  }

  // ---------------------------------------------------------------- integers between decimals

  function Keep(ts: seq<Type>, f: Type -> bool): (us: seq<Type>)
    ensures forall t :: t in us <==> t in ts && f(t)
  {
    if ts == [] then [] else if f(ts[0]) then [ts[0]] + Keep(ts[1..], f) else Keep(ts[1..], f)
  }

  function Not(f: Type -> bool): Type -> bool {
    t => !f(t)
  }

  lemma {:induction false} KeepSplits(ts: seq<Type>, f: Type -> bool)
    ensures multiset(Keep(ts, f)) + multiset(Keep(ts, Not(f))) == multiset(ts)
  {
    if ts != [] {
      KeepSplits(ts[1..], f);
      assert ts == [ts[0]] + ts[1..];
    }
  }

  predicate AllDecimals(ts: seq<Type>) {
    forall t | t in ts :: IsDecimal(t.base)
  }

  lemma Follow(q: seq<Type>, t: Type, m: int, one: bool) returns (x: Type)
    requires |q| > 0 && Merging(q + [t], m, one)
    ensures Merging(q, m, one) && Settles(q, one, x) && x.dimension == PrecisionOf(q)
    ensures HasDecimal(q) && IsDecimal(t.base) ==> PrecisionOf(q + [t]) == Max(PrecisionOf(q), t.dimension)
    ensures HasDecimal(q) && IsInteger(t.base) ==> PrecisionOf(q + [t]) == IntegerJoins(t.base, x.scale, PrecisionOf(q))
    ensures !HasDecimal(q) && IsDecimal(t.base) ==> PrecisionOf(q + [t]) == DecimalJoins(x.base, t.scale, t.dimension)
  {
    MergingInit(q, t, m, one);
    assert (forall y | y in q + [t] :: NumberType(y)) && forall y | y in q :: NumberType(y);
    x := Fold(q);
    FoldSettles(q, m, one);
    FoldSnoc(q, t);
    OneMore(q, t, m, one, x);
    hide Fold, Common, Merging, Settles;
  }

  /** Decimals after decimals only raise the precision to the greatest of theirs. */
  lemma {:induction false} DecimalsFollow(p: seq<Type>, ds: seq<Type>, m: int, one: bool, b: int)
    requires |p| > 0 && HasDecimal(p) && Merging(p + ds, m, one) && AllDecimals(ds)
    ensures PrecisionOf(p + ds) >= PrecisionOf(p)
    ensures PrecisionOf(p) < b && (forall t | t in ds :: t.dimension < b) ==> PrecisionOf(p + ds) < b
    decreases |ds|
  {
    hide PrecisionOf, Merging;
    var n := |ds| - 1;
    if n < 0 {
      assert p + ds == p;
    } else {
      var q, t := p + ds[..n], ds[n];
      assert p + ds == q + [t] && t in ds;
      var x := Follow(q, t, m, one);
      assert forall y | y in ds[..n] :: y in ds;
      DecimalsFollow(p, ds[..n], m, one, b);
      var d :| d in p && IsDecimal(d.base);
      assert d in q;
    }
  }

  /** Small integers after a decimal raise it at most to what they call for at its scale. */
  lemma {:induction false} IntegersFollow(x: Type, js: seq<Type>, m: int, one: bool, b: int)
    requires IsDecimal(x.base) && Merging([x] + js, m, one) && PrecisionOf([x]) < b && 3 + x.scale < b
    requires forall t | t in js :: t.base.TinyInt? || (t.base.SmallInt? && 5 + x.scale < b)
    ensures PrecisionOf([x] + js) < b
    decreases |js|
  {
    hide PrecisionOf, Merging;
    var n := |js| - 1;
    if n < 0 {
      assert [x] + js == [x];
    } else {
      var q, t := [x] + js[..n], js[n];
      assert [x] + js == q + [t] && t in js;
      var y := Follow(q, t, m, one);
      assert forall z | z in js[..n] :: z in js;
      IntegersFollow(x, js[..n], m, one, b);
      assert q[0] in q;
      OnlyScale(x, js[..n], y.scale);
    }
  }

  lemma OnlyScale(x: Type, js: seq<Type>, s: int)
    requires IsDecimal(x.base) && (forall t | t in js :: !IsDecimal(t.base)) && TopScale([x] + js, s)
    ensures s == x.scale
  {
    assert forall t | t in [x] + js :: t == x || t in js;
  }

  predicate IsDecimalType(t: Type) {
    IsDecimal(t.base)
  }

  function DecimalsOf(ts: seq<Type>): (us: seq<Type>)
    ensures AllDecimals(us)
  {
    Keep(ts, IsDecimalType)
  }

  function IntegersOf(ts: seq<Type>): seq<Type> {
    Keep(ts, Not(IsDecimalType))
  }

  lemma ThreeParts<T>(x: T, p: seq<T>, q: seq<T>, b: multiset<T>)
    requires x in b && multiset(p) + multiset(q) == b - multiset{x}
    ensures multiset([x] + p + q) == b && multiset(p + [x] + q) == b
  {
    assert b == (b - multiset{x}) + multiset{x};
    assert multiset([x] + p + q) == multiset{x} + multiset(p) + multiset(q);
    assert multiset(p + [x] + q) == multiset(p) + multiset{x} + multiset(q);
  }

  /** One type with the integers after it or before it, and then the decimals. */
  lemma Arranged(ts: seq<Type>, k: nat)
    requires k < |ts|
    ensures var rest := Without(ts, k);
            && multiset([ts[k]] + IntegersOf(rest) + DecimalsOf(rest)) == multiset(ts)
            && multiset(IntegersOf(rest) + [ts[k]] + DecimalsOf(rest)) == multiset(ts)
  {
    var rest := Without(ts, k);
    MultisetWithout(ts, k);
    KeepSplits(rest, IsDecimalType);
    assert ts[k] in multiset(ts);
    ThreeParts(ts[k], IntegersOf(rest), DecimalsOf(rest), multiset(ts));
  }

  lemma Reordered(ts: seq<Type>, p: seq<Type>, q: seq<Type>, m: int, one: bool)
    requires multiset(p + q) == multiset(ts) && Merging(ts, m, one)
    ensures Merging(p + q, m, one) && Merging(p, m, one) && (forall t | t in p + q :: t in ts)
    ensures OrderFree(ts) ==> PrecisionOf(p + q) == PrecisionOf(ts)
  {
    hide PrecisionOf;
    SameLists(p + q, ts);
    assert forall t | t in p :: t in p + q;
  }

  /** A decimal first, of a scale at which the integers call for less than b digits. */
  lemma BelowInSomeOrder(ts: seq<Type>, m: int, one: bool, k: nat, b: int)
    requires OrderFree(ts) && Merging(ts, m, one) && k < |ts| && IsDecimal(ts[k].base) && NoReset(ts)
    requires 3 + ts[k].scale < b && (SmallInt in Bases(ts) ==> 5 + ts[k].scale < b)
    requires forall t | t in ts && IsDecimal(t.base) :: t.dimension < b
    ensures PrecisionOf(ts) < b
  {
    var rest := Without(ts, k);
    var js, ds := IntegersOf(rest), DecimalsOf(rest);
    var p := [ts[k]] + js;
    Arranged(ts, k);
    Reordered(ts, p, ds, m, one);
    assert ts[k] in ts && p[0] in p && Usual(ts[k]) && [ts[k]][0] in [ts[k]];
    assert PrecisionOf([ts[k]]) == ts[k].dimension;
    hide OrderFree, PrecisionOf, Merging, IntegersOf, DecimalsOf;
    forall t | t in js ensures t.base.TinyInt? || (t.base.SmallInt? && 5 + ts[k].scale < b) {
      assert t in p + ds;
      NotDecimal(rest, t);
      SmallIntegers(ts, p + ds, t, m, one);
    }
    IntegersFollow(ts[k], js, m, one, b);
    DecimalsFollow(p, ds, m, one, b);
    assert forall t | t in ds :: t in p + ds;
  }

  lemma NotDecimal(ts: seq<Type>, t: Type)
    requires t in IntegersOf(ts)
    ensures !IsDecimal(t.base)
  {
    assert Not(IsDecimalType)(t);
  }

  lemma TinyThen(js: seq<Type>, d: Type, m: int, one: bool)
    requires js != [] && (forall t | t in js :: t.base.TinyInt?) && IsDecimal(d.base) && Merging(js + [d], m, one)
    ensures PrecisionOf(js + [d]) >= 5 + d.scale && HasDecimal(js + [d])
  {
    hide PrecisionOf, Merging;
    var x := Follow(js, d, m, one);
    assert (js + [d])[|js|] in js + [d];
  }

  lemma IntegerKept(ts: seq<Type>, b: Base)
    requires b in Bases(ts) && IsInteger(b)
    ensures IntegersOf(ts) != []
  {
    var t :| t in ts && t.base == b;
    assert !IsDecimalType(t);
    assert Not(IsDecimalType)(t);
    assert t in IntegersOf(ts);
  }

  lemma SmallIntegers(ts: seq<Type>, us: seq<Type>, t: Type, m: int, one: bool)
    requires (forall x | x in us :: x in ts) && t in us && Merging(ts, m, one) && NoReset(ts) && !IsDecimal(t.base)
    ensures (t.base.TinyInt? || t.base.SmallInt?) && t.base in Bases(ts)
  {
    assert t in ts;
  }

  /** TINYINT first and then a decimal of the greatest scale. */
  lemma AboveWithTinyFirst(ts: seq<Type>, m: int, one: bool)
    requires OrderFree(ts) && Merging(ts, m, one) && TopScale(ts, m) && NoReset(ts)
    requires TinyInt in Bases(ts) && SmallInt !in Bases(ts)
    ensures PrecisionOf(ts) >= 5 + m
  {
    var d :| d in ts && IsDecimal(d.base) && d.scale == m;
    var k := IndexOf(ts, d);
    var rest := Without(ts, k);
    var js, ds := IntegersOf(rest), DecimalsOf(rest);
    RestOf(ts, m, one, k);
    Arranged(ts, k);
    Reordered(ts, js + [d], ds, m, one);
    IntegerKept(rest, TinyInt);
    hide OrderFree, PrecisionOf, Merging, IntegersOf, DecimalsOf, TopScale, Without, Bases;
    forall t | t in js ensures t.base.TinyInt? {
      assert t in js + [d] + ds;
      NotDecimal(rest, t);
      SmallIntegers(ts, js + [d] + ds, t, m, one);
    }
    TinyThen(js, d, m, one);
    DecimalsFollow(js + [d], ds, m, one, 0);
  }

  lemma SmallIntegersSettled(ts: seq<Type>, m: int, one: bool)
    requires OrderFree(ts) && Merging(ts, m, one) && TopScale(ts, m) && NoReset(ts)
    requires TinyInt in Bases(ts) || SmallInt in Bases(ts)
    ensures HasDigitsFrom(ts, 5 + m) || (SmallInt in Bases(ts) && AllOfScale(ts, m))
  {
    hide OrderFree, Bases, Merging;
    if !HasDigitsFrom(ts, 5 + m) {
      if SmallInt in Bases(ts) {
        var j := At(ts, SmallInt);
        var e := IntegerLast(ts, m, one, j);
        if !AllOfScale(ts, m) {
          var t :| t in ts && IsDecimal(t.base) && t.scale != m;
          var k := IndexOf(ts, t);
          BelowInSomeOrder(ts, m, one, k, 5 + m);
        }
      } else {
        AboveWithTinyFirst(ts, m, one);
        var t :| t in ts && IsDecimal(t.base) && t.scale == m;
        var k := IndexOf(ts, t);
        BelowInSomeOrder(ts, m, one, k, 5 + m);
      }
    }
  }

  // ---------------------------------------------------------------- INT between decimals

  function IsLow(r: int): Type -> bool {
    (t: Type) => IsDecimal(t.base) && !High(t, r)
  }

  /** The decimals of small scales and the other integers, then INT, then the other decimals. */
  lemma IntInBetween(ts: seq<Type>, k: nat, r: int) returns (p: seq<Type>, ds: seq<Type>)
    requires k < |ts| && !IsDecimal(ts[k].base)
    ensures multiset(p + [ts[k]] + ds) == multiset(ts)
    ensures forall t | t in p && IsDecimal(t.base) :: !High(t, r)
    ensures forall t | t in ts && IsDecimal(t.base) && !High(t, r) :: t in p
    ensures AllDecimals(ds) && forall t | t in ds :: High(t, r)
  {
    var rest := Without(ts, k);
    var lows, others := Keep(rest, IsLow(r)), Keep(rest, Not(IsLow(r)));
    p, ds := lows + IntegersOf(others), DecimalsOf(others);
    MultisetWithout(ts, k);
    KeepSplits(rest, IsLow(r));
    KeepSplits(others, IsDecimalType);
    assert ts[k] in multiset(ts);
    assert multiset(p) == multiset(lows) + multiset(IntegersOf(others));
    ThreeParts(ts[k], p, ds, multiset(ts));
    forall t | t in ts && IsDecimal(t.base) && !High(t, r) ensures t in p {
      assert t in rest;
    }
  }

  lemma OrderFreeRestores(ts: seq<Type>, m: int, one: bool, r: int)
    requires OrderFree(ts) && Merging(ts, m, one) && Int in Bases(ts) && PrecisionOf(ts) == r
    requires DecimalUpTo(ts, r) || Lone(multiset(ts))
    ensures AllHigh(ts, r) || HasFull(ts, r)
  {
    if !AllHigh(ts, r) && !HasFull(ts, r) {
      var low :| low in ts && IsDecimal(low.base) && !High(low, r);
      var k := At(ts, Int);
      var p, ds := IntInBetween(ts, k, r);
      Reordered(ts, p + [ts[k]], ds, m, one);
      hide OrderFree, PrecisionOf, Merging, HasFull;
      forall t | t in ds ensures t.dimension < r {
        assert t in p + [ts[k]] + ds;
        BothDecimals(ts, low, t, r);
      }
      LowScale(p, ts[k], low, m, one, r);
      assert low in p + [ts[k]];
      DecimalsFollow(p + [ts[k]], ds, m, one, r);
    }
  }

  lemma BothDecimals(ts: seq<Type>, low: Type, t: Type, r: int)
    requires low in ts && t in ts && IsDecimal(low.base) && !High(low, r) && High(t, r) && !HasFull(ts, r)
    requires DecimalUpTo(ts, r) || Lone(multiset(ts))
    ensures t.dimension < r
  {
    assert low in multiset(ts) && t in multiset(ts);
  }

  lemma LowScale(p: seq<Type>, t: Type, low: Type, m: int, one: bool, r: int)
    requires Merging(p + [t], m, one) && t.base.Int? && low in p && IsDecimal(low.base)
    requires forall x | x in p && IsDecimal(x.base) :: !High(x, r)
    ensures PrecisionOf(p + [t]) < r
  {
    assert HasDecimal(p);
    hide PrecisionOf, Merging;
    var x := Follow(p, t, m, one);
    var d :| d in p && IsDecimal(d.base) && d.scale == x.scale;
  }

  // ---------------------------------------------------------------- order does not matter exactly when

  /** Every order of the list gives the same precision exactly when the list is settled. */
  lemma PrecisionIgnoresOrderIff(ts: seq<Type>, m: int)
    requires Mergeable(ts, m)
    ensures OrderFree(ts) <==> Settled(ts, m)
  {
    if Settled(ts, m) {
      forall us: seq<Type> | multiset(us) == multiset(ts) ensures PrecisionOf(us) == PrecisionOf(ts) {
        SettledIsOrderFree(ts, us, m);
      }
    }
    var one := AllOfScale(ts, m);
    MergesAs(ts, m);
    hide Calm, Merging, HasDigitsFrom, AllOfScale, AllHigh, HasFull, PrecisionOf, Bases;
    if OrderFree(ts) {
      var big := BigInt in Bases(ts);
      if big || Int in Bases(ts) {
        OrderFreeIsCalm(ts, m, one, big);
        if Int in Bases(ts) {
          CalmDigits(ts, m, big);
          OrderFreeRestores(ts, m, one, Reset(big, m));
        }
      } else if TinyInt in Bases(ts) || SmallInt in Bases(ts) {
        SmallIntegersSettled(ts, m, one);
      }
    }
  }

  lemma CalmDigits(ts: seq<Type>, m: int, big: bool)
    requires Calm(ts, m, big)
    ensures DecimalUpTo(ts, Reset(big, m)) || Lone(multiset(ts))
  {
  }

  // ---------------------------------------------------------------- lists of any scales

  /** One kind of decimals: the precision is the greatest. */
  lemma {:induction false} OneKindPeaks(p: seq<Type>, kind: Base)
    requires |p| > 0 && IsDecimal(kind) && forall t | t in p :: NumberType(t) && t.base == kind
    ensures Fold(p).base == kind && DecimalUpTo(p, Fold(p).dimension) && DecimalOf(p, Fold(p).dimension)
  {
    var n := |p| - 1;
    assert p == p[..n] + [p[n]] && p[n] in p;
    if n > 0 {
      assert forall t | t in p[..n] :: t in p;
      OneKindPeaks(p[..n], kind);
    }
  }

  /** A floating type makes it 0 from there on, and without decimals it is 0. */
  lemma {:induction false} NoPrecision(p: seq<Type>)
    requires |p| > 0 && AllUsual(p) && (HasFloating(p) || !HasDecimal(p))
    ensures Usual(Fold(p)) && !IsDecimal(Fold(p).base) && (HasFloating(p) ==> IsFloating(Fold(p).base))
  {
    var n := |p| - 1;
    assert p == p[..n] + [p[n]] && p[n] in p;
    if n > 0 {
      var q, t := p[..n], p[n];
      assert forall y | y in q :: y in p && Usual(y);
      if HasFloating(q) || !HasDecimal(q) { NoPrecision(q); }
      FloatingStep(Fold(q), t);
      FoldSnoc(q, t);
      hide Common, Fold;
      assert HasFloating(p) ==> HasFloating(q) || IsFloating(t.base);
    }
  }

  lemma FloatingStep(x: Type, t: Type)
    requires NumberType(x) && Usual(t)
    ensures IsFloating(t.base) && (IsFloating(x.base) ==> Usual(x)) ==>
              Usual(Common(x, t)) && IsFloating(Common(x, t).base)
    ensures IsFloating(x.base) && Usual(x) ==> Usual(Common(x, t)) && IsFloating(Common(x, t).base)
    ensures IsInteger(x.base) && Usual(x) && IsInteger(t.base) ==> Usual(Common(x, t)) && IsInteger(Common(x, t).base)
  {
  }

  /** With a floating type, without decimals, or with decimals of one kind only, order never matters. */
  lemma PrecisionIgnoresOrder(ts: seq<Type>)
    requires |ts| > 0 && AllUsual(ts)
    requires HasFloating(ts) || !HasDecimal(ts) ||
             exists kind: Base :: IsDecimal(kind) && forall t | t in ts :: t.base == kind
    ensures OrderFree(ts)
  {
    forall us: seq<Type> | multiset(us) == multiset(ts) ensures PrecisionOf(us) == PrecisionOf(ts) {
      SameElements(ts, us);
      if HasFloating(ts) || !HasDecimal(ts) {
        NoPrecision(ts);
        NoPrecision(us);
      } else {
        var kind: Base :| IsDecimal(kind) && forall t | t in ts :: t.base == kind;
        OneKindPeaks(ts, kind);
        OneKindPeaks(us, kind);
      }
    }
  }
}
