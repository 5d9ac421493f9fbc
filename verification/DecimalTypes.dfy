/** The types of arithmetic on integers and decimals. */
module DecimalTypes {
  import opened Expressions
  import opened Decimal

  const MAX_PRECISION := 19

  function Max(a: int, b: int): int {
    if a < b then b else a
  }

  function Min(a: int, b: int): int {
    if a < b then a else b
  }

  predicate IsInteger(b: Base) {
    b.TinyInt? || b.SmallInt? || b.Int? || b.BigInt?
  }

  predicate IsDecimal(b: Base) {
    b.Numeric? || b.Decimal?
  }

  predicate IsFloating(b: Base) {
    b.Float? || b.Double?
  }

  predicate IsNumber(b: Base) {
    IsInteger(b) || IsDecimal(b) || IsFloating(b)
  }

  /** A number type; only decimals have a scale. */
  predicate NumberType(t: Type) {
    IsNumber(t.base) && t.scale >= 0 && (!IsDecimal(t.base) ==> t.scale == 0)
  }

  function Plain(b: Base, notNull: bool): Type {
    Type(b, 0, 0, notNull)
  }

  /** common_numeric_type of an integer type and a decimal type, in that order. */
  function IntegerThenDecimal(a: Type, b: Type, notNull: bool): Type {
    var precision :=
      if a.base.TinyInt? || a.base.SmallInt? then Max(5 + b.scale, b.dimension)
      else if a.base.Int? then Max(Min(MAX_PRECISION, 10 + b.scale), b.dimension)
      else MAX_PRECISION;
    Type(Base.Decimal, precision, b.scale, notNull)
  }

  /** And of a decimal type and an integer type: for INT the precision of the decimal is not looked at. */
  function DecimalThenInteger(a: Type, b: Type, notNull: bool): Type {
    var precision :=
      if b.base.TinyInt? then Max(3 + a.scale, a.dimension)
      else if b.base.SmallInt? then Max(5 + a.scale, a.dimension)
      else if b.base.Int? then Max(Min(MAX_PRECISION, 10 + a.scale), b.dimension)
      else MAX_PRECISION;
    Type(Base.Decimal, precision, a.scale, notNull)
  }

  function Rank(b: Base): int {
    match b
    case TinyInt => 1
    case SmallInt => 2
    case Int => 3
    case BigInt => 4
    case Float => 5
    case Double => 6
    case _ => 0
  }

  function Common(a: Type, b: Type): Type
    requires NumberType(a) && NumberType(b)
  {
    var notNull := a.notNull && b.notNull;
    if a.base == b.base then Type(a.base, Max(a.dimension, b.dimension), Max(a.scale, b.scale), notNull)
    else if IsDecimal(a.base) && IsDecimal(b.base) then
      var scale := Max(a.scale, b.scale);
      Type(Base.Decimal, Max(a.dimension - a.scale, b.dimension - b.scale) + scale, scale, notNull)
    else if IsInteger(a.base) && IsDecimal(b.base) then IntegerThenDecimal(a, b, notNull)
    else if IsDecimal(a.base) && IsInteger(b.base) then DecimalThenInteger(a, b, notNull)
    else Plain(if Rank(a.base) < Rank(b.base) then b.base else a.base, notNull)
  }

  // ---------------------------------------------------------------- folding over a list of types

  /** All of a type but its precision. */
  datatype View = View(base: Base, scale: int, notNull: bool)

  function ViewOf(t: Type): View {
    View(t.base, t.scale, t.notNull)
  }

  predicate GoodView(v: View) {
    NumberType(Type(v.base, 0, v.scale, v.notNull))
  }

  function Height(b: Base): int {
    if IsInteger(b) then Rank(b) else if IsDecimal(b) then 5 else if b.Float? then 6 else 7
  }

  function AtHeight(h: int): Base {
    if h == 1 then TinyInt else if h == 2 then SmallInt else if h == 3 then Int else if h == 4 then BigInt
    else if h == 5 then Base.Decimal else if h == 6 then Float else Double
  }

  /** The kinds grow TINYINT to BIGINT, NUMERIC beside them, then DECIMAL, FLOAT and DOUBLE. */
  function JoinBase(a: Base, b: Base): Base {
    if a == b then a else AtHeight(Max(Height(a), Height(b)))
  }

  function Join(a: View, b: View): View {
    var base := JoinBase(a.base, b.base);
    View(base, if IsDecimal(base) then Max(a.scale, b.scale) else 0, a.notNull && b.notNull)
  }

  lemma CommonIsJoin(a: Type, b: Type)
    requires NumberType(a) && NumberType(b)
    ensures NumberType(Common(a, b)) && ViewOf(Common(a, b)) == Join(ViewOf(a), ViewOf(b))
  {
  }

  lemma JoinBaseFacts(a: Base, b: Base)
    requires IsNumber(a) && IsNumber(b)
    ensures IsNumber(JoinBase(a, b)) && Height(JoinBase(a, b)) == Max(Height(a), Height(b))
    ensures a != b ==> JoinBase(a, b) == AtHeight(Height(JoinBase(a, b)))
  {
  }

  lemma JoinBaseAssociates(a: Base, b: Base, c: Base)
    requires IsNumber(a) && IsNumber(b) && IsNumber(c)
    ensures JoinBase(JoinBase(a, b), c) == JoinBase(a, JoinBase(b, c))
  {
    JoinBaseFacts(a, b);
    JoinBaseFacts(b, c);
    JoinBaseFacts(JoinBase(a, b), c);
    JoinBaseFacts(a, JoinBase(b, c));
    hide Height, AtHeight, IsNumber;
  }

  lemma JoinCommutes(a: View, b: View)
    requires GoodView(a) && GoodView(b)
    ensures GoodView(Join(a, b)) && Join(a, b) == Join(b, a) && Join(a, a) == a
  {
    JoinBaseFacts(a.base, b.base);
  }

  lemma JoinAssociates(a: View, b: View, c: View)
    requires GoodView(a) && GoodView(b) && GoodView(c)
    ensures Join(Join(a, b), c) == Join(a, Join(b, c))
  {
    var x, y, z := a.base, b.base, c.base;
    JoinBaseAssociates(x, y, z);
    JoinBaseFacts(x, y);
    JoinBaseFacts(y, z);
    JoinBaseFacts(x, JoinBase(y, z));
    hide JoinBase, AtHeight;
  }

  function Fold(ts: seq<Type>): (t: Type)
    requires |ts| > 0 && forall t | t in ts :: NumberType(t)
    ensures NumberType(t)
  {
    if |ts| == 1 then ts[0]
    else
      var t := Fold(ts[..|ts| - 1]);
      CommonIsJoin(t, ts[|ts| - 1]);
      Common(t, ts[|ts| - 1])
  }

  function Without<T>(s: seq<T>, k: nat): seq<T>
    requires k < |s|
  {
    s[..k] + s[k + 1..]
  }

  /** Any member of the list may as well come last. */
  lemma {:induction false} FoldPulls(ts: seq<Type>, k: nat)
    requires k < |ts| && |ts| > 1 && forall t | t in ts :: NumberType(t)
    ensures ViewOf(Fold(ts)) == Join(ViewOf(Fold(Without(ts, k))), ViewOf(ts[k]))
    decreases |ts|
  {
    hide Common, Join, NumberType, ViewOf;
    var n := |ts| - 1;
    var init, last := ts[..n], ts[n];
    CommonIsJoin(Fold(init), last);
    if k == n {
      assert Without(ts, k) == init;
    } else {
      var rest := Without(ts, k);
      assert rest[|rest| - 1] == last;
      if |init| == 1 {
        assert rest == [last] && init == [ts[0]];
        ViewsCommute(ts[0], last);
      } else {
        assert rest[..|rest| - 1] == Without(init, k);
        FoldPulls(init, k);
        CommonIsJoin(Fold(Without(init, k)), last);
        Exchange(Fold(Without(init, k)), ts[k], last);
      }
    }
  }

  lemma ViewsCommute(a: Type, b: Type)
    requires NumberType(a) && NumberType(b)
    ensures Join(ViewOf(a), ViewOf(b)) == Join(ViewOf(b), ViewOf(a))
  {
    JoinCommutes(ViewOf(a), ViewOf(b));
  }

  lemma Exchange(a: Type, b: Type, c: Type)
    requires NumberType(a) && NumberType(b) && NumberType(c)
    ensures Join(Join(ViewOf(a), ViewOf(b)), ViewOf(c)) == Join(Join(ViewOf(a), ViewOf(c)), ViewOf(b))
  {
    hide Join;
    JoinAssociates(ViewOf(a), ViewOf(b), ViewOf(c));
    JoinAssociates(ViewOf(a), ViewOf(c), ViewOf(b));
    JoinCommutes(ViewOf(b), ViewOf(c));
  }

  /** The kind, the scale and the nullability of a fold do not depend on the order. */
  lemma {:induction false} FoldIgnoresOrder(ts: seq<Type>, us: seq<Type>)
    requires multiset(ts) == multiset(us) && |ts| > 0 && forall t | t in ts :: NumberType(t)
    ensures |us| == |ts| && (forall t | t in us :: NumberType(t)) && ViewOf(Fold(ts)) == ViewOf(Fold(us))
    decreases |ts|
  {
    SameElements(ts, us);
    var n := |ts| - 1;
    var k := IndexOf(us, ts[n]);
    if n == 0 {
      assert us == [us[0]] && k == 0;
    } else {
      assert Without(ts, n) == ts[..n];
      MultisetWithout(ts, n);
      MultisetWithout(us, k);
      FoldPulls(ts, n);
      FoldPulls(us, k);
      FoldIgnoresOrder(ts[..n], Without(us, k));
    }
  }

  lemma SameElements<T>(s: seq<T>, t: seq<T>)
    requires multiset(s) == multiset(t)
    ensures |s| == |t| && forall x | x in t :: x in s
    ensures forall x | x in s :: x in t
  {
    assert |multiset(s)| == |s| && |multiset(t)| == |t|;
    forall x | x in t ensures x in s { assert x in multiset(t); }
    forall x | x in s ensures x in t { assert x in multiset(s); }
  }

  lemma IndexOf<T>(s: seq<T>, x: T) returns (k: nat)
    requires x in s
    ensures k < |s| && s[k] == x
  {
    k :| k < |s| && s[k] == x;
  }

  lemma MultisetWithout<T>(s: seq<T>, k: nat)
    requires k < |s|
    ensures multiset(Without(s, k)) == multiset(s) - multiset{s[k]}
  {
    assert s == s[..k] + [s[k]] + s[k + 1..];
  }

  // ---------------------------------------------------------------- arithmetic

  datatype ArithOp = Plus | Minus | Times

  /** analyze_type_info of arithmetic: the types the operands are cast to and the type of the result. */
  function Analyze(op: ArithOp, a: Type, b: Type): (r: (Type, Type, Type))
    requires NumberType(a) && NumberType(b)
  {
    var c := Common(a, b);
    var dimension :=
      if !IsDecimal(c.base) then c.dimension
      else if op.Times? then Max(c.dimension, a.dimension + b.dimension)
      else c.dimension + 1;
    var scale := if IsDecimal(c.base) && op.Times? then a.scale + b.scale else c.scale;
    (Type(c.base, dimension, if op.Times? then a.scale else scale, a.notNull),
     Type(c.base, dimension, if op.Times? then b.scale else scale, b.notNull),
     Type(c.base, dimension, scale, a.notNull && b.notNull))
  }

  predicate Exact(t: Type) {
    NumberType(t) && !IsFloating(t.base)
  }

  /** The number that an unscaled integer stands for. */
  function Val(n: int, scale: nat): real {
    n as real / Pow10(scale) as real
  }

  function Apply(op: ArithOp, x: int, y: int): int {
    match op case Plus => x + y case Minus => x - y case Times => x * y
  }

  function ApplyReal(op: ArithOp, x: real, y: real): real {
    match op case Plus => x + y case Minus => x - y case Times => x * y
  }

  lemma ValRescaled(n: int, s: nat, t: nat)
    requires s <= t
    ensures Val(Rescaled(n, s, t), t) == Val(n, s)
  {
    Pow10Sum(s, t - s);
    ScaledFraction(n, Pow10(s), Pow10(t - s));
    hide Pow10, Round;
  }

  lemma ScaledFraction(n: int, a: int, b: int)
    requires a > 0 && b > 0
    ensures a * b > 0 && (n * b) as real / (a * b) as real == n as real / a as real
  {
    FractionCancels(n as real, a as real, b as real);
    RealTimes(n, b);
    RealTimes(a, b);
  }

  lemma RealTimes(a: int, b: int)
    ensures (a * b) as real == a as real * b as real
  {
  }

  lemma FractionCancels(n: real, a: real, b: real)
    requires a > 0.0 && b > 0.0
    ensures a * b > 0.0 && (n * b) / (a * b) == n / a
  {
    var q := n / a;
    assert n == q * a;
    Divides(n * b, a * b, q);
  }

  lemma ValAdds(x: int, y: int, s: nat)
    ensures Val(x + y, s) == Val(x, s) + Val(y, s) && Val(x - y, s) == Val(x, s) - Val(y, s)
  {
    hide Pow10;
    FractionsAdd(x as real, y as real, Pow10(s) as real);
    assert (x + y) as real == x as real + y as real && (x - y) as real == x as real - y as real;
  }

  lemma FractionsAdd(x: real, y: real, p: real)
    requires p > 0.0
    ensures (x + y) / p == x / p + y / p && (x - y) / p == x / p - y / p
  {
    var q, r := x / p, y / p;
    assert x == q * p && y == r * p;
    Divides(x + y, p, q + r);
    Divides(x - y, p, q - r);
  }

  lemma Divides(x: real, p: real, q: real)
    requires p > 0.0 && x == q * p
    ensures x / p == q
  {
  }

  lemma ValMultiplies(x: int, y: int, s: nat, t: nat)
    ensures Val(x * y, s + t) == Val(x, s) * Val(y, t)
  {
    Pow10Sum(s, t);
    var a, b := Pow10(s) as real, Pow10(t) as real;
    FractionsMultiply(x as real, a, y as real, b);
    RealTimes(x, y);
    RealTimes(Pow10(s), Pow10(t));
    hide Pow10;
  }

  lemma FractionsMultiply(x: real, a: real, y: real, b: real)
    requires a > 0.0 && b > 0.0
    ensures a * b > 0.0 && (x * y) / (a * b) == (x / a) * (y / b)
  {
    var q, r := x / a, y / b;
    assert x == q * a && y == r * b;
    Interchange(q, a, r, b);
    Divides(x * y, a * b, q * r);
  }

  lemma Interchange(q: real, a: real, r: real, b: real)
    ensures (q * a) * (r * b) == (q * r) * (a * b)
  {
  }

  /** Integer arithmetic on the unscaled operands, cast as the analysis says and read at the scale
      of its result, is exact. */
  lemma ArithmeticIsExact(op: ArithOp, a: Type, b: Type, x: int, y: int)
    requires Exact(a) && Exact(b)
    ensures var (ta, tb, tr) := Analyze(op, a, b);
            && Exact(ta) && Exact(tb) && Exact(tr) && ta.scale >= a.scale && tb.scale >= b.scale
            && Val(Apply(op, Rescaled(x, a.scale, ta.scale), Rescaled(y, b.scale, tb.scale)), tr.scale)
               == ApplyReal(op, Val(x, a.scale), Val(y, b.scale))
  {
    var (ta, tb, tr) := Analyze(op, a, b);
    AnalyzedScales(op, a, b);
    hide Analyze, Val, Rescaled, Common;
    ValRescaled(x, a.scale, ta.scale);
    ValRescaled(y, b.scale, tb.scale);
    var x', y' := Rescaled(x, a.scale, ta.scale), Rescaled(y, b.scale, tb.scale);
    if op.Times? {
      ValMultiplies(x', y', ta.scale, tb.scale);
    } else {
      ValAdds(x', y', tr.scale);
    }
  }

  /** Operands and result are of the joint kind; an operand keeps its nullability, and the result is
      nullable if one of them is. */
  lemma AnalyzedKinds(op: ArithOp, a: Type, b: Type)
    requires NumberType(a) && NumberType(b)
    ensures var (ta, tb, tr) := Analyze(op, a, b);
            && ta.base == tb.base == tr.base == JoinBase(a.base, b.base)
            && ta.notNull == a.notNull && tb.notNull == b.notNull && tr.notNull == (a.notNull && b.notNull)
  {
    CommonIsJoin(a, b);
    hide Common;
  }

  lemma AnalyzedScales(op: ArithOp, a: Type, b: Type)
    requires Exact(a) && Exact(b)
    ensures var (ta, tb, tr) := Analyze(op, a, b);
            && Exact(ta) && Exact(tb) && Exact(tr)
            && (if op.Times? then ta.scale == a.scale && tb.scale == b.scale && tr.scale == a.scale + b.scale
                else ta.scale == tb.scale == tr.scale == Max(a.scale, b.scale))
  {
    CommonIsJoin(a, b);
    JoinBaseFacts(a.base, b.base);
    hide Common;
  }

  /** The precision of the common type: two types of one kind get the larger; NUMERIC and DECIMAL room
      for the digits of both on either side of the point; an integer counts as 3, 5 or 10 digits before
      the point, BIGINT as all there are; floating types have none. */
  lemma CommonPrecision(a: Type, b: Type)
    requires NumberType(a) && NumberType(b)
    ensures var p := Common(a, b).dimension;
            && (a.base == b.base ==> p == Max(a.dimension, b.dimension))
            && (IsDecimal(a.base) && IsDecimal(b.base) && a.base != b.base ==>
                  p == Max(a.dimension - a.scale, b.dimension - b.scale) + Max(a.scale, b.scale))
            && (IsInteger(a.base) && IsDecimal(b.base) ==> match a.base
                  case BigInt => p == 19
                  case Int => p == Max(Min(19, 10 + b.scale), b.dimension)
                  case _ => p == Max(5 + b.scale, b.dimension))
            && (IsDecimal(a.base) && IsInteger(b.base) ==> match b.base
                  case BigInt => p == 19
                  case Int => p == Max(Min(19, 10 + a.scale), b.dimension)
                  case SmallInt => p == Max(5 + a.scale, a.dimension)
                  case _ => p == Max(3 + a.scale, a.dimension))
            && (a.base != b.base && !IsDecimal(JoinBase(a.base, b.base)) ==> p == 0)
  {
  }

  /** Operands and result get one precision: with decimals one digit more than the common type for a
      sum, at least the digits of both together for a product; otherwise that of the common type. */
  lemma AnalyzedPrecisions(op: ArithOp, a: Type, b: Type)
    requires NumberType(a) && NumberType(b)
    ensures var (ta, tb, tr) := Analyze(op, a, b);
            var p := Common(a, b).dimension;
            ta.dimension == tb.dimension == tr.dimension ==
              if !IsDecimal(JoinBase(a.base, b.base)) then p
              else if op.Times? then Max(p, a.dimension + b.dimension)
              else p + 1
  {
    CommonIsJoin(a, b);
    hide Common;
  }

  // ---------------------------------------------------------------- digits

  /** n has at most d digits. */
  predicate HasDigits(n: int, d: nat) {
    Abs(n) < Pow10(d)
  }

  /** The product of two decimals has the digits of the result type. */
  lemma ProductHasDigits(a: Type, b: Type, x: int, y: int)
    requires NumberType(a) && NumberType(b) && IsDecimal(a.base) && IsDecimal(b.base) && a.dimension >= 0
             && b.dimension >= 0
    requires HasDigits(x, a.dimension) && HasDigits(y, b.dimension)
    ensures var (_, _, tr) := Analyze(Times, a, b); tr.dimension >= 0 && HasDigits(x * y, tr.dimension)
  {
    var (_, _, tr) := Analyze(Times, a, b);
    var d, e := a.dimension, b.dimension;
    assert tr.dimension >= d + e;
    Pow10Sum(d, e);
    Pow10Grows(d + e, tr.dimension);
    ProductBelow(x, y, Pow10(d), Pow10(e));
    hide Analyze, Pow10;
  }

  lemma ProductBelow(x: int, y: int, p: nat, q: nat)
    requires Abs(x) < p && Abs(y) < q
    ensures Abs(x * y) < p * q
  {
    AbsProduct(x, y);
    NatProductBelow(Abs(x), Abs(y), p, q);
  }

  lemma AbsProduct(x: int, y: int)
    ensures Abs(x * y) == Abs(x) * Abs(y)
  {
  }

  lemma NatProductBelow(u: nat, v: nat, p: nat, q: nat)
    requires u < p && v < q
    ensures u * v < p * q
  {
    Scaled(u, v, q);
    Scaled(q, u + 1, p);
    assert q * (u + 1) == u * q + q && q * p == p * q;
  }

  /** The sum of a d-digit number shifted by g places and an e-digit number has one digit more than
      m, for all such numbers, exactly when the shifted one has m digits, or has one more and the
      places it was shifted by take the other in. */
  ghost predicate SumsHaveDigits(d: nat, e: nat, g: nat, m: nat) {
    forall x: int, y: int | HasDigits(x, d) && HasDigits(y, e) :: HasDigits(x * Pow10(g) + y, m + 1)
  }

  lemma SumsHaveDigitsIff(d: nat, e: nat, g: nat, m: nat)
    requires d >= 1 && 1 <= e <= m
    ensures SumsHaveDigits(d, e, g, m) <==> d + g <= m || (d + g == m + 1 && e <= g)
  {
    if d + g <= m || (d + g == m + 1 && e <= g) {
      forall x: int, y: int | HasDigits(x, d) && HasDigits(y, e) ensures HasDigits(x * Pow10(g) + y, m + 1) {
        if d + g <= m { SumFits(x, y, d, e, g, m); } else { SumJustFits(x, y, d, e, g, m); }
      }
    } else {
      var x, y := Pow10(d) - 1, Pow10(e) - 1;
      LargestSum(d, e, g, m);
      ShiftedLargest(d, g);
      assert HasDigits(x, d) && HasDigits(y, e);
    }
  }

  lemma ShiftedBelow(x: int, d: nat, g: nat)
    requires HasDigits(x, d)
    ensures Abs(x * Pow10(g)) <= Pow10(d + g) - Pow10(g)
  {
    Pow10Sum(d, g);
    hide Pow10;
    AbsTimes(x, Pow10(g));
    Scaled(Pow10(g), Abs(x), Pow10(d) - 1);
  }

  lemma SumFits(x: int, y: int, d: nat, e: nat, g: nat, m: nat)
    requires HasDigits(x, d) && HasDigits(y, e) && e <= m && d + g <= m
    ensures HasDigits(x * Pow10(g) + y, m + 1)
  {
    ShiftedBelow(x, d, g);
    Pow10Grows(d + g, m);
    Pow10Grows(e, m);
    assert Pow10(m + 1) == 10 * Pow10(m);
  }

  lemma SumJustFits(x: int, y: int, d: nat, e: nat, g: nat, m: nat)
    requires HasDigits(x, d) && HasDigits(y, e) && e <= g && d + g == m + 1
    ensures HasDigits(x * Pow10(g) + y, m + 1)
  {
    ShiftedBelow(x, d, g);
    Pow10Grows(e, g);
  }

  lemma LargestSum(d: nat, e: nat, g: nat, m: nat)
    requires d >= 1 && e >= 1 && d + g >= m + 1 && (d + g == m + 1 ==> e > g)
    ensures !HasDigits(Pow10(d + g) - Pow10(g) + (Pow10(e) - 1), m + 1)
  {
    hide Pow10;
    Pow10Next(g);
    if d + g == m + 1 {
      Pow10Grows(g + 1, e);
      TooLarge(Pow10(d + g), Pow10(g), Pow10(e), Pow10(m + 1));
    } else {
      Pow10Grows(m + 2, d + g);
      Pow10Grows(g + 1, d + g);
      Pow10Next(m + 1);
      TooLarge(Pow10(d + g), Pow10(g), Pow10(e), Pow10(m + 1));
    }
  }

  lemma ShiftedLargest(d: nat, g: nat)
    ensures (Pow10(d) - 1) * Pow10(g) == Pow10(d + g) - Pow10(g)
  {
    Pow10Sum(d, g);
    hide Pow10;
  }

  lemma TooLarge(top: int, shift: int, other: int, bound: int)
    requires 0 < shift && 0 < other && 0 < bound
    requires (top >= bound && other >= 10 * shift) || (top >= 10 * bound && top >= 10 * shift)
    ensures top - shift + (other - 1) >= bound
  {
  }

  lemma Pow10Next(k: nat)
    ensures Pow10(k + 1) == 10 * Pow10(k)
  {
  }

  /** The unscaled result on unscaled operands. */
  function Computed(op: ArithOp, a: Type, b: Type, x: int, y: int): int
    requires Exact(a) && Exact(b)
  {
    AnalyzedScales(op, a, b);
    var (ta, tb, _) := Analyze(op, a, b);
    Apply(op, Rescaled(x, a.scale, ta.scale), Rescaled(y, b.scale, tb.scale))
  }

  /** Every result on values of the two types has the digits of the result type. */
  ghost predicate AlwaysFits(op: ArithOp, a: Type, b: Type)
    requires Exact(a) && Exact(b) && a.dimension >= 0 && b.dimension >= 0
  {
    var d := Analyze(op, a, b).2.dimension;
    d >= 0 && forall x: int, y: int | HasDigits(x, a.dimension) && HasDigits(y, b.dimension) ::
      HasDigits(Computed(op, a, b, x, y), d)
  }

  predicate DecimalType(t: Type) {
    NumberType(t) && IsDecimal(t.base) && t.dimension >= 1
  }

  lemma SumIsComputed(op: ArithOp, a: Type, b: Type, x: int, y: int)
    requires DecimalType(a) && DecimalType(b) && a.scale <= b.scale && !op.Times?
    ensures Computed(op, a, b, x, y) == x * Pow10(b.scale - a.scale) + (if op.Plus? then y else -y)
  {
    AnalyzedScales(op, a, b);
    hide Analyze;
    assert Pow10(0) == 1;
  }

  lemma SumPrecision(op: ArithOp, a: Type, b: Type)
    requires DecimalType(a) && DecimalType(b) && a.scale <= b.scale && !op.Times?
    ensures Analyze(op, a, b).2.dimension == Common(a, b).dimension + 1 && Common(a, b).dimension >= b.dimension
  {
  }

  /** What the analysis makes of two decimals, the first having no more places than the second. */
  lemma SumIsAnalyzed(op: ArithOp, a: Type, b: Type)
    requires DecimalType(a) && DecimalType(b) && a.scale <= b.scale && !op.Times?
    ensures Common(a, b).dimension >= b.dimension
    ensures AlwaysFits(op, a, b) <==>
            SumsHaveDigits(a.dimension, b.dimension, b.scale - a.scale, Common(a, b).dimension)
  {
    SumPrecision(op, a, b);
    hide Analyze, Common, Pow10, Computed;
    forall x: int, y: int | HasDigits(x, a.dimension) && HasDigits(y, b.dimension)
      ensures AlwaysFits(op, a, b) ==> HasDigits(x * Pow10(b.scale - a.scale) + y, Common(a, b).dimension + 1)
    {
      var z := if op.Plus? then y else -y;
      assert HasDigits(z, b.dimension);
      SumIsComputed(op, a, b, x, z);
    }
    forall x: int, y: int | HasDigits(x, a.dimension) && HasDigits(y, b.dimension)
      ensures SumsHaveDigits(a.dimension, b.dimension, b.scale - a.scale, Common(a, b).dimension) ==>
              HasDigits(Computed(op, a, b, x, y), Common(a, b).dimension + 1)
    {
      var z := if op.Plus? then y else -y;
      assert HasDigits(z, b.dimension);
      SumIsComputed(op, a, b, x, y);
    }
  }

  lemma SumSwapsAt(op: ArithOp, a: Type, b: Type, x: int, y: int)
    requires DecimalType(a) && DecimalType(b) && !op.Times?
    ensures Computed(op, b, a, y, x) == if op.Plus? then Computed(op, a, b, x, y) else -Computed(op, a, b, x, y)
    ensures Analyze(op, a, b).2.dimension == Analyze(op, b, a).2.dimension
  {
    AnalyzedScales(op, a, b);
    AnalyzedScales(op, b, a);
    hide Rescaled;
  }

  /** Which operand comes first makes no difference to the fit. */
  lemma SumFitSwaps(op: ArithOp, a: Type, b: Type)
    requires DecimalType(a) && DecimalType(b) && !op.Times? && AlwaysFits(op, a, b)
    ensures AlwaysFits(op, b, a)
  {
    SumSwapsAt(op, a, b, 0, 0);
    var d := Analyze(op, a, b).2.dimension;
    hide Analyze, Computed, Pow10;
    forall y: int, x: int | HasDigits(y, b.dimension) && HasDigits(x, a.dimension)
      ensures HasDigits(Computed(op, b, a, y, x), d)
    {
      SumSwapsAt(op, a, b, x, y);
      assert HasDigits(Computed(op, a, b, x, y), d);
    }
  }

  /** a, with no more places than b, still has the common precision after scaling, or one digit more
      and b has no more digits than a was scaled by. */
  predicate LeavesRoom(a: Type, b: Type) {
    var digits, m := a.dimension + (b.scale - a.scale), Max(a.dimension, b.dimension);
    digits <= m || (digits == m + 1 && b.dimension <= b.scale - a.scale)
  }

  /** Sums and differences of a NUMERIC and a DECIMAL always fit; those of two of the same kind
      exactly when the one with fewer places leaves room. */
  lemma SumFitsIff(op: ArithOp, a: Type, b: Type)
    requires DecimalType(a) && DecimalType(b) && !op.Times?
    ensures a.base != b.base ==> AlwaysFits(op, a, b)
    ensures a.base == b.base ==>
              (AlwaysFits(op, a, b) <==> if a.scale <= b.scale then LeavesRoom(a, b) else LeavesRoom(b, a))
  {
    if a.scale <= b.scale {
      OrderedSumFitsIff(op, a, b);
    } else {
      OrderedSumFitsIff(op, b, a);
      hide AlwaysFits;
      if AlwaysFits(op, a, b) { SumFitSwaps(op, a, b); }
      if AlwaysFits(op, b, a) { SumFitSwaps(op, b, a); }
    }
  }

  lemma OrderedSumFitsIff(op: ArithOp, a: Type, b: Type)
    requires DecimalType(a) && DecimalType(b) && a.scale <= b.scale && !op.Times?
    ensures a.base != b.base ==> AlwaysFits(op, a, b)
    ensures a.base == b.base ==> (AlwaysFits(op, a, b) <==> LeavesRoom(a, b))
  {
    SumIsAnalyzed(op, a, b);
    hide AlwaysFits, SumsHaveDigits;
    SumsHaveDigitsIff(a.dimension, b.dimension, b.scale - a.scale, Common(a, b).dimension);
  }

  /** 99999 and 0.0001 as DECIMAL(5, 0) and DECIMAL(5, 4): the sum has 9 digits, its type 6. */
  lemma SumOfDecimalsMayNotFit()
    ensures !AlwaysFits(Plus, Type(Base.Decimal, 5, 0, true), Type(Base.Decimal, 5, 4, true))
  {
    SumFitsIff(Plus, Type(Base.Decimal, 5, 0, true), Type(Base.Decimal, 5, 4, true));
  }
}
