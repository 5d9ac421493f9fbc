/** Casting numeric constants between integers and decimals held as scaled 64-bit integers. */
module Decimal {
  import opened Options

  // ---------------------------------------------------------------- machine integers

  function Pow10(k: nat): (p: nat)
    ensures p > 0
  {
    if k == 0 then 1 else 10 * Pow10(k - 1)
  }

  const TWO_63 := 0x8000_0000_0000_0000
  const TWO_64 := 0x1_0000_0000_0000_0000

  datatype Width = W8 | W16 | W32 | W64

  function Bound(w: Width): int {
    match w case W8 => 0x80 case W16 => 0x8000 case W32 => 0x8000_0000 case W64 => TWO_63
  }

  predicate Fits(n: int, w: Width) {
    -Bound(w) <= n < Bound(w)
  }

  lemma FitsIff(n: int)
    ensures Fits(n, W8) <==> -128 <= n <= 127
    ensures Fits(n, W16) <==> -32768 <= n <= 32767
    ensures Fits(n, W32) <==> -2147483648 <= n <= 2147483647
    ensures Fits(n, W64) <==> -9223372036854775808 <= n <= 9223372036854775807
  {
  }

  function Wrap(n: int): (u: int)
    ensures 0 <= u < TWO_64
  {
    n % TWO_64
  }

  /** The signed reading of a 64-bit unsigned integer. */
  function AsSigned(u: int): int {
    if u < TWO_63 then u else u - TWO_64
  }

  lemma Powers()
    ensures Pow10(18) < TWO_63 < Pow10(19) < TWO_64 && TWO_63 < Pow10(20) / 2
  {
    assert Pow10(6) == 1_000_000;
    Pow10Sum(6, 6);
    Pow10Sum(12, 6);
    assert Pow10(18) == 1_000_000_000_000_000_000;
  }

  lemma {:induction false} Pow10Grows(j: nat, k: nat)
    requires j <= k
    ensures Pow10(j) <= Pow10(k)
    decreases k
  {
    if j < k { Pow10Grows(j, k - 1); }
  }

  lemma {:induction false} Pow10Sum(j: nat, k: nat)
    ensures Pow10(j + k) == Pow10(j) * Pow10(k)
  {
    if j > 0 {
      Pow10Sum(j - 1, k);
      Assoc(10, Pow10(j - 1), Pow10(k));
    }
  }

  lemma Assoc(a: int, b: int, c: int)
    ensures (a * b) * c == a * (b * c)
  {
  }

  // ---------------------------------------------------------------- rounding, as it should be

  function Abs(n: int): nat {
    if n < 0 then -n else n
  }

  function Signed(negative: bool, n: int): int {
    if negative then -n else n
  }

  /** r is an integer nearest to n / p; of two such the one further from zero. */
  predicate IsNearest(r: int, n: int, p: nat) {
    var off := 2 * Abs(r * p - n);
    off <= p && (off == p ==> Abs(r * p) > Abs(n))
  }

  /** a / p rounded to the nearest, halves up. */
  function HalfUp(a: int, p: int): int
    requires p > 0
  {
    (2 * a + p) / (2 * p)
  }

  /** n / p rounded half away from zero. */
  function Round(n: int, p: nat): int
    requires p > 0
  {
    Signed(n < 0, HalfUp(Abs(n), p))
  }

  lemma Quotient(x: int, d: int, q: int, m: int)
    requires d > 0 && x == d * q + m && 0 <= m < d
    ensures x / d == q && x % d == m
  {
    var q' := x / d;
    assert x == d * q' + x % d;
    if q < q' {
      Scaled(d, q + 1, q');
    } else if q' < q {
      Scaled(d, q' + 1, q);
    }
  }

  lemma Scaled(d: int, a: int, b: int)
    requires d >= 0 && a <= b
    ensures d * a <= d * b
  {
  }

  lemma RoundIsNearest(n: int, p: nat)
    requires p > 0
    ensures IsNearest(Round(n, p), n, p)
  {
    var a := Abs(n);
    var q := (2 * a + p) / (2 * p);
    assert 2 * a + p == (2 * p) * q + (2 * a + p) % (2 * p);
    assert (2 * p) * q == 2 * (q * p);
    assert (-q) * p == -(q * p);
  }

  lemma NearestIsUnique(r: int, n: int, p: nat)
    requires p > 0 && IsNearest(r, n, p)
    ensures r == Round(n, p)
  {
    var s := Signed(n < 0, r);
    assert (-r) * p == -(r * p);
    assert 2 * Abs(s * p - Abs(n)) <= p;
    assert 2 * (s * p) == (2 * p) * s;
    if s * p < 0 {
      assert s <= -1;
      Scaled(p, s, -1);
    }
    Quotient(2 * Abs(n) + p, 2 * p, s, 2 * Abs(n) + p - 2 * (s * p));
  }

  /** Rounding keeps the order. */
  lemma RoundIsMonotone(m: int, n: int, p: nat)
    requires p > 0 && m <= n
    ensures Round(m, p) <= Round(n, p)
  {
    DivideMonotone(2 * Abs(m) + p, 2 * Abs(n) + p, 2 * p);
    DivideMonotone(2 * Abs(n) + p, 2 * Abs(m) + p, 2 * p);
  }

  lemma DivideMonotone(x: int, y: int, d: int)
    requires d > 0 && 0 <= x && 0 <= y
    ensures x <= y ==> 0 <= x / d <= y / d
  {
    var a, b := x / d, y / d;
    assert x == d * a + x % d && y == d * b + y % d;
    if x <= y && b < a {
      Scaled(d, b + 1, a);
    }
    if a < 0 {
      Scaled(d, a, -1);
    }
  }

  // ---------------------------------------------------------------- rounding, as it is done

  function Narrow(n: int, w: Width): Option<int> {
    if Fits(n, w) then Some(n) else None
  }

  /** The unsigned division by an even power, the carry, and the unsigned negation. Nothing wraps. */
  method DivideAndCarry(n: int, scale: nat) returns (r: int)
    requires -TWO_63 < n < TWO_63 && 1 <= scale <= 19
    ensures r == Round(n, Pow10(scale)) && Fits(r, W64)
  {
    CarryRounds(n, Pow10(scale), 5 * Pow10(scale - 1));
    hide *;
    var u := Abs(n);
    var pow := Pow10(scale);
    var div := u / pow;
    var rem := u % pow;
    Unwrapped(div + (if pow / 2 <= rem then 1 else 0));
    div := Wrap(div + (if pow / 2 <= rem then 1 else 0));
    r := AsSigned(if n < 0 then Wrap(-div) else div);
  }

  lemma Unwrapped(n: int)
    requires 0 <= n < TWO_63
    ensures Wrap(n) == n && AsSigned(n) == n && AsSigned(Wrap(-n)) == -n && Fits(n, W64) && Fits(-n, W64)
  {
  }

  lemma CarryRounds(n: int, p: nat, half: nat)
    requires half > 0 && p == 2 * half
    ensures var div := Abs(n) / p + (if p / 2 <= Abs(n) % p then 1 else 0);
            Round(n, p) == (if n < 0 then -div else div)
    ensures 0 <= Abs(n) / p && 2 * (Abs(n) / p) <= Abs(n) == if n < 0 then -n else n
  {
    var u := Abs(n);
    var q, rem := u / p, u % p;
    assert u == p * q + rem;
    HalfQuotient(u, p, q, rem);
    HalfUpIs(u, p, q, rem);
    hide HalfUp;
  }

  lemma TwiceQuotient(u: int, p: int, q: int, rem: int)
    requires u == p * q + rem
    ensures 2 * u + p == (2 * p) * (q + 1) + (2 * rem - p) == (2 * p) * q + (2 * rem + p)
  {
  }

  lemma HalfQuotient(u: int, p: int, q: int, rem: int)
    requires u == p * q + rem && p >= 2 && u >= 0 && 0 <= rem < p
    ensures 0 <= 2 * q <= u
  {
    if q < 0 {
      Scaled(p, q, -1);
    } else {
      Scaled(q, 2, p);
    }
  }

  lemma RoundByOne(n: int)
    ensures Round(n, Pow10(0)) == n
  {
    Quotient(2 * Abs(n) + 1, 2, Abs(n), 1);
  }

  lemma TinyRoundsToZero(n: int, p: nat)
    requires 2 * Abs(n) < p
    ensures Round(n, p) == 0
  {
    Quotient(2 * Abs(n) + p, 2 * p, 0, 2 * Abs(n) + p);
  }

  /** A decimal of the given scale to an integer; where the original takes an absolute value, the
      least 64-bit integer has none. */
  method RoundDecimal(n: int, scale: nat, w: Width) returns (r: Option<int>)
    requires Fits(n, W64) && (1 <= scale <= 19 ==> n > -TWO_63)
    ensures r == Narrow(Round(n, Pow10(scale)), w)
  {
    if scale == 0 {
      RoundByOne(n);
      return Narrow(n, w);
    } else if scale > 19 {
      Powers();
      Pow10Grows(20, scale);
      hide Pow10;
      TinyRoundsToZero(n, Pow10(scale));
      return Some(0);
    }
    var q := DivideAndCarry(n, scale);
    return Narrow(q, w);
  }

  /** Multiplication checked for overflow; a power that is not tabulated can only scale zero. */
  method ScaleUp(n: int, scale: nat) returns (r: Option<int>)
    requires Fits(n, W64)
    ensures r == Narrow(n * Pow10(scale), W64)
  {
    if scale <= 18 && Fits(n * Pow10(scale), W64) {
      return Some(n * Pow10(scale));
    }
    if scale > 18 {
      Powers();
      Pow10Grows(19, scale);
      TooBig(n, Pow10(scale));
    }
    return if n == 0 then Some(0) else None;
  }

  lemma TooBig(n: int, p: int)
    requires p > TWO_63
    ensures n == 0 ==> n * p == 0
    ensures n != 0 ==> !Fits(n * p, W64)
  {
    if n > 0 {
      Scaled(p, 1, n);
    } else if n < 0 {
      Scaled(p, n, -1);
    }
  }

  /** A decimal to another scale. */
  method ConvertScale(n: int, dscale: int) returns (r: Option<int>)
    requires Fits(n, W64) && (-19 <= dscale < 0 ==> n > -TWO_63)
    ensures r == if dscale < 0 then Some(Round(n, Pow10(-dscale))) else Narrow(n * Pow10(dscale), W64)
    ensures dscale < 0 ==> Fits(r.value, W64)
  {
    if dscale < -19 {
      Powers();
      Pow10Grows(20, -dscale);
      hide Pow10;
      TinyRoundsToZero(n, Pow10(-dscale));
      return Some(0);
    } else if dscale < 0 {
      var q := DivideAndCarry(n, -dscale);
      return Some(q);
    }
    r := ScaleUp(n, dscale);
  }

  // ---------------------------------------------------------------- the cast of a constant

  datatype Kind = Integer(width: Width) | DecimalOf(scale: nat)

  function ScaleOf(k: Kind): nat {
    match k case Integer(_) => 0 case DecimalOf(s) => s
  }

  function WidthOf(k: Kind): Width {
    match k case Integer(w) => w case DecimalOf(_) => W64
  }

  /** n / 10^from as a multiple of 10^-to: exact if to is no smaller, rounded otherwise. */
  function Rescaled(n: int, from: nat, to: nat): int {
    if from <= to then n * Pow10(to - from) else Round(n, Pow10(from - to))
  }

  /** Whichever scale is the larger: rescaled is what is nearest to n * 10^to / 10^from. */
  lemma RescaledIsNearest(n: int, from: nat, to: nat)
    ensures IsNearest(Rescaled(n, from, to), n * Pow10(to), Pow10(from))
  {
    if from <= to {
      Pow10Sum(to - from, from);
      Assoc(n, Pow10(to - from), Pow10(from));
    } else {
      Pow10Sum(to, from - to);
      RoundCancels(n, Pow10(to), Pow10(from - to));
      RoundIsNearest(n * Pow10(to), Pow10(from));
    }
    hide Pow10, Round;
  }

  class Constant {
    var kind: Kind
    var val: int

    constructor (kind: Kind, val: int)
      ensures this.kind == kind && this.val == val
    {
      this.kind, this.val := kind, val;
    }

    /** The value held is val / 10^ScaleOf(kind). */
    ghost predicate Valid()
      reads this
    {
      Fits(val, WidthOf(kind))
    }

    /** Succeeds exactly when the nearest value of the new type fits its width; a failed cast
        changes nothing. */
    method CastNumber(to: Kind) returns (ok: bool)
      requires Valid() && (kind.DecimalOf? && 1 <= kind.scale - ScaleOf(to) <= 19 ==> val > -TWO_63)
      modifies this
      ensures Valid()
      ensures ok <==> Fits(Rescaled(old(val), ScaleOf(old(kind)), ScaleOf(to)), WidthOf(to))
      ensures ok ==> kind == to && val == Rescaled(old(val), ScaleOf(old(kind)), ScaleOf(to))
      ensures ok ==> IsNearest(val, old(val) * Pow10(ScaleOf(to)), Pow10(ScaleOf(old(kind))))
      ensures !ok ==> kind == old(kind) && val == old(val)
    {
      RescaledIsNearest(val, ScaleOf(kind), ScaleOf(to));
      hide IsNearest;
      var r: Option<int>;
      match kind {
        case Integer(w) =>
          match to {
            case Integer(w') => r := Narrow(val, w');
            case DecimalOf(s) => r := ScaleUp(val, s);
          }
        case DecimalOf(s) =>
          RoundByOne(val);
          match to {
            case Integer(w) => r := RoundDecimal(val, s, w);
            case DecimalOf(s') => r := ConvertScale(val, s' - s);
          }
      }
      if r.None? {
        return false;
      }
      kind, val := to, r.value;
      return true;
    }
  }

  // ---------------------------------------------------------------- casts of casts

  lemma RoundCancels(n: int, a: nat, b: nat)
    requires a > 0 && b > 0
    ensures a * b > 0 && Round(n * a, a * b) == Round(n, b)
  {
    var q, m := (2 * Abs(n) + b) / (2 * b), (2 * Abs(n) + b) % (2 * b);
    assert 2 * Abs(n) + b == (2 * b) * q + m;
    ScaledQuotient(Abs(n), a, b, q, m);
    AbsTimes(n, a);
    Quotient(2 * (Abs(n) * a) + a * b, 2 * (a * b), q, m * a);
  }

  lemma AbsTimes(n: int, a: nat)
    requires a > 0
    ensures Abs(n * a) == Abs(n) * a && (n * a < 0 <==> n < 0)
  {
  }

  lemma ScaledQuotient(u: int, a: nat, b: nat, q: int, m: int)
    requires a > 0 && b > 0 && 2 * u + b == (2 * b) * q + m && 0 <= m < 2 * b
    ensures a * b > 0 && 2 * (u * a) + a * b == (2 * (a * b)) * q + m * a && 0 <= m * a < 2 * (a * b)
  {
    Scaled(a, m + 1, 2 * b);
    calc {
      2 * (u * a) + a * b;
      (2 * u + b) * a;
      ((2 * b) * q + m) * a;
      (2 * (a * b)) * q + m * a;
    }
  }

  /** A cast that loses nothing may be inserted before any cast. */
  lemma WideningFirstIsHarmless(n: int, s: nat, t: nat, u: nat)
    requires s <= t
    ensures Rescaled(Rescaled(n, s, t), t, u) == Rescaled(n, s, u)
  {
    var a := Pow10(t - s);
    if t <= u {
      Pow10Sum(t - s, u - t);
      Assoc(n, a, Pow10(u - t));
    } else if s <= u {
      var b := Pow10(t - u);
      Pow10Sum(u - s, t - u);
      Assoc(n, Pow10(u - s), b);
      RoundCancels(n * Pow10(u - s), b, 1);
      RoundByOne(n * Pow10(u - s));
    } else {
      Pow10Sum(t - s, s - u);
      RoundCancels(n, a, Pow10(s - u));
    }
  }

  /** In particular a value that was scaled up comes back unchanged. */
  lemma ScaleRoundTrip(n: int, s: nat, t: nat)
    requires s <= t
    ensures Rescaled(Rescaled(n, s, t), t, s) == n
  {
    WideningFirstIsHarmless(n, s, t, s);
  }

  /** An integer cast to a decimal, where that succeeds, is back after a cast to its own width; the
      value between is never the one that has no absolute value. */
  lemma IntegerSurvivesDecimal(n: int, w: Width, s: nat)
    requires Fits(n, w) && Fits(Rescaled(n, 0, s), W64)
    ensures s > 0 ==> Rescaled(n, 0, s) > -TWO_63
    ensures Fits(Rescaled(Rescaled(n, 0, s), s, 0), w) && Rescaled(Rescaled(n, 0, s), s, 0) == n
  {
    ScaleRoundTrip(n, 0, s);
    if s > 0 {
      var m := TimesTen(n, s);
      hide Rescaled, Pow10;
    }
  }

  lemma TimesTen(n: int, s: nat) returns (m: int)
    requires s > 0
    ensures Rescaled(n, 0, s) == 10 * m
  {
    hide Round;
    m := n * Pow10(s - 1);
  }

  lemma CastIsMonotone(m: int, n: int, s: nat, t: nat)
    requires m <= n
    ensures Rescaled(m, s, t) <= Rescaled(n, s, t)
  {
    if s <= t {
      Scaled(Pow10(t - s), m, n);
    } else {
      RoundIsMonotone(m, n, Pow10(s - t));
    }
  }

  /** 0.45 to one digit and then to none is 1, at once it is 0. */
  lemma RoundingTwiceDiffers()
    ensures Rescaled(Rescaled(45, 2, 1), 1, 0) == 1 && Rescaled(45, 2, 0) == 0
  {
  }

  /** Rounding in two steps is rounding at once exactly unless the digits dropped lie just below a
      half, by no more than half a unit of the scale between. */
  lemma RoundingTwiceIff(n: int, s: nat, t: nat, u: nat)
    requires s > t > u
    ensures Rescaled(Rescaled(n, s, t), t, u) == Rescaled(n, s, u) <==>
            !(Pow10(s - u) / 2 - Pow10(s - t) / 2 <= Abs(n) % Pow10(s - u) < Pow10(s - u) / 2)
  {
    var k, h := 5 * Pow10(s - t - 1), 5 * Pow10(t - u - 1);
    Pow10Sum(s - t, t - u);
    Halves(k, h);
    hide Pow10, HalfUp;
    var m, w := Divide(Abs(n), 4 * (k * h));
    var c, e := Divide(w + k, 2 * k);
    TwoSteps(Abs(n), k, h, k * h, m, w, c, e);
    RoundSigned(n < 0, HalfUp(Abs(n), 2 * k), 2 * h);
  }

  lemma Halves(k: nat, h: nat)
    requires k > 0 && h > 0
    ensures (2 * k) * (2 * h) == 4 * (k * h) && 4 * (k * h) / 2 == 2 * (k * h) && 2 * k / 2 == k && k * h > 0
  {
  }

  lemma RoundSigned(negative: bool, b: int, q: nat)
    requires q > 0 && b >= 0
    ensures Round(Signed(negative, b), q) == Signed(negative, HalfUp(b, q))
  {
    if b == 0 { Quotient(q, 2 * q, 0, q); }
  }

  lemma Divide(x: int, d: int) returns (q: int, m: int)
    requires d > 0
    ensures x == d * q + m && 0 <= m < d && m == x % d
  {
    q, m := x / d, x % d;
  }

  lemma TwoSteps(a: nat, k: int, h: int, kh: int, m: int, w: int, c: int, e: int)
    requires k > 0 && h > 0 && kh == k * h && kh > 0
    requires a == (4 * kh) * m + w && 0 <= w < 4 * kh
    requires w + k == (2 * k) * c + e && 0 <= e < 2 * k
    ensures HalfUp(a, 2 * k) >= 0
    ensures HalfUp(HalfUp(a, 2 * k), 2 * h) == HalfUp(a, 4 * kh) <==> !(2 * kh - k <= w < 2 * kh)
  {
    hide HalfUp;
    HalfUpIs(a, 4 * kh, m, w);
    FirstStep(a, k, h, kh, m, w, c, e);
    Carries(k, h, kh, w, c, e);
    SecondStep(2 * h * m + c, h, m, c);
  }

  lemma HalfUpIs(a: int, p: int, m: int, w: int)
    requires p > 0 && a == p * m + w && 0 <= w < p
    ensures HalfUp(a, p) == m + (if 2 * w >= p then 1 else 0)
  {
    TwiceQuotient(a, p, m, w);
    if 2 * w >= p {
      Quotient(2 * a + p, 2 * p, m + 1, 2 * w - p);
    } else {
      Quotient(2 * a + p, 2 * p, m, 2 * w + p);
    }
  }

  lemma FirstStep(a: nat, k: int, h: int, kh: int, m: int, w: int, c: int, e: int)
    requires k > 0 && kh == k * h && a == (4 * kh) * m + w && w + k == (2 * k) * c + e && 0 <= e < 2 * k
    ensures HalfUp(a, 2 * k) == 2 * h * m + c && HalfUp(a, 2 * k) >= 0
  {
    Spread(k, h, m, c);
    assert 2 * a + 2 * k == (2 * (2 * k)) * (2 * h * m + c) + 2 * e;
    Quotient(2 * a + 2 * k, 2 * (2 * k), 2 * h * m + c, 2 * e);
    DivideMonotone(0, 2 * a + 2 * k, 2 * (2 * k));
  }

  lemma Spread(k: int, h: int, m: int, c: int)
    ensures (2 * (2 * k)) * (2 * h * m + c) == 2 * ((4 * (k * h)) * m) + 2 * ((2 * k) * c)
  {
  }

  lemma Carries(k: int, h: int, kh: int, w: int, c: int, e: int)
    requires k > 0 && h > 0 && kh == k * h && w + k == (2 * k) * c + e && 0 <= e < 2 * k && 0 <= w < 4 * kh
    ensures c >= h <==> w + k >= 2 * kh
    ensures 0 <= c <= 2 * h
  {
    Twice(k, h);
    Compare(2 * k, c, e, h);
    Compare(2 * k, c, e, 0);
    Compare(2 * k, c, e, 2 * h + 1);
  }

  lemma Twice(k: int, h: int)
    ensures (2 * k) * h == 2 * (k * h) && (2 * k) * (2 * h + 1) == 4 * (k * h) + 2 * k && (2 * k) * 0 == 0
  {
  }

  /** A quotient is at least h when the dividend is at least h divisors. */
  lemma Compare(d: int, c: int, e: int, h: int)
    requires d > 0 && 0 <= e < d
    ensures c >= h <==> d * c + e >= d * h
  {
    if c >= h {
      Scaled(d, h, c);
    } else {
      Scaled(d, c + 1, h);
    }
  }

  lemma SecondStep(b: int, h: int, m: int, c: int)
    requires h > 0 && b == 2 * h * m + c && 0 <= c <= 2 * h
    ensures HalfUp(b, 2 * h) == m + (if c >= h then 1 else 0)
  {
    TwiceQuotient(b, 2 * h, m, c);
    if c >= h {
      Quotient(2 * b + 2 * h, 2 * (2 * h), m + 1, 2 * c - 2 * h);
    } else {
      Quotient(2 * b + 2 * h, 2 * (2 * h), m, 2 * c + 2 * h);
    }
  }
}
