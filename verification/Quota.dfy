/** Quota arithmetic: saturating conversions, and the charge of a channel test. */
module Quota {
  import opened Options
  import opened Rounding

  const MAX_QUOTA := 2147483647
  const MIN_QUOTA := -2147483648
  const MAX_WALLET := 9007199254740991

  /** A floating-point number; finite ones stand for the real they hold. */
  datatype Float = NaN | Infinite(negative: bool) | Finite(value: real)

  datatype Clamp = Unclamped | Overflow | Underflow | NotANumber

  /** To the nearest integer, halves away from zero. */
  function Rounded(x: real): int {
    if x >= 0.0 then (x + 0.5).Floor else -((-x + 0.5).Floor)
  }

  function RoundedFloat(f: Float): Float {
    if f.Finite? then Finite(Rounded(f.value) as real) else f
  }

  function Saturate(f: Float, max: int, min: int): (int, Clamp) {
    match f
    case NaN => (0, NotANumber)
    case Infinite(negative) => if negative then (min, Underflow) else (max, Overflow)
    case Finite(x) =>
      if x > max as real then (max, Overflow)
      else if x < min as real then (min, Underflow)
      else (Truncated(x), Unclamped)
  }

  function FromFloat(f: Float): (int, Clamp) {
    Saturate(f, MAX_QUOTA, MIN_QUOTA)
  }

  function Round(f: Float): (int, Clamp) {
    Saturate(RoundedFloat(f), MAX_QUOTA, MIN_QUOTA)
  }

  function Strict(r: (int, Clamp)): Option<int> {
    if r.1.Unclamped? then Some(r.0) else None
  }

  // ---------------------------------------------------------------------------
  // What the conversions compute
  // ---------------------------------------------------------------------------

  function Abs(x: real): real {
    if x >= 0.0 then x else -x
  }

  function Magnitude(n: int): nat {
    if n >= 0 then n else -n
  }

  lemma TruncatedInteger(n: int)
    ensures Truncated(n as real) == n
  {
    assert (n as real).Floor == n;
    assert (-n) as real == -(n as real);
    assert ((-n) as real).Floor == -n;
  }

  /** The nearest integer, with halves going away from zero. */
  lemma RoundedIsNearest(x: real, n: int)
    ensures Abs(x - Rounded(x) as real) <= 0.5
    ensures Abs(x - Rounded(x) as real) <= Abs(x - n as real)
    ensures Abs(x - Rounded(x) as real) == Abs(x - n as real) ==> Magnitude(n) <= Magnitude(Rounded(x))
  {
    var r := Rounded(x);
    assert Abs(x - r as real) <= 0.5;
    if n != r {
      assert Abs(n as real - r as real) >= 1.0;
    }
  }

  /** Rounding to a quota gives the amount closest to the value among all that a request
      can be charged, the larger one when two are equally close. */
  lemma RoundIsNearestQuota(x: real, n: int)
    requires MIN_QUOTA <= n <= MAX_QUOTA
    ensures MIN_QUOTA <= Round(Finite(x)).0 <= MAX_QUOTA
    ensures Abs(x - Round(Finite(x)).0 as real) <= Abs(x - n as real)
    ensures Abs(x - Round(Finite(x)).0 as real) == Abs(x - n as real) ==> Magnitude(n) <= Magnitude(Round(Finite(x)).0)
  {
    RoundedIsNearest(x, n);
    TruncatedInteger(Rounded(x));
  }

  /** Truncation never charges more than the value, and less than one unit below it,
      unless it had to be clamped. */
  lemma FromFloatTruncates(x: real)
    ensures var (q, clamp) := FromFloat(Finite(x));
            && MIN_QUOTA <= q <= MAX_QUOTA
            && (clamp.Unclamped? ==> Magnitude(q) as real <= Abs(x) < Magnitude(q) as real + 1.0)
            && (clamp.Unclamped? ==> (q > 0 ==> x > 0.0) && (q < 0 ==> x < 0.0))
  {
  }

  ghost predicate AtMost(f: Float, g: Float) {
    && !f.NaN? && !g.NaN?
    && (f == Infinite(true) || g == Infinite(false) || (f.Finite? && g.Finite? && f.value <= g.value))
  }

  lemma RoundedMonotone(x: real, y: real)
    requires x <= y
    ensures Rounded(x) <= Rounded(y) && Truncated(x) <= Truncated(y)
  {
  }

  /** A larger value is never charged less. */
  lemma ConversionsAreMonotone(f: Float, g: Float)
    requires AtMost(f, g)
    ensures FromFloat(f).0 <= FromFloat(g).0 && Round(f).0 <= Round(g).0
  {
    if f.Finite? && g.Finite? {
      RoundedMonotone(f.value, g.value);
      RoundedMonotone(Rounded(f.value) as real, Rounded(g.value) as real);
    }
    if f.Finite? { TruncatedInteger(Rounded(f.value)); }
    if g.Finite? { TruncatedInteger(Rounded(g.value)); }
  }

  /** The strict forms fail exactly on the values that would have been clamped; what is
      not a number is charged nothing, and what is not finite the most extreme amount. */
  lemma StrictFailsIff(f: Float)
    ensures f.NaN? ==> FromFloat(f).0 == 0 && Round(f).0 == 0
    ensures f.Infinite? ==> FromFloat(f).0 == Round(f).0 == if f.negative then MIN_QUOTA else MAX_QUOTA
    ensures Strict(FromFloat(f)).Some? <==> f.Finite? && MIN_QUOTA as real <= f.value <= MAX_QUOTA as real
    ensures Strict(Round(f)).Some? <==> f.Finite? && MIN_QUOTA as real - 0.5 < f.value < MAX_QUOTA as real + 0.5
  {
  }

  // ---------------------------------------------------------------------------
  // Decimals
  // ---------------------------------------------------------------------------

  /** A conversion of integers to floating point that keeps the order and is exact up to
      2^53, as the format of section 3.4 of IEEE 754 guarantees for double precision. */
  ghost predicate DoublePrecision(toFloat: int -> Float) {
    && (forall m, n :: m <= n ==> AtMost(toFloat(m), toFloat(n)))
    && (forall n :: -MAX_WALLET - 1 <= n <= MAX_WALLET + 1 ==> toFloat(n) == Finite(n as real))
  }

  function FromDecimal(d: real, toFloat: int -> Float): (int, Clamp) {
    Saturate(toFloat(Rounded(d)), MAX_QUOTA, MIN_QUOTA)
  }

  function WalletFromDecimal(d: real, toFloat: int -> Float): Option<int> {
    Strict(Saturate(toFloat(Rounded(d)), MAX_WALLET, -MAX_WALLET))
  }

  lemma SaturatedInteger(n: int, max: int, min: int, toFloat: int -> Float)
    requires DoublePrecision(toFloat) && -MAX_WALLET <= min <= 0 <= max <= MAX_WALLET
    ensures Saturate(toFloat(n), max, min) ==
            if n > max then (max, Overflow) else if n < min then (min, Underflow) else (n, Unclamped)
  {
    TruncatedInteger(n);
    if n > max {
      assert AtMost(toFloat(max + 1), toFloat(n));
    } else if n < min {
      assert AtMost(toFloat(n), toFloat(min - 1));
    }
  }

  /** Wallet amounts pass through floating point unharmed: the result is the rounded
      decimal itself, and there is one exactly when its size is below 2^53. */
  lemma WalletIsExact(d: real, toFloat: int -> Float)
    requires DoublePrecision(toFloat)
    ensures WalletFromDecimal(d, toFloat) ==
            if -MAX_WALLET <= Rounded(d) <= MAX_WALLET then Some(Rounded(d)) else None
  {
    SaturatedInteger(Rounded(d), MAX_WALLET, -MAX_WALLET, toFloat);
  }

  /** On decimals the charge is the same as on the real number itself. */
  lemma DecimalIsRound(d: real, toFloat: int -> Float)
    requires DoublePrecision(toFloat)
    ensures FromDecimal(d, toFloat) == Round(Finite(d))
  {
    SaturatedInteger(Rounded(d), MAX_QUOTA, MIN_QUOTA, toFloat);
    TruncatedInteger(Rounded(d));
  }

  // ---------------------------------------------------------------------------
  // The charge of a channel test
  // ---------------------------------------------------------------------------

  /** Prompt tokens plus `output`, the completion tokens times their ratio, with both
      steps rounded. */
  function Tokens(prompt: int, output: real): int {
    Round(Finite((prompt + Round(Finite(output)).0) as real)).0
  }

  /** The same without rounding. */
  function Weight(prompt: int, output: real): real {
    prompt as real + output
  }

  function Settled(tokens: int, modelRatio: real): int {
    Round(Finite(tokens as real * modelRatio)).0
  }

  /** What three roundings in a row make of the token counts, before the minimum. */
  function Nested(prompt: int, output: real, modelRatio: real): int {
    Settled(Tokens(prompt, output), modelRatio)
  }

  function Charge(prompt: int, output: real, modelRatio: real): int {
    var quota := Nested(prompt, output, modelRatio);
    if modelRatio != 0.0 && quota <= 0 then 1 else quota
  }

  predicate Fits(x: real) {
    MIN_QUOTA as real <= x <= MAX_QUOTA as real
  }

  lemma RoundIsClose(x: real)
    requires Fits(x)
    ensures Abs(x - Round(Finite(x)).0 as real) <= 0.5
  {
    RoundedIsNearest(x, 0);
    TruncatedInteger(Rounded(x));
  }

  lemma RoundOfInteger(n: int)
    requires Fits(n as real)
    ensures Round(Finite(n as real)).0 == n
  {
    RoundIsNearestQuota(n as real, n);
  }

  lemma NotNegative(x: real, y: real)
    requires x >= 0.0 && y >= 0.0
    ensures x * y >= 0.0
  {
  }

  /** `p` is the product, so that the other steps do without one. */
  lemma ScaledUp(d: real, m: real, p: real)
    requires -0.5 <= d <= 0.5 && m >= 0.0 && p == d * m
    ensures -(0.5 * m) <= p <= 0.5 * m
  {
    NotNegative(0.5 - d, m);
    NotNegative(0.5 + d, m);
    assert (0.5 - d) * m == 0.5 * m - p;
    assert (0.5 + d) * m == 0.5 * m + p;
  }

  lemma Negated(d: real, m: real, n: real, p: real)
    requires n == -m && p == d * m
    ensures -p == d * n
  {
  }

  lemma Scaled(d: real, m: real, p: real)
    requires -0.5 <= d <= 0.5 && p == d * m
    ensures Abs(p) <= 0.5 * Abs(m)
  {
    if m >= 0.0 {
      ScaledUp(d, m, p);
    } else {
      Negated(d, m, -m, p);
      ScaledUp(d, -m, -p);
    }
  }

  lemma Distributes(a: real, b: real, m: real)
    ensures a * m == (a - b) * m + b * m
  {
  }

  lemma Triangle(x: real, d: real, y: real, z: real, e: real)
    requires x == d + y && Abs(d) <= e && Abs(y - z) <= 0.5
    ensures Abs(x - z) <= 0.5 + e
  {
  }

  /** Half a unit, and half a token, from the exact charge. */
  predicate NearCharge(weight: real, m: real, quota: int) {
    Abs(weight * m - quota as real) <= 0.5 + 0.5 * Abs(m)
  }

  /** An error in the token count counts as often as the model ratio says. */
  lemma ErrorsAdd(exact: real, tokens: int, m: real, quota: int)
    requires Abs(exact - tokens as real) <= 0.5 && Abs(tokens as real * m - quota as real) <= 0.5
    ensures NearCharge(exact, m, quota)
  {
    var d := exact - tokens as real;
    Scaled(d, m, d * m);
    Distributes(exact, tokens as real, m);
    Triangle(exact * m, d * m, tokens as real * m, quota as real, 0.5 * Abs(m));
  }

  lemma TokensAreClose(prompt: int, output: real)
    requires Fits(output) && Fits((prompt + Round(Finite(output)).0) as real)
    ensures Abs(Weight(prompt, output) - Tokens(prompt, output) as real) <= 0.5
  {
    RoundIsClose(output);
    RoundOfInteger(prompt + Round(Finite(output)).0);
  }

  lemma SettledIsClose(weight: real, tokens: int, m: real)
    requires Abs(weight - tokens as real) <= 0.5 && Fits(tokens as real * m)
    ensures NearCharge(weight, m, Settled(tokens, m))
  {
    RoundIsClose(tokens as real * m);
    ErrorsAdd(weight, tokens, m, Settled(tokens, m));
  }

  /** While nothing saturates, rounding three times costs at most half a unit plus half
      the model ratio against the exact charge. */
  lemma NestedIsClose(prompt: int, output: real, modelRatio: real)
    requires Fits(output) && Fits((prompt + Round(Finite(output)).0) as real)
    requires Fits(Tokens(prompt, output) as real * modelRatio)
    ensures NearCharge(Weight(prompt, output), modelRatio, Nested(prompt, output, modelRatio))
  {
    TokensAreClose(prompt, output);
    SettledIsClose(Weight(prompt, output), Tokens(prompt, output), modelRatio);
  }

  /** A test is free exactly when the model is; nothing else rounds down to nothing. */
  lemma FreeIffRatioIsZero(prompt: int, output: real, modelRatio: real)
    ensures Charge(prompt, output, modelRatio) == 0 <==> modelRatio == 0.0
    ensures 0 <= Charge(prompt, output, modelRatio) <= MAX_QUOTA
  {
    var tokens := Tokens(prompt, output);
    RoundIsNearestQuota(tokens as real * modelRatio, 0);
    if modelRatio == 0.0 {
      assert tokens as real * modelRatio == 0.0;
    }
  }
}
