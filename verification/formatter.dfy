/** The number formatter (`format_frac`, `small_val`): a value becomes "0", an
    integer, a fraction `num/den` with a small denominator found by
    continued-fraction expansion, or, failing those, a decimal. Values are
    exact reals; the rendered text is abstracted to the `Rendered` datatype. */
module Formatter {
  import opened Reals

  const ZeroCutoff: real := 1e-14      // below this magnitude a value is "0"
  const IntegerSnap: real := 1e-12     // this close to an integer, print the integer
  const Tolerance: real := 5e-8        // a convergent this close is accepted
  const ExactRemainder: real := 1e-15  // a smaller fractional part ends the expansion
  const SmallCutoff: real := 1e-12     // small_val clamps smaller magnitudes to 0
  const MaxDen: int := 1000
  const MaxSteps: nat := 32

  /** What the formatter prints: "0", "%.0f" / "%lld" of an integer,
      "%lld/%lld", or the "%.6g" decimal form of `x` (kept abstract). */
  datatype Rendered = Zero | Int(n: int) | Frac(num: int, den: int) | Decimal(x: real)

  /** The loop state of the expansion: the two latest convergents p0/q0 and p1/q1. */
  datatype Convergents = Convergents(p0: int, q0: int, p1: int, q1: int)

  const Start := Convergents(0, 1, 1, 0)

  /** One step of the recurrence p = a*p1 + p0, q = a*q1 + q0: the new
      convergent p/q becomes p1/q1 and the old p1/q1 becomes p0/q0. */
  function Advance(a: int, c: Convergents): Convergents
  {
    Convergents(c.p1, c.q1, a * c.p1 + c.p0, a * c.q1 + c.q0)
  }

  /** The convergent `p/q` is accepted as a rendering of `ax`. A zero `q`
      stands for IEEE division: p/0 is infinite or NaN and never accepted. */
  predicate Close(p: int, q: int, ax: real)
  {
    q != 0 && Abs(p as real / q as real - ax) < Tolerance
  }

  /** The continued-fraction loop of `format_frac`, `steps` iterations at most,
      on the current tail `v` of the expansion of `ax`. A convergent whose
      denominator exceeds the cap is discarded and the loop stops; an accepted
      convergent is moved to p0/q0 and p1/q1 are zeroed. */
  function Expand(v: real, ax: real, c: Convergents, steps: nat): Convergents
    decreases steps
  {
    if steps == 0 then c
    else
      var a := v.Floor;
      var n := Advance(a, c);
      if n.q1 > MaxDen then c
      else if Close(n.p1, n.q1, ax) then Convergents(n.p1, n.q1, 0, 0)
      else
        var rem := v - a as real;
        if rem < ExactRemainder then Convergents(n.p1, n.q1, 0, 0)
        else Expand(1.0 / rem, ax, n, steps - 1)
  }

  /** The convergent the loop leaves behind: p1/q1 unless both were zeroed. */
  function Chosen(c: Convergents): (int, int)
  {
    if c.p1 != 0 || c.q1 != 0 then (c.p1, c.q1) else (c.p0, c.q0)
  }

  /** The tail of `format_frac`: decimal fallback, then the sign is put on
      the numerator and a denominator of 1 prints as an integer. */
  function FormatTail(x: real, c: Convergents): Rendered
  {
    var (num, den) := Chosen(c);
    if den > MaxDen || den == 0 then Decimal(x)
    else
      var signed := if x < 0.0 then -num else num;
      var num' := if den < 0 then -signed else signed;
      var den' := if den < 0 then -den else den;
      if den' == 1 then Int(num') else Frac(num', den')
  }

  // ---------------------------------------------------------------------------
  // Lowest terms

  predicate Divides(k: int, n: int)
  {
    k != 0 && n % k == 0
  }

  /** `a` and `b` share no divisor above 1. */
  ghost predicate Coprime(a: int, b: int)
  {
    forall k :: k >= 2 ==> !(Divides(k, a) && Divides(k, b))
  }

  /** A fraction as the expansion leaves it: positive denominator within the
      cap, non-negative numerator, lowest terms. */
  ghost predicate Admissible(f: (int, int))
  {
    1 <= f.1 <= MaxDen && 0 <= f.0 && Coprime(f.0, f.1)
  }

  /** Multiplying by a positive `k` keeps a non-zero integer at least `k` away from 0. */
  lemma ScaledAwayFromZero(k: int, d: int)
    requires k >= 1
    ensures d >= 1 ==> k * d >= k
    ensures d <= -1 ==> k * d <= -k
  {
    if d >= 1 {
      assert k * d == k + k * (d - 1);
    } else if d <= -1 {
      assert k * d == -k + k * (d + 1);
    }
  }

  /** Every multiple of `k` is divisible by `k`. */
  lemma MultipleDivisible(k: int, m: int)
    requires k >= 1
    ensures Divides(k, k * m)
  {
    var n := k * m;
    var q, r := n / k, n % k;
    assert n == k * q + r && 0 <= r < k;
    assert k * (m - q) == r;
    ScaledAwayFromZero(k, m - q);
  }

  /** A common divisor of `a` and `b` divides every combination of them. */
  lemma DividesCombination(k: int, a: int, b: int, s: int, t: int)
    requires k >= 1
    ensures Divides(k, a) && Divides(k, b) ==> Divides(k, a * s - b * t)
  {
    if a % k == 0 && b % k == 0 {
      var i, j := a / k, b / k;
      assert a == k * i && b == k * j;
      assert a * s - b * t == k * (i * s - j * t);
      MultipleDivisible(k, i * s - j * t);
    }
  }

  /** Divisibility does not depend on sign. */
  lemma DividesNegation(k: int, n: int)
    requires k >= 1
    ensures Divides(k, n) ==> Divides(k, -n)
  {
    if n % k == 0 {
      var q := n / k;
      assert n == k * q;
      assert -n == k * (-q);
      MultipleDivisible(k, -q);
    }
  }

  /** Putting the sign on the numerator keeps a fraction in lowest terms. */
  lemma CoprimeNegation(a: int, b: int)
    requires Coprime(a, b)
    ensures Coprime(-a, b)
  {
    forall k | k >= 2
      ensures !(Divides(k, -a) && Divides(k, b))
    {
      DividesNegation(k, -a);
    }
  }

  /** No integer above 1 divides 1 or -1. */
  lemma NoDivisorOfUnit(k: int, u: int)
    requires k >= 2 && (u == 1 || u == -1)
    ensures !Divides(k, u)
  {
  }

  /** Two integers with a Bezout combination of +-1 are coprime. */
  lemma CoprimeFromUnitDeterminant(a: int, b: int, s: int, t: int)
    requires a * s - b * t == 1 || a * s - b * t == -1
    ensures Coprime(a, b)
  {
    forall k | k >= 2
      ensures !(Divides(k, a) && Divides(k, b))
    {
      DividesCombination(k, a, b, s, t);
      NoDivisorOfUnit(k, a * s - b * t);
    }
  }

  /** The determinant of the two latest convergents. */
  function Det(c: Convergents): int
  {
    c.p1 * c.q0 - c.p0 * c.q1
  }

  /** The loop invariant of the expansion: non-negative convergents whose
      determinant is +-1, the latest denominator within the cap, and either
      the initial state or a tail `v >= 1` after a proper step. */
  ghost predicate ExpansionInv(v: real, c: Convergents)
  {
    && c.p0 >= 0 && c.p1 >= 0 && c.q0 >= 0 && c.q1 >= 0 && c.q1 <= MaxDen
    && (Det(c) == 1 || Det(c) == -1)
    && ((c.q1 == 0 && c.q0 == 1 && v >= 0.0) || (c.q1 >= 1 && v >= 1.0))
  }

  /** The determinant of consecutive convergents flips sign at each step. */
  lemma AdvanceFlipsDet(a: int, c: Convergents)
    ensures Det(Advance(a, c)) == -Det(c)
  {
    var p0, q0, p1, q1 := c.p0, c.q0, c.p1, c.q1;
    calc {
      Det(Advance(a, c));
      (a * p1 + p0) * q1 - p1 * (a * q1 + q0);
      { assert (a * p1 + p0) * q1 == a * p1 * q1 + p0 * q1; assert p1 * (a * q1 + q0) == a * p1 * q1 + p1 * q0; }
      p0 * q1 - p1 * q0;
    }
  }

  /** A step with partial quotient `a >= 0` (at least 1 after the first
      step) gives a non-negative convergent with denominator at least 1. */
  lemma AdvancePositive(a: int, c: Convergents)
    requires a >= 0 && c.p0 >= 0 && c.p1 >= 0 && c.q0 >= 0 && c.q1 >= 0
    requires (c.q1 == 0 && c.q0 == 1) || (a >= 1 && c.q1 >= 1)
    ensures Advance(a, c).p1 >= 0 && Advance(a, c).q1 >= 1
  {
    if c.q1 != 0 {
      ScaledAwayFromZero(c.q1, a);
    }
    assert a * c.p1 >= 0;
  }

  /** The partial quotient taken from a tail `v >= 0` is non-negative, and at
      least 1 when `v >= 1`; the remainder lies in [0, 1). */
  lemma FloorFacts(v: real)
    requires v >= 0.0
    ensures v.Floor >= 0 && (v >= 1.0 ==> v.Floor >= 1)
    ensures 0.0 <= v - v.Floor as real < 1.0
  {
  }

  /** The latest convergent of a state with unit determinant is admissible
      once its denominator is within the cap. */
  lemma LatestAdmissible(c: Convergents)
    requires 1 <= c.q1 <= MaxDen && 0 <= c.p1
    requires Det(c) == 1 || Det(c) == -1
    ensures Admissible((c.p1, c.q1))
  {
    CoprimeFromUnitDeterminant(c.p1, c.q1, c.q0, c.p0);
  }

  lemma ReciprocalAboveOne(r: real)
    requires 0.0 < r < 1.0
    ensures 1.0 / r > 1.0
  {
    assert (1.0 / r) * r == 1.0;
  }

  /** Whatever way the expansion stops, the convergent it leaves behind has a
      denominator in 1..1000 and is in lowest terms. */
  lemma {:induction false} ExpandAdmissible(v: real, ax: real, c: Convergents, steps: nat)
    requires ExpansionInv(v, c)
    requires steps >= 1 || c.q1 >= 1
    ensures Admissible(Chosen(Expand(v, ax, c, steps)))
    decreases steps
  {
    if steps == 0 || Advance(v.Floor, c).q1 > MaxDen {
      // The expansion stops with p1/q1 as it was; a step was taken before.
      assert c.q1 >= 1;
      LatestAdmissible(c);
    } else {
      FloorFacts(v);
      var n := Advance(v.Floor, c);
      AdvanceFlipsDet(v.Floor, c);
      AdvancePositive(v.Floor, c);
      var rem := v - v.Floor as real;
      if Close(n.p1, n.q1, ax) || rem < ExactRemainder {
        LatestAdmissible(n);
      } else {
        ReciprocalAboveOne(rem);
        ExpandAdmissible(1.0 / rem, ax, n, steps - 1);
      }
    }
  }

  /** A denominator of at least 2 in lowest terms forces a non-zero numerator. */
  lemma AdmissibleNumerator(f: (int, int))
    requires Admissible(f) && f.1 >= 2
    ensures f.0 >= 1
  {
    assert Divides(f.1, f.1);
    assert !Divides(f.1, f.0);
  }

  // ---------------------------------------------------------------------------
  // format_frac and small_val

  /** From an admissible convergent the tail of `format_frac` never falls
      back to a decimal, and prints a signed integer or a signed fraction in
      lowest terms with denominator 2..1000. */
  lemma TailFacts(x: real, c: Convergents)
    requires Admissible(Chosen(c))
    ensures var r := FormatTail(x, c);
      && !r.Decimal?
      && (r.Int? ==> (x < 0.0 ==> r.n <= 0) && (x > 0.0 ==> r.n >= 0))
      && (r.Frac? ==> 2 <= r.den <= MaxDen && Coprime(r.num, r.den) && r.num != 0)
      && (r.Frac? ==> (r.num < 0 <==> x < 0.0))
  {
    var (num, den) := Chosen(c);
    if den >= 2 {
      AdmissibleNumerator(Chosen(c));
      if x < 0.0 {
        CoprimeNegation(num, den);
      }
    }
  }

  /** What `format_frac` computes, branch by branch: near-zero, near-integer,
      then the capped expansion of |x|. */
  function Format(x: real): (r: Rendered)
    ensures r.Zero? <==> Abs(x) < ZeroCutoff
    ensures Abs(x) >= ZeroCutoff && Abs(x - Round(x) as real) < IntegerSnap ==> r == Int(Round(x))
    ensures r.Int? ==> (x < 0.0 ==> r.n <= 0) && (x > 0.0 ==> r.n >= 0)
    ensures r.Frac? ==> 2 <= r.den <= MaxDen && Coprime(r.num, r.den) && r.num != 0
    ensures r.Frac? ==> (r.num < 0 <==> x < 0.0)
    ensures !r.Decimal?
  {
    if Abs(x) < ZeroCutoff then Zero
    else if Abs(x - Round(x) as real) < IntegerSnap then Int(Round(x))
    else
      var ax := Abs(x);
      var c := Expand(ax, ax, Start, MaxSteps);
      ExpandAdmissible(ax, ax, Start, MaxSteps);
      TailFacts(x, c);
      FormatTail(x, c)
  }

  // ---------------------------------------------------------------------------
  // Accuracy of the printed form

  /** The printed form stands for `x`: "0" for a negligible value, an integer or
      fraction within the acceptance tolerance, or the decimal form of `x` itself. */
  ghost predicate Faithful(r: Rendered, x: real)
  {
    match r
    case Zero => Abs(x) < ZeroCutoff
    case Int(n) => Abs(n as real - x) < Tolerance
    case Frac(num, den) => Close(num, den, x)
    case Decimal(y) => y == x
  }

  /** The tail of `format_frac` on a convergent `num/den` with `den` in 1..1000
      prints something within tolerance of `x` exactly when `num/den` is within
      tolerance of |x|: moving the sign to the numerator mirrors the error. */
  lemma TailFaithful(x: real, c: Convergents)
    requires 1 <= Chosen(c).1 <= MaxDen
    ensures var (num, den) := Chosen(c);
      Faithful(FormatTail(x, c), x) <==> Close(num, den, Abs(x))
  {
    var (num, den) := Chosen(c);
    if x < 0.0 {
      assert (-num) as real / den as real - x == -(num as real / den as real - Abs(x));
    }
    if den == 1 {
      assert num as real / den as real == num as real;
    }
  }

  /** One step of the expansion that neither stops nor accepts hands the
      reciprocal of the fractional part to the next step. */
  lemma ExpandContinues(v: real, ax: real, c: Convergents, steps: nat, a: int, n: Convergents, rem: real)
    requires steps >= 1 && a == v.Floor && n == Advance(a, c) && rem == v - a as real
    requires n.q1 <= MaxDen && !Close(n.p1, n.q1, ax) && rem >= ExactRemainder
    ensures Expand(v, ax, c, steps) == Expand(1.0 / rem, ax, n, steps - 1)
  {
  }

  /** A step whose convergent is accepted, or whose remainder is negligible,
      ends the expansion with that convergent moved to p0/q0. */
  lemma ExpandStopsOnAccept(v: real, ax: real, c: Convergents, steps: nat, a: int, n: Convergents)
    requires steps >= 1 && a == v.Floor && n == Advance(a, c)
    requires n.q1 <= MaxDen && (Close(n.p1, n.q1, ax) || v - a as real < ExactRemainder)
    ensures Expand(v, ax, c, steps) == Convergents(n.p1, n.q1, 0, 0)
  {
  }

  /** A step whose denominator exceeds the cap ends the expansion unchanged. */
  lemma ExpandStopsAtCap(v: real, ax: real, c: Convergents, steps: nat)
    requires steps >= 1 && Advance(v.Floor, c).q1 > MaxDen
    ensures Expand(v, ax, c, steps) == c
  {
  }

  /** A value at most 1/1001 has a reciprocal of at least 1001. */
  lemma ReciprocalAtLeast(x: real)
    requires 0.0 < x <= 1.0 / 1001.0
    ensures 1.0 / x >= 1001.0
  {
    assert x * 1001.0 <= 1.0;
    assert (1.0 / x) * x == 1.0;
  }

  /** For a value in [5e-8, 1) the first step has partial quotient 0, gives
      the convergent 0/1, which is not accepted, and leaves remainder `x`. */
  lemma SmallFirstStepFacts(x: real)
    requires Tolerance <= x < 1.0
    ensures x.Floor == 0 && Advance(0, Start) == Convergents(1, 0, 0, 1)
    ensures !Close(0, 1, x) && x >= ExactRemainder && x == x - 0 as real
  {
  }

  /** A value in [5e-8, 1) has first partial quotient 0, whose convergent
      0/1 is not accepted, and the expansion goes on with 1/x. */
  lemma SmallFirstStep(x: real)
    requires Tolerance <= x < 1.0
    ensures Expand(x, x, Start, MaxSteps) == Expand(1.0 / x, x, Convergents(1, 0, 0, 1), MaxSteps - 1)
  {
    SmallFirstStepFacts(x);
    ExpandContinues(x, x, Start, MaxSteps, 0, Convergents(1, 0, 0, 1), x);
  }

  /** A value in [5e-8, 1/1001] expands to 0/1 and stops: its second
      convergent would have a denominator of at least 1001. */
  lemma SmallExpansion(x: real)
    requires Tolerance <= x <= 1.0 / 1001.0
    ensures Expand(x, x, Start, MaxSteps) == Convergents(1, 0, 0, 1)
  {
    SmallFirstStep(x);
    ReciprocalAtLeast(x);
    ExpandStopsAtCap(1.0 / x, x, Convergents(1, 0, 0, 1), MaxSteps - 1);
  }

  /** Every value in [5e-8, 1/1001] is neither negligible nor near an
      integer, yet prints as the integer 0, off by far more than the
      tolerance: the first convergent 0/1 is kept when the next
      denominator exceeds the cap, and no accuracy test guards the result. */
  lemma SmallValuesPrintZero(x: real)
    requires Tolerance <= x <= 1.0 / 1001.0
    ensures Format(x) == Int(0)
    ensures !Faithful(Format(x), x)
  {
    assert Round(x) == 0;
    SmallExpansion(x);
    assert Chosen(Convergents(1, 0, 0, 1)) == (0, 1);
  }

  /** The instance 0.0009. */
  lemma TinyValuePrintsZero()
    ensures Format(0.0009) == Int(0)
  {
    SmallValuesPrintZero(0.0009);
  }

  // ---------------------------------------------------------------------------
  // Small fractions print as themselves

  function Pow2(n: nat): (r: nat)
    ensures r >= 1
  {
    if n == 0 then 1 else 2 * Pow2(n - 1)
  }

  /** The quotient `ap/bp` of integers splits into the integer quotient `a`
      and the remainder `r` over `bp`. */
  lemma QuotientParts(ap: int, bp: int) returns (a: int, r: int)
    requires ap >= 0 && bp >= 1
    ensures ap == a * bp + r && 0 <= r < bp && a >= 0
    ensures (ap as real / bp as real).Floor == a
    ensures ap as real / bp as real - a as real == r as real / bp as real
  {
    a, r := ap / bp, ap % bp;
    var v, f := ap as real / bp as real, r as real / bp as real;
    assert ap as real == a as real * bp as real + r as real;
    assert v == a as real + f;
    RatioBelowOne(r as real, bp as real);
  }

  lemma RatioBelowOne(r: real, b: real)
    requires 0.0 <= r < b
    ensures 0.0 <= r / b < 1.0
  {
  }

  /** Reciprocals reverse the order of positive reals. */
  lemma ReciprocalAntitone(d: real, b: real)
    requires 0.0 < d <= b
    ensures 1.0 / d >= 1.0 / b
  {
    var x, y := 1.0 / d, 1.0 / b;
    assert x * d == 1.0 && y * b == 1.0;
    assert y * d <= y * b;
    assert (x - y) * d >= 0.0;
  }

  /** A positive fraction with denominator at most `bound` is at least
      `1/bound`. */
  lemma RatioAtLeast(n: int, d: int, bound: int)
    requires n >= 1 && 1 <= d <= bound
    ensures n as real / d as real >= 1.0 / bound as real
  {
    assert n as real / d as real >= 1.0 / d as real;
    ReciprocalAntitone(d as real, bound as real);
  }

  /** Two different fractions with denominators up to 1000 lie at least
      1e-6 apart, well beyond the acceptance tolerance. */
  lemma FractionsApart(n1: int, d1: int, n2: int, d2: int)
    requires 1 <= d1 <= MaxDen && 1 <= d2 <= MaxDen && n1 * d2 != n2 * d1
    ensures !Close(n1, d1, n2 as real / d2 as real)
  {
    var d, e := d1 * d2, n1 * d2 - n2 * d1;
    var diff := n1 as real / d1 as real - n2 as real / d2 as real;
    FractionDifference(n1, d1, n2, d2);
    ProductBound(d1, d2);
    if e >= 1 {
      RatioAtLeast(e, d, 1000000);
    } else {
      RatioAtLeast(-e, d, 1000000);
      assert -diff == (-e) as real / d as real;
    }
  }

  /** The difference of two fractions over the product of their
      denominators. */
  lemma FractionDifference(n1: int, d1: int, n2: int, d2: int)
    requires d1 >= 1 && d2 >= 1
    ensures n1 as real / d1 as real - n2 as real / d2 as real == (n1 * d2 - n2 * d1) as real / (d1 * d2) as real
  {
    var x, y := n1 as real / d1 as real, n2 as real / d2 as real;
    var D := (d1 * d2) as real;
    assert D == d1 as real * d2 as real;
    assert x * D == n1 as real * d2 as real;
    assert y * D == n2 as real * d1 as real;
    assert (x - y) * D == (n1 * d2 - n2 * d1) as real;
  }

  lemma ProductBound(d1: int, d2: int)
    requires 1 <= d1 <= MaxDen && 1 <= d2 <= MaxDen
    ensures 1 <= d1 * d2 <= 1000000
  {
    ScaledAwayFromZero(d1, d2);
    ScaledAwayFromZero(d2, 1001 - d1);
    assert d2 * (1001 - d1) == 1001 * d2 - d1 * d2;
  }

  /** A fraction in lowest terms with denominator at least 2 is no integer. */
  lemma NotAMultiple(p: int, q: int, k: int)
    requires 2 <= q && Coprime(p, q)
    ensures p != k * q
  {
    if p == k * q {
      MultipleDivisible(q, k);
      assert Divides(q, q * k) && Divides(q, q);
    }
  }

  /** Dividing `ap` by a smaller `bp >= 1` gives a quotient `a >= 1`, the
      integer part of `ap/bp`, and a remainder `r` below half of `ap`, whose
      share `r/bp` is the fractional part of `ap/bp`. */
  lemma DivisionStep(ap: int, bp: int) returns (a: int, r: int)
    requires 1 <= bp < ap
    ensures ap == a * bp + r && 0 <= r < bp && a >= 1 && 2 * r < ap
    ensures (ap as real / bp as real).Floor == a
    ensures ap as real / bp as real - a as real == r as real / bp as real
  {
    a, r := QuotientParts(ap, bp);
    ScaledAwayFromZero(bp, a);
  }

  /** Euclid's step `ap == a * bp + r` carried through one coordinate
      `x == ap * x1 + bp * x0` of the convergents. */
  lemma RebuildStep(x: int, ap: int, bp: int, a: int, r: int, x1: int, x0: int)
    requires ap == a * bp + r && x == ap * x1 + bp * x0
    ensures x == bp * (a * x1 + x0) + r * x1
  {
    calc {
      x;
      (a * bp + r) * x1 + bp * x0;
      { assert (a * bp + r) * x1 == bp * (a * x1) + r * x1; }
      bp * (a * x1) + r * x1 + bp * x0;
      { assert bp * (a * x1) + bp * x0 == bp * (a * x1 + x0); }
      bp * (a * x1 + x0) + r * x1;
    }
  }

  /** How far `n1/k1` misses `p/q` when `p` and `q` are rebuilt from it. */
  lemma CrossDifference(p: int, q: int, bp: int, r: int, n1: int, k1: int, m: int, l: int)
    requires p == bp * n1 + r * m && q == bp * k1 + r * l
    ensures n1 * q - p * k1 == r * (n1 * l - m * k1)
  {
    assert n1 * q == bp * (n1 * k1) + r * (n1 * l);
    assert p * k1 == bp * (n1 * k1) + r * (m * k1);
  }

  /** The reciprocal of a positive fraction is the fraction turned over. */
  lemma ReciprocalOfRatio(r: int, b: int)
    requires r >= 1 && b >= 1
    ensures 1.0 / (r as real / b as real) == b as real / r as real
  {
  }

  /** Euclid's step from `(ap, bp)` to `(bp, r)` with `2 * r < ap` at least
      halves the product, so it needs one step fewer of the budget. */
  lemma ProductHalves(ap: int, bp: int, r: int, steps: nat)
    requires bp >= 1 && 0 <= 2 * r < ap && ap * bp < Pow2(steps) && steps >= 1
    ensures bp * r < Pow2(steps - 1)
  {
    assert bp * (2 * r) < bp * ap;
  }

  /** One step of the expansion of `p/q` with integer tail `ap/bp` is a step
      of Euclid's algorithm: the new convergent, with the remainder
      `ap % bp`, still rebuilds `p` and `q`, its denominator lies in 1..q,
      and it misses `p/q` by the remainder times its determinant. */
  lemma EuclidStep(p: int, q: int, ap: int, bp: int, a: int, r: int, c: Convergents)
    requires ap == a * bp + r && 0 <= r < bp && 1 <= a
    requires p == ap * c.p1 + bp * c.p0 && q == ap * c.q1 + bp * c.q0
    requires c.p0 >= 0 && c.p1 >= 0 && c.q0 >= 0 && c.q1 >= 1
    ensures var n := Advance(a, c);
      && p == bp * n.p1 + r * n.p0 && q == bp * n.q1 + r * n.q0
      && n.p0 >= 0 && n.p1 >= 0 && n.q0 >= 0 && 1 <= n.q1 <= q && ap <= q
      && n.p1 * q - p * n.q1 == r * Det(n)
  {
    var n := Advance(a, c);
    RebuildStep(p, ap, bp, a, r, c.p1, c.p0);
    RebuildStep(q, ap, bp, a, r, c.q1, c.q0);
    AdvancePositive(a, c);
    assert n.q1 <= q && ap <= q by {
      assert r * c.q1 >= 0 && bp * c.q0 >= 0;
      ScaledAwayFromZero(n.q1, bp);
      ScaledAwayFromZero(ap, c.q1);
    }
    CrossDifference(p, q, bp, r, n.p1, n.q1, c.p1, c.q1);
  }

  /** The state of the expansion of `p/q` with tail `ap/bp` after a proper
      step: the integer tail and the two latest convergents rebuild `p` and
      `q`, the convergents are non-negative and have determinant +-1. */
  ghost predicate EuclidState(p: int, q: int, ap: int, bp: int, c: Convergents)
  {
    && 1 <= bp < ap
    && p == ap * c.p1 + bp * c.p0 && q == ap * c.q1 + bp * c.q0
    && c.p0 >= 0 && c.p1 >= 0 && c.q0 >= 0 && c.q1 >= 1
    && (Det(c) == 1 || Det(c) == -1)
  }

  /** One step of the expansion of `p/q` from a state with integer tail
      `ap/bp`: an exact quotient (`r == 0`) accepts `p/q`; otherwise the
      convergent is rejected and the expansion goes on with tail `bp/r` from
      a state of the same kind, whose product `bp * r` fits one step fewer. */
  lemma ExpandRationalStep(p: int, q: int, ap: int, bp: int, c: Convergents, steps: nat)
      returns (r: int, n: Convergents)
    requires EuclidState(p, q, ap, bp, c) && q <= MaxDen && Coprime(p, q)
    requires ap * bp < Pow2(steps) && steps >= 1
    ensures r == 0 ==> Expand(ap as real / bp as real, p as real / q as real, c, steps) == Convergents(p, q, 0, 0)
    ensures r != 0 ==>
      && EuclidState(p, q, bp, r, n) && bp * r < Pow2(steps - 1)
      && Expand(ap as real / bp as real, p as real / q as real, c, steps)
         == Expand(bp as real / r as real, p as real / q as real, n, steps - 1)
  {
    var a;
    a, r := DivisionStep(ap, bp);
    n := Advance(a, c);
    EuclidStep(p, q, ap, bp, a, r, c);
    if r == 0 {
      ExactQuotientAccepts(p, q, ap, bp, c, steps, a);
    } else {
      AdvanceFlipsDet(a, c);
      ProductHalves(ap, bp, r, steps);
      RemainderContinues(p, q, ap, bp, c, steps, a, r);
    }
  }

  /** An exact quotient `ap == a * bp` ends the expansion on `p/q`: `bp`
      divides `p` and `q`, so it is 1 and the new convergent is `p/q`. */
  lemma ExactQuotientAccepts(p: int, q: int, ap: int, bp: int, c: Convergents, steps: nat, a: int)
    requires steps >= 1 && q <= MaxDen && Coprime(p, q) && bp >= 1
    requires (ap as real / bp as real).Floor == a && ap as real / bp as real - a as real == 0.0
    requires var n := Advance(a, c); p == bp * n.p1 && q == bp * n.q1 && n.q1 >= 1
    ensures Expand(ap as real / bp as real, p as real / q as real, c, steps) == Convergents(p, q, 0, 0)
  {
    var n := Advance(a, c);
    if bp >= 2 {
      MultipleDivisible(bp, n.p1);
      MultipleDivisible(bp, n.q1);
      assert false;
    }
    ExpandStopsOnAccept(ap as real / bp as real, p as real / q as real, c, steps, a, n);
  }

  /** A quotient with remainder `r >= 1` misses `p/q` by a fraction with
      denominator at most 1000, so the expansion goes on with tail `bp/r`. */
  lemma RemainderContinues(p: int, q: int, ap: int, bp: int, c: Convergents, steps: nat, a: int, r: int)
    requires steps >= 1 && q <= MaxDen && 1 <= r < bp <= MaxDen
    requires (ap as real / bp as real).Floor == a && ap as real / bp as real - a as real == r as real / bp as real
    requires var n := Advance(a, c); 1 <= n.q1 <= q && n.p1 * q - p * n.q1 == r * Det(n) && Det(n) != 0
    ensures Expand(ap as real / bp as real, p as real / q as real, c, steps)
         == Expand(bp as real / r as real, p as real / q as real, Advance(a, c), steps - 1)
  {
    var n := Advance(a, c);
    assert n.p1 * q != p * n.q1;
    FractionsApart(n.p1, n.q1, p, q);
    RatioAtLeast(r, bp, MaxDen);
    ExpandContinues(ap as real / bp as real, p as real / q as real, c, steps, a, n, r as real / bp as real);
    ReciprocalOfRatio(r, bp);
  }

  /** The expansion of `p/q` once its first step is taken, with tail
      `ap/bp`: every convergent has a denominator at most `q`, none is
      accepted before `p/q` itself, and `p/q` is reached before the steps run
      out, since the product `ap * bp` at least halves at each step. */
  lemma {:induction false} ExpandRational(p: int, q: int, ap: int, bp: int, c: Convergents, steps: nat)
    requires EuclidState(p, q, ap, bp, c) && q <= MaxDen && Coprime(p, q)
    requires ap * bp < Pow2(steps)
    ensures Expand(ap as real / bp as real, p as real / q as real, c, steps) == Convergents(p, q, 0, 0)
    decreases steps
  {
    if steps == 0 {
      ScaledAwayFromZero(ap, bp);
    } else {
      var r, n := ExpandRationalStep(p, q, ap, bp, c, steps);
      if r != 0 {
        ExpandRational(p, q, bp, r, n, steps - 1);
      }
    }
  }

  /** The expansion of a fraction `p/q` in lowest terms with denominator
      2..1000 ends on `p/q` itself when the budget covers a product below
      1000 * 1000: its integer part is not accepted, and from there on the
      steps are Euclid's algorithm on `q` and `p % q`. */
  lemma ExpandFraction(p: int, q: int, steps: nat)
    requires p >= 1 && 2 <= q <= MaxDen && Coprime(p, q)
    requires steps >= 1 && 1000 * 1000 <= Pow2(steps - 1)
    ensures Expand(p as real / q as real, p as real / q as real, Start, steps) == Convergents(p, q, 0, 0)
  {
    var a, r := QuotientParts(p, q);
    NotAMultiple(p, q, a);
    var n := Advance(a, Start);
    RemainderContinues(p, q, p, q, Start, steps, a, r);
    FirstEuclidState(p, q, a, r);
    ExpandRational(p, q, q, r, n, steps - 1);
  }

  /** After the first step on `p/q == a + r/q` the expansion is in the
      state Euclid's algorithm starts from, with tail `q/r`. */
  lemma FirstEuclidState(p: int, q: int, a: int, r: int)
    requires p == a * q + r && a >= 0 && 1 <= r < q <= MaxDen
    ensures EuclidState(p, q, q, r, Advance(a, Start)) && q * r < 1000 * 1000
  {
    var n := Advance(a, Start);
    assert n == Convergents(1, 0, a, 1) && Det(n) == -1;
    assert p == q * n.p1 + r * n.p0 && q == q * n.q1 + r * n.q0;
    ScaledAwayFromZero(r, q);
    ScaledAwayFromZero(r, 1000 - q + 1);
    assert r * (1000 - q + 1) == 1000 * r - q * r + r;
  }

  /** The loop's budget of 32 steps leaves room for Euclid's algorithm on
      any pair below 1000 after the first step. */
  lemma BudgetCoversFractions()
    ensures 1000 * 1000 <= Pow2(MaxSteps - 1)
  {
    assert Pow2(2) == 4;
    PowAdd(2, 2);
    PowAdd(4, 4);
    PowAdd(8, 8);
    PowAdd(16, 4);
    PowMonotone(20, MaxSteps - 1);
  }

  lemma {:induction false} PowAdd(m: nat, n: nat)
    ensures Pow2(m + n) == Pow2(m) * Pow2(n)
    decreases n
  {
    if n > 0 {
      PowAdd(m, n - 1);
    }
  }

  lemma {:induction false} PowMonotone(m: nat, n: nat)
    requires m <= n
    ensures Pow2(m) <= Pow2(n)
    decreases n
  {
    if m < n {
      PowMonotone(m, n - 1);
    }
  }

  /** A fraction in lowest terms with denominator 2..1000 prints as itself,
      with the sign on the numerator: `format_frac` gives back the "nice"
      fraction it was handed, and its negation. */
  lemma SmallFractionsRoundTrip(p: int, q: int)
    requires p >= 1 && 2 <= q <= MaxDen && Coprime(p, q)
    ensures Format(p as real / q as real) == Frac(p, q)
    ensures Format(-(p as real / q as real)) == Frac(-p, q)
  {
    var x := p as real / q as real;
    FractionNotInteger(p, q);
    BudgetCoversFractions();
    ExpandFraction(p, q, MaxSteps);
    assert Abs(-x) == x;
  }

  /** A fraction in lowest terms with denominator 2..1000 is neither
      negligible nor within the integer snap of an integer, and neither is
      its negation. */
  lemma FractionNotInteger(p: int, q: int)
    requires p >= 1 && 2 <= q <= MaxDen && Coprime(p, q)
    ensures var x := p as real / q as real;
      && x >= ZeroCutoff
      && Abs(x - Round(x) as real) >= IntegerSnap
      && Abs(-x - Round(-x) as real) >= IntegerSnap
  {
    var x := p as real / q as real;
    RatioAtLeast(p, q, MaxDen);
    FarFromIntegers(p, q, Round(x));
    FarFromIntegers(p, q, -Round(-x));
    assert -x - Round(-x) as real == (-Round(-x)) as real - x;
  }

  /** A fraction in lowest terms with denominator 2..1000 lies at least the
      acceptance tolerance away from any integer `k`. */
  lemma FarFromIntegers(p: int, q: int, k: int)
    requires 2 <= q <= MaxDen && Coprime(p, q)
    ensures Abs(k as real - p as real / q as real) >= Tolerance
  {
    NotAMultiple(p, q, k);
    FractionsApart(k, 1, p, q);
    assert k as real / 1 as real == k as real;
  }

  /** `format_frac` with the accuracy test its decimal fallback evidently
      intends: a convergent further than the tolerance from |x| is not
      printed and the decimal form of `x` is shown instead. */
  function FormatChecked(x: real): (r: Rendered)
    ensures Faithful(r, x)
    ensures r.Zero? <==> Abs(x) < ZeroCutoff
    ensures r.Frac? ==> 2 <= r.den <= MaxDen && Coprime(r.num, r.den)
    ensures r == Format(x) || r == Decimal(x)
    ensures Faithful(Format(x), x) ==> r == Format(x)
  {
    if Abs(x) < ZeroCutoff then Zero
    else if Abs(x - Round(x) as real) < IntegerSnap then Int(Round(x))
    else
      var ax := Abs(x);
      var c := Expand(ax, ax, Start, MaxSteps);
      ExpandAdmissible(ax, ax, Start, MaxSteps);
      TailFacts(x, c);
      TailFaithful(x, c);
      var (num, den) := Chosen(c);
      if den > MaxDen || !Close(num, den, ax) then Decimal(x)
      else FormatTail(x, c)
  }

  /** `format_frac` with its expansion loop of at most 32 iterations. */
  method FormatFrac(x: real) returns (r: Rendered)
    ensures r == Format(x)
  {
    if Abs(x) < ZeroCutoff {
      return Zero;
    }
    var rintx := Round(x);
    if Abs(x - rintx as real) < IntegerSnap {
      return Int(rintx);
    }
    var ax := Abs(x);
    var v := ax;
    var p0, q0, p1, q1 := 0, 1, 1, 0;
    var it := 0;
    while it < MaxSteps
      invariant 0 <= it <= MaxSteps
      invariant Expand(v, ax, Convergents(p0, q0, p1, q1), MaxSteps - it) == Expand(ax, ax, Start, MaxSteps)
    {
      var a := v.Floor;
      var p := a * p1 + p0;
      var q := a * q1 + q0;
      ghost var c, n := Convergents(p0, q0, p1, q1), Convergents(p1, q1, p, q);
      assert Advance(a, c) == n;
      if q > MaxDen {
        ExpandStopsAtCap(v, ax, c, MaxSteps - it);
        break;
      }
      if Close(p, q, ax) {
        ExpandStopsOnAccept(v, ax, c, MaxSteps - it, a, n);
        p0, q0, p1, q1 := p, q, 0, 0;
        break;
      }
      p0, q0, p1, q1 := p1, q1, p, q;
      var rem := v - a as real;
      if rem < ExactRemainder {
        ExpandStopsOnAccept(v, ax, c, MaxSteps - it, a, n);
        p0, q0, p1, q1 := p, q, 0, 0;
        break;
      }
      ExpandContinues(v, ax, c, MaxSteps - it, a, n, rem);
      v := 1.0 / rem;
      it := it + 1;
    }
    r := FormatTail(x, Convergents(p0, q0, p1, q1));
  }

  /** `small_val`: magnitudes below 1e-12 are clamped to 0 first. */
  method SmallVal(v: real) returns (r: Rendered)
    ensures r == Format(if Abs(v) < SmallCutoff then 0.0 else v)
    ensures r.Zero? <==> Abs(v) < SmallCutoff
  {
    var w := v;
    if Abs(w) < SmallCutoff {
      w := 0.0;
    }
    r := FormatFrac(w);
  }
}
