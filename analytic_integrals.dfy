/** The angular integrals of math_helper.cc used by the triangle-domain potential
    integral. Each is the difference, between the end angles θ0 and θf, of a
    closed-form antiderivative. The antiderivatives themselves are built from
    log, sec, tan, asin, atanh, asinh and sqrt, which have no counterpart over
    the reals here, so they are parameters; what is modelled exactly is how each
    integral is assembled from them and the α ≈ 0 dispatch. */
module AnalyticIntegrals {
  import opened Numerics

  /** The transcendental antiderivatives. The shaped ones take (θ, α). */
  datatype Antiderivatives = Antiderivatives(
    logSecPlusTan: real -> real,      // θ ↦ ln|sec θ + tan θ|
    secant: real -> real,             // θ ↦ sec θ
    i0minus1P1: (real, real) -> real, // α·asin(α sin θ) + √(1−α²)·atanh(…)
    i1minus2P1: (real, real) -> real) // α·asinh(…) + √(α² cos²θ − α² + 1) / cos θ

  /** CalcIntegralJ0minus1: ∫ sec θ dθ over [t0, tf]. */
  function IntegralJ0minus1(a: Antiderivatives, t0: real, tf: real): real
  {
    a.logSecPlusTan(tf) - a.logSecPlusTan(t0)
  }

  /** CalcIntegralJ1minus2: ∫ sec θ tan θ dθ over [t0, tf]. */
  function IntegralJ1minus2(a: Antiderivatives, t0: real, tf: real): real
  {
    a.secant(tf) - a.secant(t0)
  }

  /** CalcIntegralJ00: ∫ 1 dθ over [t0, tf]. */
  function IntegralJ00(t0: real, tf: real): real
  {
    tf - t0
  }

  /** The guard both shaped integrals use: |α − 0| below the tolerance. */
  predicate NearZeroShape(alpha: real)
  {
    Abs(alpha - 0.0) < Tol
  }

  /** CalcIntegralI0minus1P1: the degenerate formula J(−1,0) near α = 0, the
      shaped antiderivative difference otherwise. */
  function IntegralI0minus1P1(a: Antiderivatives, t0: real, tf: real, alpha: real): real
  {
    if NearZeroShape(alpha) then IntegralJ0minus1(a, t0, tf)
    else a.i0minus1P1(tf, alpha) - a.i0minus1P1(t0, alpha)
  }

  /** CalcIntegralI1minus2P1: the degenerate formula J(1,−2) near α = 0, the
      shaped antiderivative difference otherwise. */
  function IntegralI1minus2P1(a: Antiderivatives, t0: real, tf: real, alpha: real): real
  {
    if NearZeroShape(alpha) then IntegralJ1minus2(a, t0, tf)
    else a.i1minus2P1(tf, alpha) - a.i1minus2P1(t0, alpha)
  }

  /** The guard is a symmetric band of half-width Tol around zero that contains zero. */
  lemma NearZeroShapeBand(alpha: real)
    ensures NearZeroShape(alpha) <==> -Tol < alpha < Tol
    ensures NearZeroShape(alpha) <==> NearZeroShape(-alpha)
    ensures NearZeroShape(0.0)
  {
  }

  /** J(−1,0) and J(1,−2) behave as integrals over angular intervals: they vanish
      on an empty interval, change sign when the interval is reversed and add up
      over adjacent intervals. */
  lemma AngularIntegralsProperties(a: Antiderivatives, t0: real, t1: real, tf: real)
    ensures IntegralJ0minus1(a, t0, t0) == 0.0 && IntegralJ1minus2(a, t0, t0) == 0.0
    ensures IntegralJ0minus1(a, tf, t0) == -IntegralJ0minus1(a, t0, tf)
    ensures IntegralJ1minus2(a, tf, t0) == -IntegralJ1minus2(a, t0, tf)
    ensures IntegralJ0minus1(a, t0, t1) + IntegralJ0minus1(a, t1, tf) == IntegralJ0minus1(a, t0, tf)
    ensures IntegralJ1minus2(a, t0, t1) + IntegralJ1minus2(a, t1, tf) == IntegralJ1minus2(a, t0, tf)
  {
  }

  lemma IntegralJ00Properties(t0: real, t1: real, tf: real)
    ensures IntegralJ00(t0, t0) == 0.0
    ensures IntegralJ00(tf, t0) == -IntegralJ00(t0, tf)
    ensures IntegralJ00(t0, t1) + IntegralJ00(t1, tf) == IntegralJ00(t0, tf)
  {
  }

  /** Inside the guard band both shaped integrals return exactly the degenerate formula. */
  lemma ShapedIntegralsNearZero(a: Antiderivatives, t0: real, tf: real, alpha: real)
    requires Abs(alpha) < Tol
    ensures IntegralI0minus1P1(a, t0, tf, alpha) == IntegralJ0minus1(a, t0, tf)
    ensures IntegralI1minus2P1(a, t0, tf, alpha) == IntegralJ1minus2(a, t0, tf)
  {
  }

  /** Outside the band the degenerate formula plays no part. */
  lemma ShapedIntegralsAwayFromZero(a: Antiderivatives, t0: real, tf: real, alpha: real)
    requires Abs(alpha) >= Tol
    ensures IntegralI0minus1P1(a, t0, tf, alpha) == a.i0minus1P1(tf, alpha) - a.i0minus1P1(t0, alpha)
    ensures IntegralI1minus2P1(a, t0, tf, alpha) == a.i1minus2P1(tf, alpha) - a.i1minus2P1(t0, alpha)
  {
  }

  /** Outside the band the degenerate formulas play no part: two sets of
      antiderivatives that agree on the shaped ones give the same integrals,
      whatever their sec θ and ln|sec θ + tan θ|. */
  lemma ShapedIntegralsIgnoreDegenerateAwayFromZero(a: Antiderivatives, b: Antiderivatives,
                                                    t0: real, tf: real, alpha: real)
    requires Abs(alpha) >= Tol
    requires a.i0minus1P1 == b.i0minus1P1 && a.i1minus2P1 == b.i1minus2P1
    ensures IntegralI0minus1P1(a, t0, tf, alpha) == IntegralI0minus1P1(b, t0, tf, alpha)
    ensures IntegralI1minus2P1(a, t0, tf, alpha) == IntegralI1minus2P1(b, t0, tf, alpha)
  {
  }

  /** Within the band the shaped integrals do not depend on α at all. */
  lemma ShapedIntegralsConstantInBand(a: Antiderivatives, t0: real, tf: real, alpha: real, beta: real)
    requires Abs(alpha) < Tol && Abs(beta) < Tol
    ensures IntegralI0minus1P1(a, t0, tf, alpha) == IntegralI0minus1P1(a, t0, tf, beta)
    ensures IntegralI1minus2P1(a, t0, tf, alpha) == IntegralI1minus2P1(a, t0, tf, beta)
  {
  }

  /** Whichever branch is taken, the shaped integrals behave as integrals over
      angular intervals: reversing the interval negates them and adjacent
      intervals add up. */
  lemma ShapedIntegralsAdditive(a: Antiderivatives, t0: real, t1: real, tf: real, alpha: real)
    ensures IntegralI0minus1P1(a, tf, t0, alpha) == -IntegralI0minus1P1(a, t0, tf, alpha)
    ensures IntegralI1minus2P1(a, tf, t0, alpha) == -IntegralI1minus2P1(a, t0, tf, alpha)
    ensures IntegralI0minus1P1(a, t0, t1, alpha) + IntegralI0minus1P1(a, t1, tf, alpha)
         == IntegralI0minus1P1(a, t0, tf, alpha)
    ensures IntegralI1minus2P1(a, t0, t1, alpha) + IntegralI1minus2P1(a, t1, tf, alpha)
         == IntegralI1minus2P1(a, t0, tf, alpha)
  {
  }
}
