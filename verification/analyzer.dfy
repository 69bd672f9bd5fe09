/** The branch decision of `process`: is the host relatively wider than the
    parasite? The source divides the `u32` dimensions as `f64`; here each
    quotient is exact, with IEEE's +infinity and NaN for a zero divisor. */
module Analyzer {

  /** The value of `n as f64 / d as f64` for `u32` operands, without rounding. */
  datatype Quotient =
    | Finite(num: nat, den: nat)   // den > 0
    | PosInfinity                  // n > 0, d == 0
    | NotANumber                   // n == 0, d == 0

  function Quot(n: nat, d: nat): Quotient {
    if d > 0 then Finite(n, d) else if n > 0 then PosInfinity else NotANumber
  }

  /** The `>` of two quotients: every comparison with NaN is false,
      +infinity exceeds every finite value and not itself. */
  predicate Greater(p: Quotient, q: Quotient) {
    match (p, q)
    case (Finite(a, b), Finite(c, d)) =>
      b > 0 && d > 0 && (a as real) / (b as real) > (c as real) / (d as real)
    case (PosInfinity, Finite(_, _)) => true
    case _ => false
  }

  /** `thumbnail_option`: `hostx / hosty > parax / paray`. */
  predicate WideBranch(hostx: nat, hosty: nat, parax: nat, paray: nat) {
    Greater(Quot(hostx, hosty), Quot(parax, paray))
  }

  /** Comparing two positive-denominator fractions is comparing the
      cross products. */
  lemma RealQuotientCompare(a: nat, b: nat, c: nat, d: nat)
    requires b > 0 && d > 0
    ensures (a as real) / (b as real) > (c as real) / (d as real) <==> a * d > c * b
  {
    var p := (a as real) / (b as real);
    var q := (c as real) / (d as real);
    assert p * (b as real) == a as real;
    assert q * (d as real) == c as real;
    assert (a * d) as real == p * (b as real) * (d as real);
    assert (c * b) as real == q * (b as real) * (d as real);
    var bd := (b as real) * (d as real);
    assert bd > 0.0;
    assert p > q <==> p * bd > q * bd;
  }

  /** For non-degenerate images the branch is the exact integer test
      `hostx * paray > parax * hosty`. */
  lemma WideBranchIffCrossProduct(hostx: nat, hosty: nat, parax: nat, paray: nat)
    requires hosty > 0 && paray > 0
    ensures WideBranch(hostx, hosty, parax, paray) <==> hostx * paray > parax * hosty
  {
    RealQuotientCompare(hostx, hosty, parax, paray);
  }

  /** Equal aspect ratios take the height-anchored (`false`) branch. */
  lemma EqualRatiosTakeHeightBranch(hostx: nat, hosty: nat, parax: nat, paray: nat)
    requires hosty > 0 && paray > 0
    requires hostx * paray == parax * hosty
    ensures !WideBranch(hostx, hosty, parax, paray)
  {
    WideBranchIffCrossProduct(hostx, hosty, parax, paray);
  }

  /** The test is strict: at most one of two images is relatively wider
      than the other. */
  lemma WideBranchAsymmetric(hostx: nat, hosty: nat, parax: nat, paray: nat)
    ensures WideBranch(hostx, hosty, parax, paray) ==> !WideBranch(parax, paray, hostx, hosty)
  {
    if hosty > 0 && paray > 0 {
      RealQuotientCompare(hostx, hosty, parax, paray);
      RealQuotientCompare(parax, paray, hostx, hosty);
    }
  }

  /** The wide branch is never taken for a host of width zero, so its box
      formula never divides by zero; the other branch divides by `hosty`,
      which may be zero. */
  lemma WideBranchHasWideHost(hostx: nat, hosty: nat, parax: nat, paray: nat)
    requires WideBranch(hostx, hosty, parax, paray)
    ensures hostx > 0
    ensures paray > 0
  {
    if hosty > 0 && paray > 0 {
      RealQuotientCompare(hostx, hosty, parax, paray);
    }
  }
}
