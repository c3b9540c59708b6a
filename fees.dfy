/**
  Fee arithmetic of a blockchain policy: `BlockchainPolicy.generate_policy_parameters`
  and `BlockchainPolicy._validate_fee_value`. Amounts are wei, as unbounded integers.
  `value` and `rate` are optional (`None` in Python), and the checks keep Python's
  truthiness: `bool(None)` and `bool(0)` are false.
*/
module Fees {
  import opened Wrappers
  import opened Arith

  /** Why `generate_policy_parameters` raised `InvalidPolicyValue`. */
  datatype Rejection =
    | NegativeParameter
    | RateOrValueRequired
    | ValueNotDivisibleByN
    | ValueNotDivisibleByPeriods

  datatype FeeError =
    | InvalidPolicyValue(reason: Rejection)
      /** Python's `ZeroDivisionError`, raised by `//` when `n` or the period count is zero. */
    | ZeroDivision
      /** The plain `ValueError` raised by `_validate_fee_value`. */
    | InvalidFeeValue

  /** The `dict(rate=..., value=...)` returned on success. */
  datatype PolicyParameters = PolicyParameters(rate: int, value: int)

  /** Python's `bool(x)` for an optional integer. */
  predicate Truthy(x: Option<int>)
  {
    x.Some? && x.value != 0
  }

  /** Python's `x == 0`, which is false for `None`. */
  predicate IsZero(x: Option<int>)
  {
    x == Some(0)
  }

  predicate IsNegative(x: Option<int>)
  {
    x.Some? && x.value < 0
  }

  predicate AnyNegative(n: int, paymentPeriods: int, value: Option<int>, rate: Option<int>)
  {
    n < 0 || paymentPeriods < 0 || IsNegative(value) || IsNegative(rate)
  }

  /** `bool(value) ^ bool(rate)`, with the escape that lets a zero value or a zero rate through. */
  predicate FeeSpecified(value: Option<int>, rate: Option<int>)
  {
    Truthy(value) != Truthy(rate) || IsZero(value) || IsZero(rate)
  }

  /** Python's `a // b`: the quotient rounded towards negative infinity. */
  function FloorDiv(a: int, b: int): (q: int)
    requires b != 0
    ensures b > 0 ==> b * q <= a < b * q + b
    ensures b < 0 ==> b * q >= a > b * q + b
  {
    if b > 0 then a / b else (-a) / (-b)
  }

  /**
    `generate_policy_parameters(n, payment_periods, value, rate)`. When `value` is given, any
    supplied `rate` is discarded and recomputed from `value`. In the `value` branch both
    operands of each `//` are non-negative, so Dafny's division agrees with Python's there.
  */
  function GeneratePolicyParameters(n: int, paymentPeriods: int, value: Option<int>, rate: Option<int>)
    : (r: Result<PolicyParameters, FeeError>)
    ensures r.Ok? ==> !AnyNegative(n, paymentPeriods, value, rate) && FeeSpecified(value, rate)
    ensures r.Ok? && value.Some? ==> r.value.value == value.value
    ensures r == Err(ZeroDivision) ==> value.Some? && (n == 0 || paymentPeriods == 0)
  {
    if AnyNegative(n, paymentPeriods, value, rate) then
      Err(InvalidPolicyValue(NegativeParameter))
    else if !FeeSpecified(value, rate) then
      Err(InvalidPolicyValue(RateOrValueRequired))
    else
      match value
      case None =>
        Ok(PolicyParameters(rate.value, rate.value * paymentPeriods * n))
      case Some(v) =>
        if n == 0 then Err(ZeroDivision)
        else
          var valuePerNode := v / n;
          if valuePerNode * n != v then Err(InvalidPolicyValue(ValueNotDivisibleByN))
          else if paymentPeriods == 0 then Err(ZeroDivision)
          else
            var ratePerPeriod := valuePerNode / paymentPeriods;
            if ratePerPeriod * paymentPeriods != valuePerNode then
              Err(InvalidPolicyValue(ValueNotDivisibleByPeriods))
            else
              Ok(PolicyParameters(ratePerPeriod, v))
  }

  /**
    `_validate_fee_value`: recompute the value from the per-period rate and compare.
    `n` is `len(kfrags)`; the period count is not checked for sign here.
  */
  function ValidateFeeValue(value: int, n: nat, paymentPeriods: int): (r: Outcome<FeeError>)
    ensures r == Fail(ZeroDivision) <==> n == 0 || paymentPeriods == 0
    ensures r.Fail? ==> r.error == ZeroDivision || r.error == InvalidFeeValue
  {
    if n == 0 || paymentPeriods == 0 then Fail(ZeroDivision)
    else
      var ratePerPeriod := FloorDiv(FloorDiv(value, n), paymentPeriods);
      var recalculatedValue := paymentPeriods * ratePerPeriod * n;
      if recalculatedValue != value then Fail(InvalidFeeValue) else Pass
  }

  // ---------------------------------------------------------------------------
  // Properties of generate_policy_parameters

  /** A negative parameter is refused, and that is the only cause of `NegativeParameter`. */
  lemma NegativeParametersRejected(n: int, paymentPeriods: int, value: Option<int>, rate: Option<int>)
    ensures GeneratePolicyParameters(n, paymentPeriods, value, rate) == Err(InvalidPolicyValue(NegativeParameter))
        <==> (n < 0 || paymentPeriods < 0 || (value.Some? && value.value < 0) || (rate.Some? && rate.value < 0))
  {
  }

  /**
    Exactly one of `value` and `rate` must be given and non-zero, except that a zero
    `value` or a zero `rate` always passes: the request is refused exactly when both are
    missing or both are given and non-zero.
  */
  lemma ExactlyOneFeeRequired(n: int, paymentPeriods: int, value: Option<int>, rate: Option<int>)
    requires !AnyNegative(n, paymentPeriods, value, rate)
    ensures GeneratePolicyParameters(n, paymentPeriods, value, rate) == Err(InvalidPolicyValue(RateOrValueRequired))
        <==> ((value.None? && rate.None?) || (value.Some? && rate.Some? && value.value != 0 && rate.value != 0))
  {
  }

  /** Every successful result satisfies `value == rate * payment_periods * n`, with both non-negative. */
  lemma ParametersConsistent(n: int, paymentPeriods: int, value: Option<int>, rate: Option<int>)
    requires GeneratePolicyParameters(n, paymentPeriods, value, rate).Ok?
    ensures var p := GeneratePolicyParameters(n, paymentPeriods, value, rate).value;
      p.value == p.rate * paymentPeriods * n && 0 <= p.rate && 0 <= p.value
  {
    var p := GeneratePolicyParameters(n, paymentPeriods, value, rate).value;
    match value
    case None =>
      NonNegativeProduct(rate.value, paymentPeriods, n);
    case Some(v) =>
      var valuePerNode := v / n;
      assert valuePerNode * n == v;
      var ratePerPeriod := valuePerNode / paymentPeriods;
      assert ratePerPeriod * paymentPeriods == valuePerNode;
      assert p == PolicyParameters(ratePerPeriod, v);
      assert 0 <= valuePerNode;
      assert 0 <= ratePerPeriod;
  }

  /** Given only a rate, the value is `rate * payment_periods * n`. */
  lemma RateGivesValue(n: int, paymentPeriods: int, rate: int)
    requires n >= 0 && paymentPeriods >= 0 && rate >= 0
    ensures GeneratePolicyParameters(n, paymentPeriods, None, Some(rate))
         == Ok(PolicyParameters(rate, rate * paymentPeriods * n))
  {
  }

  /** Feeding the value derived from a rate back in recovers that rate, with no error. */
  lemma RateRoundTrip(n: int, paymentPeriods: int, rate: int)
    requires n > 0 && paymentPeriods > 0 && rate >= 0
    ensures var value := GeneratePolicyParameters(n, paymentPeriods, None, Some(rate)).value.value;
      GeneratePolicyParameters(n, paymentPeriods, Some(value), None) == Ok(PolicyParameters(rate, value))
  {
    var value := rate * paymentPeriods * n;
    NonNegativeProduct(rate, paymentPeriods, n);
    assert value == n * (rate * paymentPeriods) + 0;
    DivModUnique(value, n, rate * paymentPeriods, 0);
    DivModUnique(rate * paymentPeriods, paymentPeriods, rate, 0);
  }

  /** A supplied `value` wins: the `rate` that got past the exclusivity check is ignored. */
  lemma ValueOverridesRate(n: int, paymentPeriods: int, value: int, rate: int)
    requires rate >= 0
    ensures GeneratePolicyParameters(n, paymentPeriods, Some(value), Some(0))
         == GeneratePolicyParameters(n, paymentPeriods, Some(value), None)
    ensures GeneratePolicyParameters(n, paymentPeriods, Some(0), Some(rate))
         == GeneratePolicyParameters(n, paymentPeriods, Some(0), None)
  {
  }

  /**
    With `n` and the period count positive, a given `value` is accepted exactly when it splits
    evenly into `n` payments per period for every period; a remainder after the split into
    `n` shares is reported as such.
  */
  lemma ValueMustSplitEvenly(n: int, paymentPeriods: int, value: int, rate: Option<int>)
    requires n > 0 && paymentPeriods > 0 && value >= 0 && !IsNegative(rate)
    requires FeeSpecified(Some(value), rate)
    ensures GeneratePolicyParameters(n, paymentPeriods, Some(value), rate) == Err(InvalidPolicyValue(ValueNotDivisibleByN))
        <==> value % n != 0
    ensures GeneratePolicyParameters(n, paymentPeriods, Some(value), rate).Ok?
        <==> value % (n * paymentPeriods) == 0
  {
    var r := GeneratePolicyParameters(n, paymentPeriods, Some(value), rate);
    var valuePerNode := value / n;
    assert value == n * valuePerNode + value % n;
    if value % n == 0 {
      assert valuePerNode * n == value;
    } else {
      assert valuePerNode * n != value;
    }
    if r.Ok? {
      ParametersConsistent(n, paymentPeriods, Some(value), rate);
      var p := r.value;
      assert value == (n * paymentPeriods) * p.rate + 0;
      DivModUnique(value, n * paymentPeriods, p.rate, 0);
    }
    if value % (n * paymentPeriods) == 0 {
      var k := value / (n * paymentPeriods);
      assert value == (n * paymentPeriods) * k;
      assert value == n * (paymentPeriods * k) + 0;
      DivModUnique(value, n, paymentPeriods * k, 0);
      DivModUnique(paymentPeriods * k, paymentPeriods, k, 0);
    }
  }

  // ---------------------------------------------------------------------------
  // Properties of _validate_fee_value

  /** With positive `n` and period count, the recomputation check accepts exactly the multiples of `n * payment_periods`. */
  lemma ValidateAcceptsExactMultiples(value: int, n: nat, paymentPeriods: int)
    requires n > 0 && paymentPeriods > 0
    ensures ValidateFeeValue(value, n, paymentPeriods) == Pass <==> value % (n * paymentPeriods) == 0
  {
    var ratePerPeriod := FloorDiv(FloorDiv(value, n), paymentPeriods);
    assert ratePerPeriod == value / n / paymentPeriods;
    if paymentPeriods * ratePerPeriod * n == value {
      assert value == (n * paymentPeriods) * ratePerPeriod + 0;
      DivModUnique(value, n * paymentPeriods, ratePerPeriod, 0);
    }
    if value % (n * paymentPeriods) == 0 {
      var k := value / (n * paymentPeriods);
      assert value == (n * paymentPeriods) * k;
      assert value == n * (paymentPeriods * k) + 0;
      DivModUnique(value, n, paymentPeriods * k, 0);
      DivModUnique(paymentPeriods * k, paymentPeriods, k, 0);
      assert paymentPeriods * k * n == value;
    }
  }

  /** A zero share count or a zero period count divides by zero. */
  lemma ValidateDividesByZero(value: int, n: nat, paymentPeriods: int)
    requires n == 0 || paymentPeriods == 0
    ensures ValidateFeeValue(value, n, paymentPeriods) == Fail(ZeroDivision)
  {
  }

  /**
    The two-step check of `generate_policy_parameters` and the recomputation check of
    `_validate_fee_value` accept the same values.
  */
  lemma GenerateAgreesWithValidate(n: nat, paymentPeriods: int, value: int, rate: Option<int>)
    requires n > 0 && paymentPeriods > 0 && value >= 0 && !IsNegative(rate)
    requires FeeSpecified(Some(value), rate)
    ensures GeneratePolicyParameters(n, paymentPeriods, Some(value), rate).Ok?
        <==> ValidateFeeValue(value, n, paymentPeriods) == Pass
  {
    ValueMustSplitEvenly(n, paymentPeriods, value, rate);
    ValidateAcceptsExactMultiples(value, n, paymentPeriods);
  }

  /** Parameters produced by `generate_policy_parameters` pass the constructor's fee check. */
  lemma GeneratedParametersValidate(n: nat, paymentPeriods: int, value: Option<int>, rate: Option<int>)
    requires n > 0 && paymentPeriods > 0
    requires GeneratePolicyParameters(n, paymentPeriods, value, rate).Ok?
    ensures var p := GeneratePolicyParameters(n, paymentPeriods, value, rate).value;
      ValidateFeeValue(p.value, n, paymentPeriods) == Pass
  {
    var p := GeneratePolicyParameters(n, paymentPeriods, value, rate).value;
    ParametersConsistent(n, paymentPeriods, value, rate);
    assert p.value == (n * paymentPeriods) * p.rate + 0;
    DivModUnique(p.value, n * paymentPeriods, p.rate, 0);
    ValidateAcceptsExactMultiples(p.value, n, paymentPeriods);
  }

  /**
    With only a rate, a zero `n` or a zero period count is accepted and gives a zero value,
    but the constructor's check of that value then divides by zero.
  */
  lemma ZeroCountRateOnlyFailsValidation(n: nat, paymentPeriods: int, rate: int)
    requires paymentPeriods >= 0 && rate >= 0 && (n == 0 || paymentPeriods == 0)
    ensures GeneratePolicyParameters(n, paymentPeriods, None, Some(rate)) == Ok(PolicyParameters(rate, 0))
    ensures ValidateFeeValue(0, n, paymentPeriods) == Fail(ZeroDivision)
  {
    assert rate * paymentPeriods * n == 0;
  }
}
