/** `Money`: an amount rounded to cents together with an upper-cased currency code. */
module ValueObjects {
  import opened Results
  import opened Exceptions
  import opened Text
  import Constants
  import Guard

  datatype Money = Money(amount: real, currency: string)

  const AmountNotPositive: string := "Amount must be a positive value."

  /** `x` is a whole number of cents (a multiple of 0.01). */
  predicate IsCents(x: real) {
    (x * 100.0).Floor as real == x * 100.0
  }

  function Abs(x: real): real {
    if x < 0.0 then -x else x
  }

  /** The independent description of rounding to two decimal places with
      midpoints away from zero: `r` is a whole number of cents within half a
      cent of `x`, and on a tie it is the candidate farther from zero. */
  predicate IsHalfAwayRounding(x: real, r: real) {
    && IsCents(r)
    && -0.005 <= r - x <= 0.005
    && ((r - x == 0.005 || x - r == 0.005) ==> Abs(r) > Abs(x))
  }

  /** Number of cents in a non-negative amount, rounding a half cent up. */
  function CentsHalfUp(m: real): (n: int)
    requires m >= 0.0
    ensures n >= 0
    ensures n as real - 0.5 <= m * 100.0 < n as real + 0.5
  {
    (m * 100.0 + 0.5).Floor
  }

  /** `Math.Round(amount, 2, MidpointRounding.AwayFromZero)`. */
  function Round(amount: real): (r: real)
    ensures IsCents(r)
    ensures -0.005 <= r - amount <= 0.005
    ensures amount >= 0.0 ==> r >= 0.0
    ensures amount <= 0.0 ==> r <= 0.0
  {
    if amount >= 0.0 then
      var n := CentsHalfUp(amount);
      CentsAreCents(n);
      n as real / 100.0
    else
      var n := CentsHalfUp(-amount);
      CentsAreCents(-n);
      -(n as real / 100.0)
  }

  lemma CentsAreCents(n: int)
    ensures IsCents(n as real / 100.0)
  {
    assert n as real / 100.0 * 100.0 == n as real;
  }

  /** `Round` meets the half-away-from-zero description. */
  lemma RoundIsHalfAway(x: real)
    ensures IsHalfAwayRounding(x, Round(x))
  {
    var n := if x >= 0.0 then CentsHalfUp(x) else CentsHalfUp(-x);
    assert Abs(Round(x)) == n as real / 100.0;
  }

  /** Any whole-cent value meeting the description is `Round(x)`: the two
      definitions agree on every input. */
  lemma HalfAwayRoundingIsRound(x: real, c: real)
    requires IsHalfAwayRounding(x, c)
    ensures c == Round(x)
  {
    RoundIsHalfAway(x);
    var r := Round(x);
    var a := (c * 100.0).Floor;
    var b := (r * 100.0).Floor;
    assert -1 <= a - b <= 1;
    assert a == b;
  }

  /** Both directions: `c` is the half-away-from-zero rounding of `x` exactly when `c == Round(x)`. */
  lemma RoundCharacterised(x: real, c: real)
    ensures IsHalfAwayRounding(x, c) <==> c == Round(x)
  {
    RoundIsHalfAway(x);
    if IsHalfAwayRounding(x, c) {
      HalfAwayRoundingIsRound(x, c);
    }
  }

  /** Rounding is symmetric about zero. */
  lemma RoundNegation(x: real)
    ensures Round(-x) == -Round(x)
  {
    if x == 0.0 {
    } else if x > 0.0 {
      assert Round(-x) == -(CentsHalfUp(x) as real / 100.0);
    } else {
      assert Round(x) == -(CentsHalfUp(-x) as real / 100.0);
    }
  }

  /** A whole number of cents is left alone, so rounding is idempotent. */
  lemma RoundFixesCents(x: real)
    requires IsCents(x)
    ensures Round(x) == x
  {
    var n := (x * 100.0).Floor;
    assert x == n as real / 100.0;
    if x >= 0.0 {
      assert CentsHalfUp(x) == n;
    } else {
      assert CentsHalfUp(-x) == -n;
    }
  }

  lemma RoundIdempotent(x: real)
    ensures Round(Round(x)) == Round(x)
  {
    RoundFixesCents(Round(x));
  }

  /** Rounding never reverses the order of two amounts. */
  lemma RoundMonotonic(x: real, y: real)
    requires x <= y
    ensures Round(x) <= Round(y)
  {
    if x >= 0.0 {
      assert CentsHalfUp(x) <= CentsHalfUp(y);
    } else if y <= 0.0 {
      assert CentsHalfUp(-y) <= CentsHalfUp(-x);
    }
  }

  /** Worked values, ties included: 10.555 rounds to 10.56 and -10.555 to -10.56. */
  lemma RoundExamples()
    ensures Round(10.555) == 10.56
    ensures Round(-10.555) == -10.56
    ensures Round(10.554) == 10.55
    ensures Round(0.005) == 0.01
    ensures Round(0.004) == 0.0
    ensures Round(133.3) == 133.30
  {
    assert CentsHalfUp(10.555) == 1056;
    assert CentsHalfUp(10.554) == 1055;
    assert CentsHalfUp(0.005) == 1;
    assert CentsHalfUp(0.004) == 0;
    assert CentsHalfUp(133.3) == 13330;
  }

  /** `Money.From`: the currency guard runs first, then the positivity check on
      the raw (unrounded) amount; the stored amount is rounded and the code upper-cased. */
  function From(amount: real, currency: Option<string>): (r: Outcome<Money>)
    ensures IsNullOrWhiteSpace(currency) ==> r == Err(DomainError("Currency is required."))
    ensures !IsNullOrWhiteSpace(currency) && amount <= 0.0 ==> r == Err(DomainError(AmountNotPositive))
    ensures r.Ok? <==> !IsNullOrWhiteSpace(currency) && amount > 0.0
    ensures r.Ok? ==> r.value.amount == Round(amount) && r.value.currency == ToUpper(currency.value)
  {
    assert "Currency" + " is required." == "Currency is required.";
    var code :- Guard.NotNullOrWhiteSpace(currency, "Currency");
    if amount <= 0.0 then Err(DomainError(AmountNotPositive))
    else Ok(Money(Round(amount), ToUpper(code)))
  }

  /** `Money.Usd`: money in the base currency. */
  function Usd(amount: real): (r: Outcome<Money>)
    ensures r.Ok? <==> amount > 0.0
    ensures r.Ok? ==> r.value == Money(Round(amount), Constants.BaseCurrency)
    ensures r.Err? ==> r.error == DomainError(AmountNotPositive)
  {
    assert !IsWhiteSpace(Constants.BaseCurrency[0]);
    From(amount, Some(Constants.BaseCurrency))
  }

  /** Every constructed `Money` holds a non-negative whole number of cents; it is
      zero exactly when the raw amount was below half a cent, because positivity
      is checked before rounding. */
  lemma FromAmountInvariant(amount: real, currency: Option<string>)
    requires From(amount, currency).Ok?
    ensures var m := From(amount, currency).value;
              IsCents(m.amount) && m.amount >= 0.0 && (m.amount == 0.0 <==> amount < 0.005)
  {
    if amount >= 0.005 {
      assert CentsHalfUp(amount) >= 1;
    }
  }

  /** 0.004 USD is accepted and stored as a zero amount. */
  lemma SubCentAmountBecomesZero()
    ensures Usd(0.004) == Ok(Money(0.0, "USD"))
  {
    RoundExamples();
  }

  /** `Money.Usd(10.555)` holds 10.56; `Money.Usd(0)` throws. */
  lemma UsdExamples()
    ensures Usd(10.555) == Ok(Money(10.56, "USD"))
    ensures Usd(0.0) == Err(DomainError(AmountNotPositive))
  {
    RoundExamples();
  }
}
