/** The currency conversion engine (`CurrencyConverter.ConvertAsync`) and its
    result record (`ConversionResult`). The exchange-rate provider is a function
    parameter, as in the test double that wraps a delegate. */
module Conversion {
  import opened Results
  import opened Exceptions
  import opened Text
  import opened Calendar
  import opened ValueObjects
  import Constants
  import Guard

  /** What a provider answers: the rate's own date, the rate, and the currency code. */
  datatype ExchangeRateResult = ExchangeRateResult(rateDate: DateOnly, rate: real, currency: string)

  /** `IExchangeRateProvider.GetRateAsync(currency, date)`. */
  type RateProvider = (string, DateOnly) -> Outcome<ExchangeRateResult>

  datatype ConversionResult = ConversionResult(
    originalAmountUsd: real,
    targetCurrency: string,
    exchangeRate: real,
    rateDate: DateOnly,
    convertedAmount: real)
  {
    /** The target is the base currency, compared ordinally ignoring case; the
        flag depends on nothing but the target code. */
    function IsBaseCurrency(): (b: bool)
      ensures b <==> ToUpper(targetCurrency) == Constants.BaseCurrency
    {
      EqualsIgnoreCaseIffUpperEqual(targetCurrency, Constants.BaseCurrency);
      assert ToUpper(Constants.BaseCurrency) == Constants.BaseCurrency;
      EqualsIgnoreCase(targetCurrency, Constants.BaseCurrency)
    }
  }

  /** `Math.Round(amountUsd * rate, 2, MidpointRounding.AwayFromZero)`. */
  function ConvertAmount(amountUsd: real, rate: real): (c: real)
    ensures IsCents(c) && -0.005 <= c - amountUsd * rate <= 0.005
  {
    Round(amountUsd * rate)
  }

  /** The normal form of a currency code: trimmed, then upper-cased. */
  function NormalizeCode(code: string): (n: string)
    ensures ToUpper(n) == n
  {
    ToUpperIdempotent(Trim(code));
    ToUpper(Trim(code))
  }

  /** `ConvertAsync(amountUsd, targetCurrency, asOfDate)`. A blank target fails
      before anything else; a zero amount converts to zero in any currency; a
      base-currency target converts at rate 1; only otherwise is the provider
      asked, once, for the normalised code and `asOfDate`, and its error, if
      any, is passed on unchanged. */
  function Convert(amountUsd: real, targetCurrency: Option<string>, asOfDate: DateOnly, provider: RateProvider)
    : (r: Outcome<ConversionResult>)
    ensures IsNullOrWhiteSpace(targetCurrency) ==> r == Err(DomainError("Currency is required."))
    ensures !IsNullOrWhiteSpace(targetCurrency) && amountUsd == 0.0 ==>
              r == Ok(ConversionResult(0.0, NormalizeCode(targetCurrency.value), 1.0, asOfDate, 0.0))
    ensures !IsNullOrWhiteSpace(targetCurrency) && amountUsd != 0.0
              && NormalizeCode(targetCurrency.value) == Constants.BaseCurrency ==>
              r == Ok(ConversionResult(amountUsd, Constants.BaseCurrency, 1.0, asOfDate, Round(amountUsd)))
    ensures !IsNullOrWhiteSpace(targetCurrency) && amountUsd != 0.0
              && NormalizeCode(targetCurrency.value) != Constants.BaseCurrency ==>
              var answer := provider(NormalizeCode(targetCurrency.value), asOfDate);
              && (answer.Err? ==> r == Err(answer.error))
              && (answer.Ok? ==> r.Ok? && r.value.targetCurrency == answer.value.currency
                                 && r.value.exchangeRate == answer.value.rate
                                 && r.value.rateDate == answer.value.rateDate)
    // Whatever the branch, the converted amount is the rounded product of the
    // original amount and the reported rate, and the original amount is the input.
    ensures r.Ok? ==> r.value.originalAmountUsd == amountUsd
    ensures r.Ok? ==> r.value.convertedAmount == ConvertAmount(r.value.originalAmountUsd, r.value.exchangeRate)
  {
    assert "Currency" + " is required." == "Currency is required.";
    var present :- Guard.NotNullOrWhiteSpace(targetCurrency, "Currency");
    ConvertNormalized(amountUsd, NormalizeCode(present), asOfDate, provider)
  }

  /** The branches of `ConvertAsync` that follow the currency guard, on the
      normalised code. */
  function ConvertNormalized(amountUsd: real, normalized: string, asOfDate: DateOnly, provider: RateProvider)
    : (r: Outcome<ConversionResult>)
    requires ToUpper(normalized) == normalized
    ensures amountUsd == 0.0 ==> r == Ok(ConversionResult(0.0, normalized, 1.0, asOfDate, 0.0))
    ensures amountUsd != 0.0 && normalized == Constants.BaseCurrency ==>
              r == Ok(ConversionResult(amountUsd, Constants.BaseCurrency, 1.0, asOfDate, Round(amountUsd)))
    ensures amountUsd != 0.0 && normalized != Constants.BaseCurrency ==>
              var answer := provider(normalized, asOfDate);
              && (answer.Err? ==> r == Err(answer.error))
              && (answer.Ok? ==> r.Ok? && r.value.targetCurrency == answer.value.currency
                                 && r.value.exchangeRate == answer.value.rate
                                 && r.value.rateDate == answer.value.rateDate)
    ensures r.Ok? ==> r.value.originalAmountUsd == amountUsd
    ensures r.Ok? ==> r.value.convertedAmount == ConvertAmount(r.value.originalAmountUsd, r.value.exchangeRate)
  {
    if amountUsd == 0.0 then
      assert ConvertAmount(0.0, 1.0) == 0.0 by { assert 0.0 * 1.0 == 0.0; RoundFixesCents(0.0); }
      Ok(ConversionResult(0.0, normalized, 1.0, asOfDate, 0.0))
    else if IsBaseCode(normalized) then
      assert ConvertAmount(amountUsd, 1.0) == Round(amountUsd) by { assert amountUsd * 1.0 == amountUsd; }
      Ok(ConversionResult(amountUsd, Constants.BaseCurrency, 1.0, asOfDate, Round(amountUsd)))
    else
      var answer :- provider(normalized, asOfDate);
      Ok(ConversionResult(amountUsd, answer.currency, answer.rate, answer.rateDate, ConvertAmount(amountUsd, answer.rate)))
  }

  /** `string.Equals(code, "USD", OrdinalIgnoreCase)` on an already upper-cased code. */
  function IsBaseCode(normalized: string): (b: bool)
    ensures b <==> ToUpper(normalized) == Constants.BaseCurrency
  {
    EqualsIgnoreCaseIffUpperEqual(normalized, Constants.BaseCurrency);
    assert ToUpper(Constants.BaseCurrency) == Constants.BaseCurrency;
    EqualsIgnoreCase(normalized, Constants.BaseCurrency)
  }

  /** A zero amount or a base-currency target never consults the provider:
      any two providers give the same answer. */
  lemma ShortCircuitIgnoresProvider(amountUsd: real, targetCurrency: Option<string>, asOfDate: DateOnly,
                                    p1: RateProvider, p2: RateProvider)
    requires IsNullOrWhiteSpace(targetCurrency) || amountUsd == 0.0
             || NormalizeCode(targetCurrency.value) == Constants.BaseCurrency
    ensures Convert(amountUsd, targetCurrency, asOfDate, p1) == Convert(amountUsd, targetCurrency, asOfDate, p2)
  {
  }

  /** Otherwise the provider is asked only about the normalised code on
      `asOfDate`: two providers that agree there give the same conversion. */
  lemma ConvertDependsOnOneQuestion(amountUsd: real, targetCurrency: Option<string>, asOfDate: DateOnly,
                                    p1: RateProvider, p2: RateProvider)
    requires !IsNullOrWhiteSpace(targetCurrency)
    requires p1(NormalizeCode(targetCurrency.value), asOfDate) == p2(NormalizeCode(targetCurrency.value), asOfDate)
    ensures Convert(amountUsd, targetCurrency, asOfDate, p1) == Convert(amountUsd, targetCurrency, asOfDate, p2)
  {
  }

  /** The converted amount is a whole number of cents within half a cent of
      the exact product of the original amount and the rate. */
  lemma ConvertedIsRoundedProduct(amountUsd: real, targetCurrency: Option<string>, asOfDate: DateOnly,
                                  provider: RateProvider)
    requires Convert(amountUsd, targetCurrency, asOfDate, provider).Ok?
    ensures var c := Convert(amountUsd, targetCurrency, asOfDate, provider).value;
              && IsCents(c.convertedAmount)
              && -0.005 <= c.convertedAmount - amountUsd * c.exchangeRate <= 0.005
  {
    RoundedProductOf(Convert(amountUsd, targetCurrency, asOfDate, provider).value);
  }

  lemma RoundedProductOf(c: ConversionResult)
    requires c.convertedAmount == ConvertAmount(c.originalAmountUsd, c.exchangeRate)
    ensures IsCents(c.convertedAmount) && -0.005 <= c.convertedAmount - c.originalAmountUsd * c.exchangeRate <= 0.005
  {
  }

  /** A provider that answers every question with `rate` on 2024-01-15, echoing
      the upper-cased code. */
  function FixedRate(rate: real): RateProvider {
    (code: string, date: DateOnly) => Ok(ExchangeRateResult(Date(2024, 1, 15), rate, ToUpper(code)))
  }

  /** A code without padding normalises to its upper-cased form, and is not blank. */
  lemma NormalizeOfCode(c: string, u: string)
    requires c != [] && !IsWhiteSpace(c[0]) && !IsWhiteSpace(c[|c| - 1])
    requires |u| == |c| && forall i :: 0 <= i < |c| ==> u[i] == UpperChar(c[i])
    ensures NormalizeCode(c) == u && !IsNullOrWhiteSpace(Some(c))
  {
    TrimOfUnpadded(c);
    assert ToUpper(c) == u;
  }

  /** A non-zero amount to a code that normalises to the base currency converts
      at rate 1 to the rounded amount, whatever the provider. */
  lemma ConvertOfBase(amountUsd: real, code: string, asOfDate: DateOnly, provider: RateProvider)
    requires !IsNullOrWhiteSpace(Some(code)) && amountUsd != 0.0
    requires NormalizeCode(code) == Constants.BaseCurrency
    ensures Convert(amountUsd, Some(code), asOfDate, provider)
              == Ok(ConversionResult(amountUsd, Constants.BaseCurrency, 1.0, asOfDate, Round(amountUsd)))
  {
  }

  /** A non-zero amount to a foreign code under `FixedRate` is converted at that
      rate, reported under the normalised code. */
  lemma ConvertAtFixedRate(amountUsd: real, code: string, asOfDate: DateOnly, rate: real)
    requires !IsNullOrWhiteSpace(Some(code)) && amountUsd != 0.0
    requires NormalizeCode(code) != Constants.BaseCurrency
    ensures Convert(amountUsd, Some(code), asOfDate, FixedRate(rate))
              == Ok(ConversionResult(amountUsd, NormalizeCode(code), rate, Date(2024, 1, 15), ConvertAmount(amountUsd, rate)))
  {
    var r := Convert(amountUsd, Some(code), asOfDate, FixedRate(rate));
    assert FixedRate(rate)(NormalizeCode(code), asOfDate).value.currency == NormalizeCode(code);
    assert r.Ok?;
  }

  /** 100 USD to "usd" is a base conversion at rate 1, whatever the provider. */
  lemma ConvertBaseExample()
    ensures Convert(100.0, Some("usd"), Date(2024, 1, 15), FixedRate(1.25))
              == Ok(ConversionResult(100.0, "USD", 1.0, Date(2024, 1, 15), 100.0))
  {
    NormalizeOfCode("usd", "USD");
    ConvertOfBase(100.0, "usd", Date(2024, 1, 15), FixedRate(1.25));
    RoundFixesCents(100.0);
  }

  /** 100 USD to "eur" at 1.25 is 125 EUR, reported under the provider's code. */
  lemma ConvertForeignExample()
    ensures Convert(100.0, Some("eur"), Date(2024, 1, 15), FixedRate(1.25))
              == Ok(ConversionResult(100.0, "EUR", 1.25, Date(2024, 1, 15), 125.0))
  {
    NormalizeOfCode("eur", "EUR");
    ConvertAtFixedRate(100.0, "eur", Date(2024, 1, 15), 1.25);
    assert ConvertAmount(100.0, 1.25) == 125.0 by { assert 100.0 * 1.25 == 125.0; RoundFixesCents(125.0); }
  }

  /** 100 USD to "gbp" at 1.333 is 133.30 GBP. */
  lemma ConvertRoundsExample()
    ensures Convert(100.0, Some("gbp"), Date(2024, 1, 15), FixedRate(1.333))
              == Ok(ConversionResult(100.0, "GBP", 1.333, Date(2024, 1, 15), 133.30))
  {
    NormalizeOfCode("gbp", "GBP");
    ConvertAtFixedRate(100.0, "gbp", Date(2024, 1, 15), 1.333);
    GbpAmount();
  }

  lemma GbpAmount()
    ensures ConvertAmount(100.0, 1.333) == 133.30
  {
    assert 100.0 * 1.333 == 133.3;
    RoundFixesCents(133.3);
  }

  /** Zero converts to zero under the target code, without a rate lookup. */
  lemma ConvertZeroExample()
    ensures Convert(0.0, Some("EUR"), Date(2024, 1, 15), FixedRate(1.25))
              == Ok(ConversionResult(0.0, "EUR", 1.0, Date(2024, 1, 15), 0.0))
  {
    NormalizeOfCode("EUR", "EUR");
  }

  /** A blank or missing code is refused before anything else. */
  lemma ConvertBlankExample()
    ensures Convert(100.0, Some("   "), Date(2024, 1, 15), FixedRate(1.25)) == Err(DomainError("Currency is required."))
    ensures Convert(100.0, None, Date(2024, 1, 15), FixedRate(1.25)) == Err(DomainError("Currency is required."))
  {
    assert IsBlank("   ");
  }

  /** `IsBaseCurrency` holds exactly for a target that upper-cases to "USD", so
      for "usd" and not for "EUR". */
  lemma IsBaseCurrencyExamples()
    ensures ConversionResult(100.0, "usd", 1.0, Date(2024, 1, 15), 100.0).IsBaseCurrency()
    ensures !ConversionResult(100.0, "EUR", 1.25, Date(2024, 1, 15), 125.0).IsBaseCurrency()
  {
    assert ToUpper("EUR")[0] == 'E';
  }
}
