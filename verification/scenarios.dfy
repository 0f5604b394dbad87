/** The service-level test scenarios: a single card, seeded directly into the
    store, with a limit of 100 USD, and a provider answering a fixed rate. */
module Scenarios {
  import opened Results
  import opened Exceptions
  import opened Text
  import opened Guids
  import opened Calendar
  import opened ValueObjects
  import opened Entities
  import opened Conversion
  import opened Repositories
  import opened Services

  const Number: string := "1234567890123456"
  const CardId: Guid := 1
  const TheCard: Card := Card(CardId, Number, Money(100.0, "USD"))

  function Seeded(amounts: seq<real>): Store
    requires |amounts| <= 10
  {
    Store([TheCard], Purchases(amounts))
  }

  /** Purchases of the card with the given amounts, ids 10, 11, ... */
  function Purchases(amounts: seq<real>): seq<PurchaseTransaction>
    requires |amounts| <= 10
  {
    if amounts == [] then []
    else Purchases(amounts[..|amounts| - 1])
         + [PurchaseTransaction(10 + |amounts| - 1, CardId, "Fuel", Date(2024, 1, 1), Money(amounts[|amounts| - 1], "USD"))]
  }

  /** The number finds the seeded card. */
  lemma FindsTheCard(amounts: seq<real>)
    requires |amounts| <= 10
    ensures Designates(Seeded(amounts), Some(Number), TheCard)
  {
    assert Where([TheCard], NumberIs(Some(Number))) == [TheCard] by {
      WhereAppend([], TheCard, NumberIs(Some(Number)));
    }
  }

  lemma ListOfSeeded(amounts: seq<real>)
    requires |amounts| <= 10
    ensures ListByCardId(Seeded(amounts), CardId) == Purchases(amounts)
    decreases |amounts|
  {
    var ps := Purchases(amounts);
    var keep := CardIdIs(CardId);
    if amounts != [] {
      var init := amounts[..|amounts| - 1];
      ListOfSeeded(init);
      var p := ps[|ps| - 1];
      assert ps == Purchases(init) + [p];
      WhereAppend(Purchases(init), p, keep);
    }
  }

  lemma MaxPurchaseText()
    ensures !IsNullOrWhiteSpace(Some("Max purchase")) && Trim("Max purchase") == "Max purchase"
  {
    var d := "Max purchase";
    assert d[0] == 'M' && d[|d| - 1] == 'e';
    TrimOfUnpadded(d);
  }

  /** A purchase landing exactly on the limit is accepted and stored. */
  lemma ExactlyAtLimit()
    ensures var r := AddPurchase(Seeded([]), 2, Some(Number), Some("Max purchase"), Date(2024, 1, 15), 100.0);
            && r.Ok?
            && r.value.0 == PurchaseCreated(2, CardId, "Max purchase", Date(2024, 1, 15), 100.0)
            && |r.value.1.purchases| == 1
  {
    FindsTheCard([]);
    ListOfSeeded([]);
    MaxPurchaseText();
    RoundFixesCents(100.0);
  }

  /** 60 already spent on a 100 limit: a further 50 is refused. */
  lemma CumulativeLimit()
    ensures AddPurchase(Seeded([60.0]), 2, Some(Number), Some("Second"), Date(2024, 1, 15), 50.0)
              == Err(Conflict(LimitExceeded))
  {
    FindsTheCard([60.0]);
    ListOfSeeded([60.0]);
    assert Total(Purchases([60.0])) == 60.0;
    RoundFixesCents(50.0);
  }

  /** A number other than the seeded card's is not found, and the message names it. */
  lemma UnknownCard(other: string)
    requires other != Number
    ensures AddPurchase(Seeded([]), 2, Some(other), Some("Coffee"), Date(2024, 1, 15), 5.5)
              == Err(NotFound("Card " + other + " was not found."))
  {
    assert FindCardByNumber(Seeded([]), Some(other)) == Ok(None) by {
      WhereAppend([], TheCard, NumberIs(Some(other)));
      assert [] + [TheCard] == [TheCard];
    }
  }

  /** 10 spent on a 100 limit: 90 available, reported in USD without a rate. */
  lemma BalanceInUsd()
    ensures GetBalance(Seeded([10.0]), Some(Number), Some("USD"), Date(2024, 1, 2), FixedRate(2.0))
              == Ok(CardBalance(CardId, 100.0, 10.0, 90.0, "USD", None, None, Some(90.0)))
  {
    FindsTheCard([10.0]);
    ListOfSeeded([10.0]);
    assert Total(Purchases([10.0])) == 10.0;
    assert TheCard.creditLimit.amount - 10.0 == 90.0;
    NormalizeOfCode("USD", "USD");
    ConvertOfBase(90.0, "USD", Date(2024, 1, 2), FixedRate(2.0));
    RoundFixesCents(90.0);
    assert ConversionResult(90.0, "USD", 1.0, Date(2024, 1, 2), 90.0).IsBaseCurrency();
    BalanceOfDesignated(Seeded([10.0]), Some(Number), TheCard, Some("USD"), Date(2024, 1, 2), FixedRate(2.0),
                        ConversionResult(90.0, "USD", 1.0, Date(2024, 1, 2), 90.0));
  }

  /** The same balance in EUR at rate 2 is 180, with the rate reported. */
  lemma BalanceInEur()
    ensures GetBalance(Seeded([10.0]), Some(Number), Some("EUR"), Date(2024, 1, 2), FixedRate(2.0))
              == Ok(CardBalance(CardId, 100.0, 10.0, 90.0, "EUR", Some(2.0), Some(Date(2024, 1, 15)), Some(180.0)))
  {
    BalanceInEurAt(2.0);
    assert ConvertAmount(90.0, 2.0) == 180.0 by { assert 90.0 * 2.0 == 180.0; RoundFixesCents(180.0); }
  }

  /** At any rate, the 90 USD available are reported in EUR at that rate. */
  lemma BalanceInEurAt(rate: real)
    ensures GetBalance(Seeded([10.0]), Some(Number), Some("EUR"), Date(2024, 1, 2), FixedRate(rate))
              == Ok(CardBalance(CardId, 100.0, 10.0, 90.0, "EUR", Some(rate), Some(Date(2024, 1, 15)),
                                Some(ConvertAmount(90.0, rate))))
  {
    var c := ConversionResult(90.0, "EUR", rate, Date(2024, 1, 15), ConvertAmount(90.0, rate));
    FindsTheCard([10.0]);
    SeededSpent([10.0], 10.0);
    NormalizeOfCode("EUR", "EUR");
    ConvertAtFixedRate(90.0, "EUR", Date(2024, 1, 2), rate);
    assert !c.IsBaseCurrency() by { assert ToUpper("EUR")[0] == 'E'; }
    BalanceOfDesignated(Seeded([10.0]), Some(Number), TheCard, Some("EUR"), Date(2024, 1, 2), FixedRate(rate), c);
  }

  /** What the seeded card has spent. */
  lemma SeededSpent(amounts: seq<real>, spent: real)
    requires |amounts| <= 10
    requires Total(Purchases(amounts)) == spent
    ensures Total(ListByCardId(Seeded(amounts), CardId)) == spent
    ensures TheCard.creditLimit.amount - Total(ListByCardId(Seeded(amounts), CardId)) == 100.0 - spent
  {
    ListOfSeeded(amounts);
  }

  /** The balance of a designated card whose conversion succeeds. */
  lemma BalanceOfDesignated(store: Store, n: Option<string>, card: Card, currency: Option<string>,
                            asOfDate: DateOnly, provider: RateProvider, c: ConversionResult)
    requires Designates(store, n, card)
    requires Convert(card.creditLimit.amount - Total(ListByCardId(store, card.id)), currency, asOfDate, provider) == Ok(c)
    ensures var total := Total(ListByCardId(store, card.id));
            GetBalance(store, n, currency, asOfDate, provider)
              == Ok(CardBalance(card.id, card.creditLimit.amount, total, card.creditLimit.amount - total,
                                c.targetCurrency,
                                if c.IsBaseCurrency() then None else Some(c.exchangeRate),
                                if c.IsBaseCurrency() then None else Some(c.rateDate),
                                Some(c.convertedAmount)))
  {
    var r := GetBalance(store, n, currency, asOfDate, provider);
    assert r.Ok? && r.value.cardId == card.id && r.value.availableInTargetCurrency == Some(c.convertedAmount);
    if c.IsBaseCurrency() {
      assert r.value.usdToTargetRate == None && r.value.exchangeRateDate == None;
    } else {
      assert r.value.usdToTargetRate == Some(c.exchangeRate) && r.value.exchangeRateDate == Some(c.rateDate);
    }
  }

  /** A new number with a positive limit creates the card. */
  lemma CreateCardExample()
    ensures CreateCard(EmptyStore, 1, Some(Number), 500.0)
              == Ok((CardCreated(1, Number, 500.0), Store([Card(1, Number, Money(500.0, "USD"))], [])))
  {
    CardPatternExamples();
    RoundFixesCents(500.0);
  }

  /** The seeded number cannot be registered again. */
  lemma DuplicateExample()
    ensures CreateCard(Seeded([]), 2, Some(Number), 500.0) == Err(Conflict(DuplicateCard(Some(Number))))
  {
    FindsTheCard([]);
  }

  /** A zero or negative limit fails on the amount. */
  lemma ZeroLimitExample()
    ensures CreateCard(EmptyStore, 1, Some(Number), 0.0) == Err(DomainError(AmountNotPositive))
    ensures CreateCard(EmptyStore, 1, Some(Number), -100.0) == Err(DomainError(AmountNotPositive))
  {
  }

  /** A malformed number with a good limit fails on the number. */
  lemma MalformedNumberExample()
    ensures CreateCard(EmptyStore, 1, Some("invalid"), 100.0) == Err(DomainError(CardNumberFormat))
  {
    RoundFixesCents(100.0);
    assert !MatchesCardPattern("invalid") by { assert "invalid"[0] == 'i'; }
  }

  /** A 100 USD hotel purchase converted at 1.5 is 150 EUR, with the rate. */
  lemma ConvertedPurchaseExample()
    ensures var r := GetConverted(Seeded([100.0]), 10, Some("EUR"), FixedRate(1.5));
            && r.Ok?
            && r.value.convertedAmount == 150.0
            && r.value.convertedCurrency == "EUR"
            && r.value.usdToTargetRate == 1.5
  {
    var p := PurchaseTransaction(10, CardId, "Fuel", Date(2024, 1, 1), Money(100.0, "USD"));
    assert Seeded([100.0]).purchases == [p];
    ConvertedPurchaseAt(Seeded([100.0]), p, 1.5);
    assert ConvertAmount(100.0, 1.5) == 150.0 by { assert 100.0 * 1.5 == 150.0; RoundFixesCents(150.0); }
  }

  /** The only purchase of a store, of any non-zero amount, is reported in EUR at
      whatever rate the provider gives, with its own description, date and amount. */
  lemma ConvertedPurchaseAt(store: Store, p: PurchaseTransaction, rate: real)
    requires store.purchases == [p]
    requires p.amount.amount != 0.0
    ensures GetConverted(store, p.id, Some("EUR"), FixedRate(rate))
              == Ok(ConvertedPurchase(p.id, p.description, p.transactionDate, p.amount.amount, "EUR", rate,
                                      Date(2024, 1, 15), ConvertAmount(p.amount.amount, rate)))
  {
    var c := ConversionResult(p.amount.amount, "EUR", rate, Date(2024, 1, 15), ConvertAmount(p.amount.amount, rate));
    assert FindPurchaseById(store, p.id) == Ok(Some(p)) by {
      WhereAppend([], p, IdIs(p.id));
      assert [] + [p] == [p];
    }
    assert Convert(p.amount.amount, Some("EUR"), p.transactionDate, FixedRate(rate)) == Ok(c) by {
      NormalizeOfCode("EUR", "EUR");
      ConvertAtFixedRate(p.amount.amount, "EUR", p.transactionDate, rate);
    }
    ConvertedOfFound(store, p.id, p, Some("EUR"), FixedRate(rate), c);
  }

  /** The report for a stored purchase whose conversion succeeds. */
  lemma ConvertedOfFound(store: Store, id: Guid, p: PurchaseTransaction, currency: Option<string>,
                         provider: RateProvider, c: ConversionResult)
    requires FindPurchaseById(store, id) == Ok(Some(p))
    requires Convert(p.amount.amount, currency, p.transactionDate, provider) == Ok(c)
    ensures GetConverted(store, id, currency, provider)
              == Ok(ConvertedPurchase(id, p.description, p.transactionDate, p.amount.amount,
                                      c.targetCurrency, c.exchangeRate, c.rateDate, c.convertedAmount))
  {
    var r := GetConverted(store, id, currency, provider);
    assert r.Ok? && r.value.id == id && r.value.convertedAmount == c.convertedAmount;
  }
}
