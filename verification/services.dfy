/** The application services, `CardService` and `PurchaseService`, as
    functions from the state of the store to either the exception a call
    throws or its response together with the new state. A call that throws
    stores nothing. The fresh id `Guid.NewGuid()` would produce is a parameter. */
module Services {
  import opened Results
  import opened Exceptions
  import opened Text
  import opened Guids
  import opened Calendar
  import opened ValueObjects
  import opened Entities
  import opened Conversion
  import opened Repositories
  import Constants

  // ---------------------------------------------------------------------
  // Responses

  datatype CardCreated = CardCreated(id: Guid, cardNumber: string, creditLimitUsd: real)

  /** The rate and its date are nullable: they are left out for a base-currency result. */
  datatype CardBalance = CardBalance(
    cardId: Guid,
    creditLimitUsd: real,
    totalPurchasesUsd: real,
    availableUsd: real,
    convertedCurrency: string,
    usdToTargetRate: Option<real>,
    exchangeRateDate: Option<DateOnly>,
    availableInTargetCurrency: Option<real>)

  datatype PurchaseCreated = PurchaseCreated(
    id: Guid,
    cardId: Guid,
    description: string,
    transactionDate: DateOnly,
    amountUsd: real)

  datatype ConvertedPurchase = ConvertedPurchase(
    id: Guid,
    description: string,
    transactionDate: DateOnly,
    amountUsd: real,
    convertedCurrency: string,
    usdToTargetRate: real,
    exchangeRateDate: DateOnly,
    convertedAmount: real)

  // ---------------------------------------------------------------------
  // Messages

  /** A string in an interpolated message: null renders as nothing. */
  function Shown(s: Option<string>): string {
    if s.None? then "" else s.value
  }

  function CardNotFound(cardNumber: Option<string>): string {
    "Card " + Shown(cardNumber) + " was not found."
  }

  function DuplicateCard(cardNumber: Option<string>): string {
    "Card with number " + Shown(cardNumber) + " already exists."
  }

  const LimitExceeded: string := "Purchase would exceed card credit limit."

  function PurchaseNotFound(purchaseId: Guid): string {
    "Purchase " + GuidText(purchaseId) + " was not found."
  }

  // ---------------------------------------------------------------------
  // CardService

  /** The card a number designates, when the lookup succeeds and finds one. */
  predicate Designates(store: Store, cardNumber: Option<string>, card: Card) {
    FindCardByNumber(store, cardNumber) == Ok(Some(card))
  }

  /** `CardService.CreateAsync`. A number already on file is a conflict,
      whatever the limit and the number look like; then the limit is checked
      (`Money.Usd` is an argument of the constructor, so it runs before the
      constructor's own checks); then the number. On success exactly one card
      is appended, carrying the rounded limit. */
  function CreateCard(store: Store, newId: Guid, cardNumber: Option<string>, creditLimitUsd: real)
    : (r: Outcome<(CardCreated, Store)>)
    requires newId != Empty
    ensures FindCardByNumber(store, cardNumber).Err? ==> r == Err(FindCardByNumber(store, cardNumber).error)
    ensures FindCardByNumber(store, cardNumber).Ok? && FindCardByNumber(store, cardNumber).value.Some? ==>
              r == Err(Conflict(DuplicateCard(cardNumber)))
    ensures FindCardByNumber(store, cardNumber) == Ok(None) && creditLimitUsd <= 0.0 ==>
              r == Err(DomainError(AmountNotPositive))
    ensures FindCardByNumber(store, cardNumber) == Ok(None) && creditLimitUsd > 0.0 && IsNullOrWhiteSpace(cardNumber) ==>
              r == Err(DomainError("Card number is required."))
    ensures FindCardByNumber(store, cardNumber) == Ok(None) && creditLimitUsd > 0.0 && !IsNullOrWhiteSpace(cardNumber)
              && !MatchesCardPattern(cardNumber.value) ==>
              r == Err(DomainError(CardNumberFormat))
    ensures r.Ok? <==> && FindCardByNumber(store, cardNumber) == Ok(None) && creditLimitUsd > 0.0
                       && cardNumber.Some? && MatchesCardPattern(cardNumber.value)
    ensures r.Ok? ==>
              var card := Card(newId, cardNumber.value, Money(Round(creditLimitUsd), Constants.BaseCurrency));
              r.value == (CardCreated(newId, cardNumber.value, Round(creditLimitUsd)), AppendCard(store, card))
  {
    var existing :- FindCardByNumber(store, cardNumber);
    if existing.Some? then Err(Conflict(DuplicateCard(cardNumber)))
    else
      var limit :- Usd(creditLimitUsd);
      var card :- NewCard(newId, cardNumber, limit);
      Ok((CardCreated(card.id, card.number, card.creditLimit.amount), AppendCard(store, card)))
  }

  /** `CardService.GetBalanceAsync`. An unknown number is reported before the
      currency is looked at. The available balance is the limit less the
      total of the card's purchases, with no floor; it is converted at the
      caller's date. The rate and its date are null exactly for a
      base-currency result; the converted amount is always reported. */
  function GetBalance(store: Store, cardNumber: Option<string>, currency: Option<string>, asOfDate: DateOnly,
                      provider: RateProvider)
    : (r: Outcome<CardBalance>)
    ensures FindCardByNumber(store, cardNumber).Err? ==> r == Err(FindCardByNumber(store, cardNumber).error)
    ensures FindCardByNumber(store, cardNumber) == Ok(None) ==> r == Err(NotFound(CardNotFound(cardNumber)))
    ensures forall card :: Designates(store, cardNumber, card) ==>
              var total := Total(ListByCardId(store, card.id));
              var conversion := Convert(card.creditLimit.amount - total, currency, asOfDate, provider);
              && (conversion.Err? ==> r == Err(conversion.error))
              && (conversion.Ok? ==>
                    && r.Ok?
                    && r.value.cardId == card.id
                    && r.value.creditLimitUsd == card.creditLimit.amount
                    && r.value.totalPurchasesUsd == total
                    && r.value.availableUsd == card.creditLimit.amount - total
                    && r.value.convertedCurrency == conversion.value.targetCurrency
                    && r.value.availableInTargetCurrency == Some(conversion.value.convertedAmount)
                    && (r.value.usdToTargetRate.None? <==> conversion.value.IsBaseCurrency())
                    && (r.value.exchangeRateDate.None? <==> conversion.value.IsBaseCurrency())
                    && (r.value.usdToTargetRate.Some? ==> r.value.usdToTargetRate.value == conversion.value.exchangeRate)
                    && (r.value.exchangeRateDate.Some? ==> r.value.exchangeRateDate.value == conversion.value.rateDate))
  {
    var found :- FindCardByNumber(store, cardNumber);
    if found.None? then Err(NotFound(CardNotFound(cardNumber)))
    else
      var card := found.value;
      var total := Total(ListByCardId(store, card.id));
      var available := card.creditLimit.amount - total;
      var conversion :- Convert(available, currency, asOfDate, provider);
      var isBase := conversion.IsBaseCurrency();
      Ok(CardBalance(
        card.id, card.creditLimit.amount, total, available, conversion.targetCurrency,
        if isBase then None else Some(conversion.exchangeRate),
        if isBase then None else Some(conversion.rateDate),
        Some(conversion.convertedAmount)))
  }

  // ---------------------------------------------------------------------
  // PurchaseService

  /** `PurchaseService.AddAsync`. An unknown number is reported first; what
      follows is decided by the card the number designates. */
  function AddPurchase(store: Store, newId: Guid, cardNumber: Option<string>, description: Option<string>,
                       transactionDate: DateOnly, amountUsd: real)
    : (r: Outcome<(PurchaseCreated, Store)>)
    requires newId != Empty
    ensures FindCardByNumber(store, cardNumber).Err? ==> r == Err(FindCardByNumber(store, cardNumber).error)
    ensures FindCardByNumber(store, cardNumber) == Ok(None) ==> r == Err(NotFound(CardNotFound(cardNumber)))
    ensures forall card :: Designates(store, cardNumber, card) ==>
              r == ChargeCard(store, card, newId, description, transactionDate, amountUsd)
  {
    var found :- FindCardByNumber(store, cardNumber);
    if found.None? then Err(NotFound(CardNotFound(cardNumber)))
    else ChargeCard(store, found.value, newId, description, transactionDate, amountUsd)
  }

  /** The part of `AddAsync` after the card is found. The amount is rounded
      once and that value is used both for the credit-limit check, where
      landing exactly on the limit is allowed, and as the stored amount. The
      limit check comes before the amount and the description are validated,
      so an over-limit purchase is a conflict even when its description is
      blank. On success exactly one purchase is appended. */
  function ChargeCard(store: Store, card: Card, newId: Guid, description: Option<string>,
                      transactionDate: DateOnly, amountUsd: real)
    : (r: Outcome<(PurchaseCreated, Store)>)
    requires newId != Empty
    ensures var spent := Total(ListByCardId(store, card.id));
            var rounded := Round(amountUsd);
            && (spent + rounded > card.creditLimit.amount ==> r == Err(Conflict(LimitExceeded)))
            && (spent + rounded <= card.creditLimit.amount && rounded <= 0.0 ==>
                  r == Err(DomainError(AmountNotPositive)))
            && (spent + rounded <= card.creditLimit.amount && rounded > 0.0 && card.id != Empty
                  && IsNullOrWhiteSpace(description) ==>
                  r == Err(DomainError("Description is required.")))
            && (r.Ok? <==> && spent + rounded <= card.creditLimit.amount && rounded > 0.0 && card.id != Empty
                           && !IsNullOrWhiteSpace(description)
                           && Utf16Length(Trim(description.value)) <= Constants.DescriptionMaxLength)
            && (r.Ok? ==>
                  var p := PurchaseTransaction(newId, card.id, Trim(description.value), transactionDate,
                                               Money(rounded, Constants.BaseCurrency));
                  r.value == (PurchaseCreated(newId, card.id, p.description, transactionDate, rounded),
                              AppendPurchase(store, p)))
  {
    var rounded := Round(amountUsd);
    var spent := Total(ListByCardId(store, card.id));
    if spent + rounded > card.creditLimit.amount then Err(Conflict(LimitExceeded))
    else
      RoundIdempotent(amountUsd);
      var amount :- Usd(rounded);
      var purchase :- NewPurchase(newId, card.id, description, transactionDate, amount);
      Ok((PurchaseCreated(purchase.id, purchase.cardId, purchase.description, purchase.transactionDate,
                          purchase.amount.amount),
          AppendPurchase(store, purchase)))
  }

  /** `PurchaseService.GetConvertedAsync`. The purchase is converted at its own
      transaction date, and the rate and rate date are always reported. */
  function GetConverted(store: Store, purchaseId: Guid, currency: Option<string>, provider: RateProvider)
    : (r: Outcome<ConvertedPurchase>)
    ensures FindPurchaseById(store, purchaseId).Err? ==> r == Err(FindPurchaseById(store, purchaseId).error)
    ensures FindPurchaseById(store, purchaseId) == Ok(None) ==> r == Err(NotFound(PurchaseNotFound(purchaseId)))
    ensures forall p: PurchaseTransaction :: FindPurchaseById(store, purchaseId) == Ok(Some(p)) ==>
              var conversion := Convert(p.amount.amount, currency, p.transactionDate, provider);
              && (conversion.Err? ==> r == Err(conversion.error))
              && (conversion.Ok? ==>
                    && r.Ok?
                    && r.value.id == purchaseId
                    && r.value.description == p.description
                    && r.value.transactionDate == p.transactionDate
                    && r.value.amountUsd == p.amount.amount
                    && r.value.convertedCurrency == conversion.value.targetCurrency
                    && r.value.usdToTargetRate == conversion.value.exchangeRate
                    && r.value.exchangeRateDate == conversion.value.rateDate
                    && r.value.convertedAmount == conversion.value.convertedAmount)
  {
    var found :- FindPurchaseById(store, purchaseId);
    if found.None? then Err(NotFound(PurchaseNotFound(purchaseId)))
    else
      var purchase := found.value;
      var conversion :- Convert(purchase.amount.amount, currency, purchase.transactionDate, provider);
      Ok(ConvertedPurchase(
        purchase.id, purchase.description, purchase.transactionDate, purchase.amount.amount,
        conversion.targetCurrency, conversion.exchangeRate, conversion.rateDate, conversion.convertedAmount))
  }
}
