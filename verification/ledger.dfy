/** The state the services keep the store in, and what they promise across
    calls: every stored card and purchase is as its constructor leaves it,
    numbers and ids are unique, every purchase belongs to a stored card, and
    no card's purchases exceed its limit. Fresh ids stand for `Guid.NewGuid()`. */
module Ledger {
  import opened Results
  import opened Exceptions
  import opened Text
  import opened Guids
  import opened Calendar
  import opened ValueObjects
  import opened Entities
  import opened Conversion
  import opened Repositories
  import opened Services
  import Constants

  // ---------------------------------------------------------------------
  // The invariant

  /** No two cards share an id. */
  predicate UniqueCardIds(cards: seq<Card>) {
    forall i, j :: 0 <= i < j < |cards| ==> cards[i].id != cards[j].id
  }

  /** Some stored card has this id. */
  predicate KnownCardId(cards: seq<Card>, id: Guid) {
    exists j :: 0 <= j < |cards| && cards[j].id == id
  }

  /** Every card is as `new Card` leaves it, with a limit as `Money.Usd` leaves it. */
  predicate WellFormedCards(cards: seq<Card>) {
    forall i :: 0 <= i < |cards| ==>
      && ValidCard(cards[i])
      && IsCents(cards[i].creditLimit.amount) && cards[i].creditLimit.amount >= 0.0
  }

  /** Every purchase is as `new PurchaseTransaction` leaves it, with a positive
      whole number of cents, and belongs to a stored card. */
  predicate WellFormedPurchases(store: Store) {
    forall i :: 0 <= i < |store.purchases| ==>
      && ValidPurchase(store.purchases[i])
      && IsCents(store.purchases[i].amount.amount) && store.purchases[i].amount.amount > 0.0
      && KnownCardId(store.cards, store.purchases[i].cardId)
  }

  /** No card's purchases add up to more than its limit. */
  predicate WithinLimits(store: Store) {
    forall i :: 0 <= i < |store.cards| ==>
      Total(ListByCardId(store, store.cards[i].id)) <= store.cards[i].creditLimit.amount
  }

  predicate Consistent(store: Store) {
    && UniqueNumbers(store.cards)
    && UniqueCardIds(store.cards)
    && UniquePurchaseIds(store.purchases)
    && WellFormedCards(store.cards)
    && WellFormedPurchases(store)
    && WithinLimits(store)
  }

  /** What `Guid.NewGuid()` is relied on for: a non-empty id no card has. */
  predicate FreshCardId(store: Store, id: Guid) {
    id != Empty && forall i :: 0 <= i < |store.cards| ==> store.cards[i].id != id
  }

  /** A non-empty id no purchase has. */
  predicate FreshPurchaseId(store: Store, id: Guid) {
    id != Empty && forall i :: 0 <= i < |store.purchases| ==> store.purchases[i].id != id
  }

  // ---------------------------------------------------------------------
  // The services keep the invariant

  lemma EmptyStoreConsistent()
    ensures Consistent(EmptyStore)
  {
  }

  /** In a consistent store no lookup throws. */
  lemma LookupsSucceed(store: Store, cardNumber: Option<string>, purchaseId: Guid)
    requires Consistent(store)
    ensures FindCardByNumber(store, cardNumber).Ok?
    ensures FindPurchaseById(store, purchaseId).Ok?
  {
    FindCardOfUnique(store, cardNumber);
    FindPurchaseOfUnique(store, purchaseId);
  }

  /** A card with a fresh id has no purchases yet. */
  lemma NoPurchasesForFreshId(store: Store, id: Guid)
    requires WellFormedPurchases(store)
    requires FreshCardId(store, id)
    ensures ListByCardId(store, id) == []
  {
    WhereEmpty(store.purchases, CardIdIs(id));
  }

  /** Appending a well-formed card with a new number and a fresh id keeps
      the store consistent. */
  lemma AppendCardPreserves(store: Store, card: Card)
    requires Consistent(store)
    requires FreshCardId(store, card.id)
    requires ValidCard(card) && IsCents(card.creditLimit.amount) && card.creditLimit.amount >= 0.0
    requires FindCardByNumber(store, Some(card.number)) == Ok(None)
    ensures Consistent(AppendCard(store, card))
  {
    AppendCardFindable(store, card);
    AppendCardKeepsCards(store, card);
    AppendCardKeepsPurchases(store, card);
    AppendCardKeepsLimits(store, card);
  }

  lemma AppendCardKeepsCards(store: Store, card: Card)
    requires UniqueCardIds(store.cards) && WellFormedCards(store.cards)
    requires FreshCardId(store, card.id)
    requires ValidCard(card) && IsCents(card.creditLimit.amount) && card.creditLimit.amount >= 0.0
    ensures UniqueCardIds(AppendCard(store, card).cards) && WellFormedCards(AppendCard(store, card).cards)
  {
    assert AppendCard(store, card).cards == store.cards + [card];
  }

  lemma AppendCardKeepsPurchases(store: Store, card: Card)
    requires UniquePurchaseIds(store.purchases) && WellFormedPurchases(store)
    ensures UniquePurchaseIds(AppendCard(store, card).purchases) && WellFormedPurchases(AppendCard(store, card))
  {
    var s := AppendCard(store, card);
    assert s.cards == store.cards + [card];
    assert s.purchases == store.purchases;
    forall i | 0 <= i < |s.purchases|
      ensures KnownCardId(s.cards, s.purchases[i].cardId)
    {
      assert KnownCardId(store.cards, store.purchases[i].cardId);
      var j :| 0 <= j < |store.cards| && store.cards[j].id == store.purchases[i].cardId;
      assert s.cards[j] == store.cards[j];
    }
  }

  lemma AppendCardKeepsLimits(store: Store, card: Card)
    requires WithinLimits(store) && WellFormedPurchases(store)
    requires FreshCardId(store, card.id)
    requires card.creditLimit.amount >= 0.0
    ensures WithinLimits(AppendCard(store, card))
  {
    var s := AppendCard(store, card);
    assert s.cards == store.cards + [card];
    NoPurchasesForFreshId(store, card.id);
    forall i | 0 <= i < |s.cards|
      ensures Total(ListByCardId(s, s.cards[i].id)) <= s.cards[i].creditLimit.amount
    {
      assert ListByCardId(s, s.cards[i].id) == ListByCardId(store, s.cards[i].id);
      if i < |store.cards| {
        assert s.cards[i] == store.cards[i];
      }
    }
  }

  /** Creating a card under a fresh id keeps the store consistent. */
  lemma CreateCardPreserves(store: Store, newId: Guid, cardNumber: Option<string>, creditLimitUsd: real)
    requires Consistent(store)
    requires FreshCardId(store, newId)
    ensures var r := CreateCard(store, newId, cardNumber, creditLimitUsd);
            r.Ok? ==> Consistent(r.value.1)
  {
    if CreateCard(store, newId, cardNumber, creditLimitUsd).Ok? {
      var card := Card(newId, cardNumber.value, Money(Round(creditLimitUsd), Constants.BaseCurrency));
      assert ValidCard(card) by {
        assert NewCard(newId, cardNumber, card.creditLimit).Ok?;
      }
      AppendCardPreserves(store, card);
    }
  }

  /** The card a lookup finds in a consistent store is the only card with its id. */
  lemma FoundCardIsStored(store: Store, cardNumber: Option<string>, card: Card)
    requires UniqueCardIds(store.cards)
    requires Designates(store, cardNumber, card)
    ensures exists k :: 0 <= k < |store.cards| && store.cards[k] == card
    ensures forall i :: 0 <= i < |store.cards| && store.cards[i].id == card.id ==> store.cards[i] == card
  {
    assert card in store.cards;
  }

  /** Appending a well-formed purchase of a stored card under a fresh id, when
      the card's total stays within its limit, keeps the store consistent. */
  lemma AppendPurchasePreserves(store: Store, k: nat, p: PurchaseTransaction)
    requires Consistent(store)
    requires k < |store.cards| && store.cards[k].id == p.cardId
    requires FreshPurchaseId(store, p.id)
    requires ValidPurchase(p) && IsCents(p.amount.amount) && p.amount.amount > 0.0
    requires Total(ListByCardId(store, p.cardId)) + p.amount.amount <= store.cards[k].creditLimit.amount
    ensures Consistent(AppendPurchase(store, p))
  {
    var s := AppendPurchase(store, p);
    assert s.purchases == store.purchases + [p];
    assert FindPurchaseById(store, p.id) == Ok(None);
    AppendPurchaseFindable(store, p);
    AppendPurchaseKeepsPurchases(store, k, p);
    AppendPurchaseKeepsLimits(store, k, p);
  }

  lemma AppendPurchaseKeepsPurchases(store: Store, k: nat, p: PurchaseTransaction)
    requires WellFormedPurchases(store)
    requires k < |store.cards| && store.cards[k].id == p.cardId
    requires ValidPurchase(p) && IsCents(p.amount.amount) && p.amount.amount > 0.0
    ensures WellFormedPurchases(AppendPurchase(store, p))
  {
    var s := AppendPurchase(store, p);
    assert s.purchases == store.purchases + [p];
    assert KnownCardId(s.cards, p.cardId) by { assert s.cards[k].id == p.cardId; }
  }

  lemma AppendPurchaseKeepsLimits(store: Store, k: nat, p: PurchaseTransaction)
    requires WithinLimits(store) && UniqueCardIds(store.cards)
    requires k < |store.cards| && store.cards[k].id == p.cardId
    requires Total(ListByCardId(store, p.cardId)) + p.amount.amount <= store.cards[k].creditLimit.amount
    ensures WithinLimits(AppendPurchase(store, p))
  {
    var s := AppendPurchase(store, p);
    forall i | 0 <= i < |s.cards|
      ensures Total(ListByCardId(s, s.cards[i].id)) <= s.cards[i].creditLimit.amount
    {
      if s.cards[i].id == p.cardId {
        assert i == k;
        TotalAppend(ListByCardId(store, p.cardId), p);
      } else {
        assert ListByCardId(s, s.cards[i].id) == ListByCardId(store, s.cards[i].id);
      }
    }
  }

  /** Adding a purchase under a fresh id keeps the store consistent: in
      particular the charged card stays within its limit. */
  lemma AddPurchasePreserves(store: Store, newId: Guid, cardNumber: Option<string>, description: Option<string>,
                             transactionDate: DateOnly, amountUsd: real)
    requires Consistent(store)
    requires FreshPurchaseId(store, newId)
    ensures var r := AddPurchase(store, newId, cardNumber, description, transactionDate, amountUsd);
            r.Ok? ==> Consistent(r.value.1)
  {
    if AddPurchase(store, newId, cardNumber, description, transactionDate, amountUsd).Ok? {
      LookupsSucceed(store, cardNumber, newId);
      var card := FindCardByNumber(store, cardNumber).value.value;
      assert Designates(store, cardNumber, card);
      FoundCardIsStored(store, cardNumber, card);
      var k :| 0 <= k < |store.cards| && store.cards[k] == card;
      var p := PurchaseTransaction(newId, card.id, Trim(description.value), transactionDate,
                                   Money(Round(amountUsd), Constants.BaseCurrency));
      assert ValidPurchase(p) by {
        assert NewPurchase(newId, card.id, description, transactionDate, p.amount).Ok?;
      }
      AppendPurchasePreserves(store, k, p);
    }
  }

  /** In a consistent store the balance is never negative and never above the
      limit: the missing floor in `GetBalanceAsync` is never needed. */
  lemma AvailableWithinLimit(store: Store, cardNumber: Option<string>, currency: Option<string>, asOfDate: DateOnly,
                             provider: RateProvider)
    requires Consistent(store)
    ensures var r := GetBalance(store, cardNumber, currency, asOfDate, provider);
            r.Ok? ==> 0.0 <= r.value.totalPurchasesUsd && 0.0 <= r.value.availableUsd <= r.value.creditLimitUsd
  {
    if GetBalance(store, cardNumber, currency, asOfDate, provider).Ok? {
      LookupsSucceed(store, cardNumber, Empty);
      var card := FindCardByNumber(store, cardNumber).value.value;
      assert Designates(store, cardNumber, card);
      FoundCardIsStored(store, cardNumber, card);
      var k :| 0 <= k < |store.cards| && store.cards[k] == card;
      SpentWithinLimit(store, k);
    }
  }

  /** In a consistent store what a card has spent lies between zero and its limit. */
  lemma SpentWithinLimit(store: Store, k: nat)
    requires Consistent(store)
    requires k < |store.cards|
    ensures var card := store.cards[k];
            0.0 <= Total(ListByCardId(store, card.id)) <= card.creditLimit.amount
  {
    var listed := ListByCardId(store, store.cards[k].id);
    forall i | 0 <= i < |listed| ensures listed[i].amount.amount >= 0.0 {
      assert listed[i] in listed;
    }
    TotalNonNegative(listed);
  }

  // ---------------------------------------------------------------------
  // Behaviour across calls

  /** Once a number is on file a second card with it is refused, whatever its
      limit and id. */
  lemma DuplicateRejected(store: Store, id1: Guid, id2: Guid, cardNumber: Option<string>, limit1: real, limit2: real)
    requires UniqueNumbers(store.cards)
    requires id1 != Empty && id2 != Empty
    requires CreateCard(store, id1, cardNumber, limit1).Ok?
    ensures CreateCard(CreateCard(store, id1, cardNumber, limit1).value.1, id2, cardNumber, limit2)
              == Err(Conflict(DuplicateCard(cardNumber)))
  {
    var card := Card(id1, cardNumber.value, Money(Round(limit1), Constants.BaseCurrency));
    AppendCardFindable(store, card);
  }

  /** A successful purchase extends its card's listing by exactly itself, and
      the card's total grows by the rounded amount and stays within the
      limit, whatever state the store was in. */
  lemma AddPurchaseGrowsTotal(store: Store, newId: Guid, card: Card, cardNumber: Option<string>,
                              description: Option<string>, transactionDate: DateOnly, amountUsd: real)
    requires newId != Empty
    requires Designates(store, cardNumber, card)
    requires AddPurchase(store, newId, cardNumber, description, transactionDate, amountUsd).Ok?
    ensures var s := AddPurchase(store, newId, cardNumber, description, transactionDate, amountUsd).value.1;
            && |ListByCardId(s, card.id)| == |ListByCardId(store, card.id)| + 1
            && ListByCardId(s, card.id)[..|ListByCardId(store, card.id)|] == ListByCardId(store, card.id)
            && Total(ListByCardId(s, card.id)) == Total(ListByCardId(store, card.id)) + Round(amountUsd)
            && Total(ListByCardId(s, card.id)) <= card.creditLimit.amount
            && s.cards == store.cards
  {
    var p := PurchaseTransaction(newId, card.id, Trim(description.value), transactionDate,
                                 Money(Round(amountUsd), Constants.BaseCurrency));
    TotalAppend(ListByCardId(store, card.id), p);
  }

  /** After a purchase that lands exactly on the limit, every further
      purchase of at least a cent on that card is a conflict, whatever its
      description. */
  lemma FullCardRefuses(store: Store, id1: Guid, id2: Guid, card: Card, cardNumber: Option<string>,
                        d1: Option<string>, d2: Option<string>, t1: DateOnly, t2: DateOnly, a1: real, a2: real)
    requires id1 != Empty && id2 != Empty
    requires Designates(store, cardNumber, card)
    requires AddPurchase(store, id1, cardNumber, d1, t1, a1).Ok?
    requires Total(ListByCardId(store, card.id)) + Round(a1) == card.creditLimit.amount
    requires Round(a2) > 0.0
    ensures AddPurchase(AddPurchase(store, id1, cardNumber, d1, t1, a1).value.1, id2, cardNumber, d2, t2, a2)
              == Err(Conflict(LimitExceeded))
  {
    var s := AddPurchase(store, id1, cardNumber, d1, t1, a1).value.1;
    AddPurchaseGrowsTotal(store, id1, card, cardNumber, d1, t1, a1);
    assert FindCardByNumber(s, cardNumber) == FindCardByNumber(store, cardNumber);
    assert Designates(s, cardNumber, card);
  }

  // ---------------------------------------------------------------------
  // How the two read services report rates

  /** A zero balance asked for in a foreign currency reports rate 1 and the
      caller's date, not nulls, and never consults the provider. */
  lemma ZeroBalanceForeignReportsRateOne(store: Store, card: Card, cardNumber: Option<string>, currency: Option<string>,
                                         asOfDate: DateOnly, provider: RateProvider)
    requires Designates(store, cardNumber, card)
    requires Total(ListByCardId(store, card.id)) == card.creditLimit.amount
    requires !IsNullOrWhiteSpace(currency) && NormalizeCode(currency.value) != Constants.BaseCurrency
    ensures var b := GetBalance(store, cardNumber, currency, asOfDate, provider);
            && b.Ok?
            && b.value.availableUsd == 0.0
            && b.value.usdToTargetRate == Some(1.0)
            && b.value.exchangeRateDate == Some(asOfDate)
            && b.value.availableInTargetCurrency == Some(0.0)
            && b.value.convertedCurrency == NormalizeCode(currency.value)
  {
    var c := ConversionResult(0.0, NormalizeCode(currency.value), 1.0, asOfDate, 0.0);
    assert !c.IsBaseCurrency();
  }

  /** A base-currency balance leaves the rate and its date null and reports
      the rounded balance. */
  lemma BaseBalanceHidesRate(store: Store, card: Card, cardNumber: Option<string>, currency: Option<string>,
                             asOfDate: DateOnly, provider: RateProvider)
    requires Designates(store, cardNumber, card)
    requires !IsNullOrWhiteSpace(currency) && NormalizeCode(currency.value) == Constants.BaseCurrency
    ensures var b := GetBalance(store, cardNumber, currency, asOfDate, provider);
            && b.Ok?
            && b.value.usdToTargetRate == None
            && b.value.exchangeRateDate == None
            && b.value.availableInTargetCurrency == Some(Round(b.value.availableUsd))
            && b.value.convertedCurrency == Constants.BaseCurrency
  {
    var available := card.creditLimit.amount - Total(ListByCardId(store, card.id));
    assert ToUpper(Constants.BaseCurrency) == Constants.BaseCurrency;
    if available == 0.0 {
      RoundFixesCents(0.0);
    }
  }

  /** A converted purchase always carries a rate and a date: in the base
      currency they are 1 and the purchase's own date. */
  lemma ConvertedPurchaseInBase(store: Store, p: PurchaseTransaction, currency: Option<string>, provider: RateProvider)
    requires FindPurchaseById(store, p.id) == Ok(Some(p))
    requires !IsNullOrWhiteSpace(currency) && NormalizeCode(currency.value) == Constants.BaseCurrency
    ensures var r := GetConverted(store, p.id, currency, provider);
            && r.Ok?
            && r.value.usdToTargetRate == 1.0
            && r.value.exchangeRateDate == p.transactionDate
            && r.value.convertedAmount == Round(p.amount.amount)
  {
    if p.amount.amount == 0.0 {
      RoundFixesCents(0.0);
    }
  }

  /** A purchase is converted with the rate of its own transaction date: two
      providers that agree on that day's rate give the same answer. */
  lemma ConvertedPurchaseUsesItsDate(store: Store, p: PurchaseTransaction, currency: Option<string>,
                                     p1: RateProvider, p2: RateProvider)
    requires FindPurchaseById(store, p.id) == Ok(Some(p))
    requires !IsNullOrWhiteSpace(currency)
    requires p1(NormalizeCode(currency.value), p.transactionDate) == p2(NormalizeCode(currency.value), p.transactionDate)
    ensures GetConverted(store, p.id, currency, p1) == GetConverted(store, p.id, currency, p2)
  {
    ConvertDependsOnOneQuestion(p.amount.amount, currency, p.transactionDate, p1, p2);
  }
}
