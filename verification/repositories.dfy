/** The storage the services run against, after the in-memory repositories
    of the test suite: each repository is a list kept in insertion order;
    a lookup is `SingleOrDefault` over the matching elements, a listing is
    `Where`, and adding appends. */
module Repositories {
  import opened Results
  import opened Exceptions
  import opened Guids
  import opened ValueObjects
  import opened Entities

  /** The state of both repositories. */
  datatype Store = Store(cards: seq<Card>, purchases: seq<PurchaseTransaction>)

  const EmptyStore: Store := Store([], [])

  /** The message of the exception `SingleOrDefault` throws when several
      elements match. */
  const MoreThanOneMatch: string := "Sequence contains more than one matching element"

  // ---------------------------------------------------------------------
  // The LINQ operators the repositories use

  /** `Where(keep)`: the elements that satisfy `keep`, in their original order. */
  function Where<T(!new)>(xs: seq<T>, keep: T -> bool): (r: seq<T>)
    ensures |r| <= |xs|
    ensures forall x :: x in r <==> x in xs && keep(x)
  {
    if xs == [] then []
    else
      var init, last := xs[..|xs| - 1], xs[|xs| - 1];
      assert xs == init + [last];
      Where(init, keep) + (if keep(last) then [last] else [])
  }

  /** Filtering an extended list extends the filtered list: the order of
      insertion is the order of the listing. */
  lemma WhereAppend<T(!new)>(xs: seq<T>, x: T, keep: T -> bool)
    ensures Where(xs + [x], keep) == Where(xs, keep) + (if keep(x) then [x] else [])
  {
    assert (xs + [x])[..|xs|] == xs;
  }

  /** Nothing is kept exactly when no element satisfies `keep`. */
  lemma WhereEmpty<T(!new)>(xs: seq<T>, keep: T -> bool)
    ensures Where(xs, keep) == [] <==> forall i :: 0 <= i < |xs| ==> !keep(xs[i])
  {
    var r := Where(xs, keep);
    if r != [] {
      assert r[0] in r;
    } else {
      forall i | 0 <= i < |xs| ensures !keep(xs[i]) {
        assert xs[i] in xs;
      }
    }
  }

  /** `SingleOrDefault` applied to the matching elements: null when there are
      none, the element when there is one, an exception when there are more. */
  function SingleOrDefault<T>(matches: seq<T>): (r: Outcome<Option<T>>)
    ensures r.Ok? <==> |matches| <= 1
    ensures r == Ok(None) <==> matches == []
    ensures r.Ok? && r.value.Some? ==> matches == [r.value.value]
    ensures r.Err? ==> r.error == InvalidOperation(MoreThanOneMatch)
  {
    if |matches| == 0 then Ok(None)
    else if |matches| == 1 then Ok(Some(matches[0]))
    else Err(InvalidOperation(MoreThanOneMatch))
  }

  /** No two elements both satisfy `keep`. */
  predicate AtMostOne<T>(xs: seq<T>, keep: T -> bool) {
    forall i, j :: 0 <= i < j < |xs| ==> !(keep(xs[i]) && keep(xs[j]))
  }

  /** When no two elements match, `Where` finds at most one; conversely two
      matches mean two matching positions. */
  lemma {:induction false} WhereAtMostOne<T(!new)>(xs: seq<T>, keep: T -> bool)
    ensures AtMostOne(xs, keep) <==> |Where(xs, keep)| <= 1
  {
    if xs != [] {
      var init, last := xs[..|xs| - 1], xs[|xs| - 1];
      assert xs == init + [last];
      WhereAtMostOne(init, keep);
      if AtMostOne(xs, keep) {
        assert AtMostOne(init, keep) by {
          forall i, j | 0 <= i < j < |init| ensures !(keep(init[i]) && keep(init[j])) {
            assert init[i] == xs[i] && init[j] == xs[j];
          }
        }
        if keep(last) {
          forall i | 0 <= i < |init| ensures !keep(init[i]) {
            assert init[i] == xs[i] && last == xs[|xs| - 1];
          }
          WhereEmpty(init, keep);
        }
      } else {
        var i, j :| 0 <= i < j < |xs| && keep(xs[i]) && keep(xs[j]);
        if j < |xs| - 1 {
          assert init[i] == xs[i] && init[j] == xs[j];
          assert !AtMostOne(init, keep);
        } else {
          assert xs[i] in Where(init, keep) by { assert init[i] == xs[i]; }
        }
      }
    }
  }

  // ---------------------------------------------------------------------
  // The card repository

  /** The key `GetByNumberAsync` compares: the card's number, compared with
      a possibly-null argument. */
  function NumberIs(number: Option<string>): Card -> bool {
    (c: Card) => number == Some(c.number)
  }

  /** No two stored cards share a number. */
  predicate UniqueNumbers(cards: seq<Card>) {
    forall i, j :: 0 <= i < j < |cards| ==> cards[i].number != cards[j].number
  }

  /** `GetByNumberAsync(number)`: the card with that number, null when there
      is none; several matches throw, which cannot happen while numbers are
      unique. */
  function FindCardByNumber(store: Store, number: Option<string>): (r: Outcome<Option<Card>>)
    ensures r == Ok(None) <==> forall i :: 0 <= i < |store.cards| ==> number != Some(store.cards[i].number)
    ensures r.Ok? && r.value.Some? ==> r.value.value in store.cards && number == Some(r.value.value.number)
    ensures r.Err? <==> !AtMostOne(store.cards, NumberIs(number))
    ensures r.Err? ==> r.error == InvalidOperation(MoreThanOneMatch)
  {
    var matches := Where(store.cards, NumberIs(number));
    WhereAtMostOne(store.cards, NumberIs(number));
    WhereEmpty(store.cards, NumberIs(number));
    SingleOrDefault(matches)
  }

  /** With unique numbers the lookup never throws and finds every stored card
      by its number. */
  lemma FindCardOfUnique(store: Store, number: Option<string>)
    requires UniqueNumbers(store.cards)
    ensures FindCardByNumber(store, number).Ok?
    ensures forall c :: c in store.cards && number == Some(c.number) ==>
              FindCardByNumber(store, number) == Ok(Some(c))
  {
    assert AtMostOne(store.cards, NumberIs(number));
    WhereAtMostOne(store.cards, NumberIs(number));
  }

  /** `InMemoryCardRepository.AddAsync`: appends, whatever is stored already. */
  function AppendCard(store: Store, card: Card): (s: Store)
    ensures Where(s.cards, NumberIs(Some(card.number)))
              == Where(store.cards, NumberIs(Some(card.number))) + [card]
    ensures forall n :: n != Some(card.number) ==> Where(s.cards, NumberIs(n)) == Where(store.cards, NumberIs(n))
    ensures s.purchases == store.purchases
  {
    var s := store.(cards := store.cards + [card]);
    WhereAppend(store.cards, card, NumberIs(Some(card.number)));
    forall n | n != Some(card.number)
      ensures Where(s.cards, NumberIs(n)) == Where(store.cards, NumberIs(n))
    {
      WhereAppend(store.cards, card, NumberIs(n));
    }
    s
  }

  /** Adding a card whose number is new keeps numbers unique and makes the
      card findable; the lookup of every other number is unchanged. */
  lemma AppendCardFindable(store: Store, card: Card)
    requires UniqueNumbers(store.cards)
    requires FindCardByNumber(store, Some(card.number)) == Ok(None)
    ensures UniqueNumbers(AppendCard(store, card).cards)
    ensures FindCardByNumber(AppendCard(store, card), Some(card.number)) == Ok(Some(card))
    ensures forall n :: n != Some(card.number) ==>
              FindCardByNumber(AppendCard(store, card), n) == FindCardByNumber(store, n)
  {
    var s := AppendCard(store, card);
    assert s.cards == store.cards + [card];
    FindCardOfUnique(s, Some(card.number));
  }

  // ---------------------------------------------------------------------
  // The purchase repository

  function IdIs(id: Guid): PurchaseTransaction -> bool {
    (p: PurchaseTransaction) => p.id == id
  }

  function CardIdIs(cardId: Guid): PurchaseTransaction -> bool {
    (p: PurchaseTransaction) => p.cardId == cardId
  }

  /** No two stored purchases share an id. */
  predicate UniquePurchaseIds(purchases: seq<PurchaseTransaction>) {
    forall i, j :: 0 <= i < j < |purchases| ==> purchases[i].id != purchases[j].id
  }

  /** `GetByIdAsync(id)`: the purchase with that id, or null. */
  function FindPurchaseById(store: Store, id: Guid): (r: Outcome<Option<PurchaseTransaction>>)
    ensures r == Ok(None) <==> forall i :: 0 <= i < |store.purchases| ==> store.purchases[i].id != id
    ensures r.Ok? && r.value.Some? ==> r.value.value in store.purchases && r.value.value.id == id
    ensures r.Err? <==> !AtMostOne(store.purchases, IdIs(id))
    ensures r.Err? ==> r.error == InvalidOperation(MoreThanOneMatch)
  {
    var matches := Where(store.purchases, IdIs(id));
    WhereAtMostOne(store.purchases, IdIs(id));
    WhereEmpty(store.purchases, IdIs(id));
    SingleOrDefault(matches)
  }

  /** With unique ids every stored purchase is found by its id. */
  lemma FindPurchaseOfUnique(store: Store, id: Guid)
    requires UniquePurchaseIds(store.purchases)
    ensures FindPurchaseById(store, id).Ok?
    ensures forall p :: p in store.purchases && p.id == id ==> FindPurchaseById(store, id) == Ok(Some(p))
  {
    assert AtMostOne(store.purchases, IdIs(id));
    WhereAtMostOne(store.purchases, IdIs(id));
  }

  /** `ListByCardIdAsync(cardId)`: exactly the purchases of that card, in the
      order they were added. */
  function ListByCardId(store: Store, cardId: Guid): (r: seq<PurchaseTransaction>)
    ensures forall p :: p in r <==> p in store.purchases && p.cardId == cardId
  {
    Where(store.purchases, CardIdIs(cardId))
  }

  /** `InMemoryPurchaseRepository.AddAsync`: appends one purchase; the earlier
      entries and every other card's listing are unchanged. */
  function AppendPurchase(store: Store, purchase: PurchaseTransaction): (s: Store)
    ensures |s.purchases| == |store.purchases| + 1 && s.purchases[|store.purchases|] == purchase
    ensures s.purchases[..|store.purchases|] == store.purchases
    ensures s.cards == store.cards
    ensures ListByCardId(s, purchase.cardId) == ListByCardId(store, purchase.cardId) + [purchase]
    ensures forall id :: id != purchase.cardId ==> ListByCardId(s, id) == ListByCardId(store, id)
  {
    var s := store.(purchases := store.purchases + [purchase]);
    WhereAppend(store.purchases, purchase, CardIdIs(purchase.cardId));
    forall id | id != purchase.cardId
      ensures ListByCardId(s, id) == ListByCardId(store, id)
    {
      WhereAppend(store.purchases, purchase, CardIdIs(id));
    }
    s
  }

  /** Adding a purchase under a new id keeps ids unique and makes it findable. */
  lemma AppendPurchaseFindable(store: Store, purchase: PurchaseTransaction)
    requires UniquePurchaseIds(store.purchases)
    requires FindPurchaseById(store, purchase.id) == Ok(None)
    ensures UniquePurchaseIds(AppendPurchase(store, purchase).purchases)
    ensures FindPurchaseById(AppendPurchase(store, purchase), purchase.id) == Ok(Some(purchase))
  {
    var s := AppendPurchase(store, purchase);
    assert s.purchases == store.purchases + [purchase];
    FindPurchaseOfUnique(s, purchase.id);
  }

  // ---------------------------------------------------------------------
  // Totals

  /** `Sum(p => p.Amount.Amount)`. */
  function Total(purchases: seq<PurchaseTransaction>): real {
    if purchases == [] then 0.0
    else Total(purchases[..|purchases| - 1]) + purchases[|purchases| - 1].amount.amount
  }

  /** The total of a list with one more purchase grows by that purchase's amount. */
  lemma TotalAppend(purchases: seq<PurchaseTransaction>, p: PurchaseTransaction)
    ensures Total(purchases + [p]) == Total(purchases) + p.amount.amount
  {
    assert (purchases + [p])[..|purchases|] == purchases;
  }

  /** A total of non-negative amounts is non-negative. */
  lemma {:induction false} TotalNonNegative(purchases: seq<PurchaseTransaction>)
    requires forall i :: 0 <= i < |purchases| ==> purchases[i].amount.amount >= 0.0
    ensures Total(purchases) >= 0.0
  {
    if purchases != [] {
      TotalNonNegative(purchases[..|purchases| - 1]);
    }
  }
}
