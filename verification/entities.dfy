/** The two entities: `Card` and `PurchaseTransaction`, each built by a smart
    constructor that runs the same guards, in the same order, as the C# constructor. */
module Entities {
  import opened Results
  import opened Exceptions
  import opened Text
  import opened Guids
  import opened Calendar
  import opened ValueObjects
  import Constants
  import Guard

  // ---------------------------------------------------------------------
  // Card

  datatype Card = Card(id: Guid, number: string, creditLimit: Money)

  const CardNumberFormat: string := "Card number must be a 16-digit numeric string."

  /** .NET's `$` without the Multiline option: it matches at the end of the
      input and also just before a final line feed. */
  predicate EndAnchorAt(s: string, i: nat) {
    i == |s| || (i == |s| - 1 && s[i] == '\n')
  }

  /** `[0-9]{k}$` matched from position `i`. */
  predicate DigitsThenEndFrom(s: string, i: nat, k: nat)
    decreases k
  {
    if k == 0 then EndAnchorAt(s, i)
    else i < |s| && IsAsciiDigit(s[i]) && DigitsThenEndFrom(s, i + 1, k - 1)
  }

  /** `Regex.IsMatch(s, "^[0-9]{16}$")`: `^` pins the match to position 0. */
  predicate MatchesCardPattern(s: string) {
    DigitsThenEndFrom(s, 0, 16)
  }

  lemma {:induction false} DigitsThenEndFromCharacterised(s: string, i: nat, k: nat)
    requires i <= |s|
    ensures DigitsThenEndFrom(s, i, k) <==>
              && (|s| == i + k || (|s| == i + k + 1 && s[i + k] == '\n'))
              && forall j :: i <= j < i + k ==> IsAsciiDigit(s[j])
    decreases k
  {
    if k > 0 && i < |s| {
      DigitsThenEndFromCharacterised(s, i + 1, k - 1);
    }
  }

  /** The card-number rule as a closed form: sixteen ASCII digits, optionally
      followed by one line feed (the end-anchor quirk). */
  lemma CardPatternCharacterised(s: string)
    ensures MatchesCardPattern(s) <==>
              (|s| == 16 || (|s| == 17 && s[16] == '\n')) && AllDigits(s[..16])
  {
    DigitsThenEndFromCharacterised(s, 0, 16);
    if |s| >= 16 {
      assert forall j :: 0 <= j < 16 ==> s[..16][j] == s[j];
    }
  }

  /** The rule accepts "1234567890123456" and, through the end-anchor quirk, the
      same digits followed by a line feed. */
  lemma CardPatternExamples()
    ensures MatchesCardPattern("1234567890123456")
    ensures MatchesCardPattern("1234567890123456\n")
  {
    var d := "1234567890123456";
    assert AllDigits(d);
    CardPatternAcceptsDigits(d);
    assert d + "\n" == "1234567890123456\n";
  }

  /** Any sixteen ASCII digits pass the rule, alone or followed by a line feed. */
  lemma CardPatternAcceptsDigits(d: string)
    requires |d| == 16 && AllDigits(d)
    ensures MatchesCardPattern(d) && MatchesCardPattern(d + "\n")
  {
    CardPatternCharacterised(d);
    CardPatternCharacterised(d + "\n");
    assert (d + "\n")[..16] == d;
  }

  /** The rule rejects "", "1234", "123456789012345a" and seventeen digits. */
  lemma CardPatternRejects()
    ensures !MatchesCardPattern("")
    ensures !MatchesCardPattern("1234")
    ensures !MatchesCardPattern("123456789012345a")
    ensures !MatchesCardPattern("12345678901234567")
  {
    CardPatternCharacterised("123456789012345a");
    CardPatternCharacterised("12345678901234567");
    assert "123456789012345a"[..16][15] == 'a';
  }

  /** A string the pattern accepts starts with a digit, so it is never blank. */
  lemma CardPatternNotBlank(s: Option<string>)
    ensures s.Some? && MatchesCardPattern(s.value) ==> !IsNullOrWhiteSpace(s)
  {
    if s.Some? && MatchesCardPattern(s.value) {
      assert IsAsciiDigit(s.value[0]);
    }
  }

  /** The state every constructed card is in. */
  predicate ValidCard(c: Card) {
    c.id != Empty && MatchesCardPattern(c.number)
  }

  /** `new Card(id, number, creditLimit)`: empty id, then blank number, then the
      pattern; the number and limit are stored as given. The limit is not
      re-validated: whatever positivity it has comes from `Money`. */
  function NewCard(id: Guid, number: Option<string>, creditLimit: Money): (r: Outcome<Card>)
    ensures id == Empty ==> r == Err(DomainError("Card ID cannot be empty."))
    ensures id != Empty && IsNullOrWhiteSpace(number) ==> r == Err(DomainError("Card number is required."))
    ensures id != Empty && !IsNullOrWhiteSpace(number) && !MatchesCardPattern(number.value) ==>
              r == Err(DomainError(CardNumberFormat))
    ensures r.Ok? <==> id != Empty && number.Some? && MatchesCardPattern(number.value)
    ensures r.Ok? ==> r.value == Card(id, number.value, creditLimit) && ValidCard(r.value)
  {
    assert "Card ID" + " cannot be empty." == "Card ID cannot be empty.";
    assert "Card number" + " is required." == "Card number is required.";
    CardPatternNotBlank(number);
    var _ :- Guard.NotEmpty(id, "Card ID");
    var n :- Guard.NotNullOrWhiteSpace(number, "Card number");
    if !MatchesCardPattern(n) then Err(DomainError(CardNumberFormat))
    else Ok(Card(id, n, creditLimit))
  }

  // ---------------------------------------------------------------------
  // PurchaseTransaction

  datatype PurchaseTransaction = PurchaseTransaction(
    id: Guid,
    cardId: Guid,
    description: string,
    transactionDate: DateOnly,
    amount: Money)

  function DescriptionTooLong(): string {
    "Description" + " must not exceed " + NatToString(Constants.DescriptionMaxLength) + " characters."
  }

  /** A description as stored: trimmed, non-empty and within the length bound. */
  predicate ValidDescription(d: string) {
    && 0 < |d| && Utf16Length(d) <= Constants.DescriptionMaxLength
    && !IsWhiteSpace(d[0]) && !IsWhiteSpace(d[|d| - 1])
  }

  /** The state every constructed purchase is in. */
  predicate ValidPurchase(p: PurchaseTransaction) {
    p.id != Empty && p.cardId != Empty && ValidDescription(p.description)
  }

  /** `new PurchaseTransaction(id, cardId, description, date, amount)`: checks
      the purchase id, then the card id, then that the description is present,
      then its length after trimming; stores the trimmed description and the
      other fields unchanged. */
  function NewPurchase(id: Guid, cardId: Guid, description: Option<string>, transactionDate: DateOnly, amount: Money)
    : (r: Outcome<PurchaseTransaction>)
    ensures id == Empty ==> r == Err(DomainError("Purchase ID cannot be empty."))
    ensures id != Empty && cardId == Empty ==> r == Err(DomainError("Card ID cannot be empty."))
    ensures id != Empty && cardId != Empty && IsNullOrWhiteSpace(description) ==>
              r == Err(DomainError("Description is required."))
    ensures id != Empty && cardId != Empty && !IsNullOrWhiteSpace(description)
              && Utf16Length(Trim(description.value)) > Constants.DescriptionMaxLength ==>
              r == Err(DomainError(DescriptionTooLong()))
    ensures r.Ok? <==> && id != Empty && cardId != Empty && !IsNullOrWhiteSpace(description)
                       && Utf16Length(Trim(description.value)) <= Constants.DescriptionMaxLength
    ensures r.Ok? ==> r.value == PurchaseTransaction(id, cardId, Trim(description.value), transactionDate, amount)
    ensures r.Ok? ==> ValidPurchase(r.value)
  {
    assert "Purchase ID" + " cannot be empty." == "Purchase ID cannot be empty.";
    assert "Card ID" + " cannot be empty." == "Card ID cannot be empty.";
    var _ :- Guard.NotEmpty(id, "Purchase ID");
    var _ :- Guard.NotEmpty(cardId, "Card ID");
    var trimmed :- CheckDescription(description);
    Ok(PurchaseTransaction(id, cardId, trimmed, transactionDate, amount))
  }

  /** The description steps of the constructor: presence, trimming, then the
      length bound on the trimmed text. */
  function CheckDescription(description: Option<string>): (r: Outcome<string>)
    ensures IsNullOrWhiteSpace(description) ==> r == Err(DomainError("Description is required."))
    ensures !IsNullOrWhiteSpace(description) && Utf16Length(Trim(description.value)) > Constants.DescriptionMaxLength ==>
              r == Err(DomainError(DescriptionTooLong()))
    ensures r.Ok? <==> !IsNullOrWhiteSpace(description) && Utf16Length(Trim(description.value)) <= Constants.DescriptionMaxLength
    ensures r.Ok? ==> r.value == Trim(description.value) && ValidDescription(r.value)
  {
    assert "Description" + " is required." == "Description is required.";
    var present :- Guard.NotNullOrWhiteSpace(description, "Description");
    var trimmed := Trim(present);
    TrimOfNonBlank(present);
    var _ :- Guard.MaxLength(trimmed, Constants.DescriptionMaxLength, "Description");
    Ok(trimmed)
  }

  /** Trimming a string that is not blank leaves a non-empty text with
      non-white ends. */
  lemma TrimOfNonBlank(s: string)
    ensures !IsBlank(s) <==> Trim(s) != []
    ensures Trim(s) != [] ==> !IsWhiteSpace(Trim(s)[0]) && !IsWhiteSpace(Trim(s)[|Trim(s)| - 1])
  {
    BlankIffTrimEmpty(s);
  }

  /** "  Coffee  " is stored as "Coffee". */
  lemma DescriptionIsTrimmed(id: Guid, cardId: Guid, date: DateOnly, amount: Money)
    requires id != Empty && cardId != Empty
    ensures NewPurchase(id, cardId, Some("  Coffee  "), date, amount)
              == Ok(PurchaseTransaction(id, cardId, "Coffee", date, amount))
  {
    assert !IsBlank("  Coffee  ") && Trim("  Coffee  ") == "Coffee" by {
      assert "  Coffee  " == "  " + "Coffee" + "  ";
      TrimOfPadded("  ", "Coffee", "  ");
      assert !IsWhiteSpace("  Coffee  "[2]);
    }
  }

  /** The bound applies after trimming and counts UTF-16 code units: a text
      of fifty code units passes and one of fifty-one fails, whatever white
      space surrounds it; for a text within the Basic Multilingual Plane that
      is fifty characters. */
  lemma DescriptionLengthBoundary(id: Guid, cardId: Guid, date: DateOnly, amount: Money, l: string, d: string, r: string)
    requires id != Empty && cardId != Empty
    requires IsBlank(l) && IsBlank(r)
    requires d != [] && !IsWhiteSpace(d[0]) && !IsWhiteSpace(d[|d| - 1])
    ensures NewPurchase(id, cardId, Some(l + d + r), date, amount).Ok? <==> Utf16Length(d) <= 50
    ensures InBasicPlane(d) ==> (NewPurchase(id, cardId, Some(l + d + r), date, amount).Ok? <==> |d| <= 50)
  {
    var s := l + d + r;
    assert Trim(s) == d && !IsNullOrWhiteSpace(Some(s)) by {
      TrimOfPadded(l, d, r);
      assert s[|l|] == d[0];
    }
    assert InBasicPlane(d) ==> Utf16Length(d) == |d| by {
      Utf16LengthIsLength(d);
    }
  }

  /** Twenty-six characters beyond the Basic Multilingual Plane (say U+1F600)
      are fifty-two code units, so the description is refused as too long. */
  lemma AstralDescriptionRefused(id: Guid, cardId: Guid, date: DateOnly, amount: Money)
    requires id != Empty && cardId != Empty
    ensures var d := seq(26, _ => '\U{1F600}');
            |d| == 26 && NewPurchase(id, cardId, Some(d), date, amount) == Err(DomainError(DescriptionTooLong()))
  {
    var d := seq(26, _ => '\U{1F600}');
    AstralLength(d);
    assert !IsWhiteSpace(d[0]);
    TrimOfUnpadded(d);
  }

  /** A text of characters beyond the Basic Multilingual Plane takes two code units per character. */
  lemma {:induction false} AstralLength(s: string)
    requires forall i :: 0 <= i < |s| ==> s[i] as int > 0xFFFF
    ensures Utf16Length(s) == 2 * |s|
  {
    if s != [] {
      AstralLength(s[..|s| - 1]);
    }
  }

}
