/** The pure part of the Treasury exchange-rate provider
    (`TreasuryExchangeRateProvider.GetRateAsync`): the currency-to-country map,
    the request it sends, the reading of the first record of the answer, and
    the six-month recency window. The HTTP exchange itself is a function
    parameter from the request to what came back. */
module Treasury {
  import opened Results
  import opened Exceptions
  import opened Text
  import opened Calendar
  import opened DecimalParsing
  import opened Conversion
  import Constants

  /** The countries the Treasury reports rates for, by ISO 4217 code. */
  const CountryByCode: map<string, string> := map[
    "EUR" := "Euro Zone",
    "GBP" := "United Kingdom",
    "CAD" := "Canada",
    "JPY" := "Japan",
    "AUD" := "Australia",
    "CHF" := "Switzerland",
    "MXN" := "Mexico",
    "CNY" := "China",
    "INR" := "India",
    "BRL" := "Brazil",
    "KRW" := "Korea",
    "SGD" := "Singapore",
    "HKD" := "Hong Kong",
    "SEK" := "Sweden",
    "NOK" := "Norway",
    "DKK" := "Denmark",
    "NZD" := "New Zealand",
    "ZAR" := "South Africa",
    "THB" := "Thailand",
    "PHP" := "Philippines"
  ]

  /** Every key of the map is already upper case. */
  lemma CountryKeysAreUpper()
    ensures forall k :: k in CountryByCode ==> ToUpper(k) == k
  {
    forall k | k in CountryByCode
      ensures ToUpper(k) == k
    {
      assert forall i :: 0 <= i < |k| ==> 'A' <= k[i] <= 'Z';
      ToUpperOfUpper(k);
    }
  }

  /** `CurrencyCodeToCountry.TryGetValue(code, out country)` on a dictionary
      built with the ordinal case-insensitive comparer: a key matches when it
      equals `code` ignoring case. */
  function CountryOf(code: string): (c: Option<string>)
    ensures c.Some? ==> exists k :: k in CountryByCode && EqualsIgnoreCase(k, code) && c.value == CountryByCode[k]
    ensures forall k :: k in CountryByCode && EqualsIgnoreCase(k, code) ==> c == Some(CountryByCode[k])
  {
    CountryKeysAreUpper();
    forall k | k in CountryByCode
      ensures EqualsIgnoreCase(k, code) <==> k == ToUpper(code)
    {
      EqualsIgnoreCaseIffUpperEqual(k, code);
    }
    var key := ToUpper(code);
    if key in CountryByCode then Some(CountryByCode[key]) else None
  }

  // ---------------------------------------------------------------------
  // The request

  /** `record_date:lte:{yyyy-MM-dd},country:eq:{country}`. */
  function Filter(purchaseDate: DateOnly, country: string): string {
    FilterDatePrefix + FormatDate(purchaseDate) + FilterCountryPrefix + country
  }

  /** The filter can be read back: the prefixes, the date and the country each
      sit at a fixed place. */
  lemma FilterParts(purchaseDate: DateOnly, country: string)
    ensures var f := Filter(purchaseDate, country);
            && |f| == |FilterDatePrefix| + 10 + |FilterCountryPrefix| + |country|
            && f[..16] == FilterDatePrefix
            && ParseExactDate(Some(f[16..26])) == Some(purchaseDate)
            && f[26..38] == FilterCountryPrefix
            && f[38..] == country
  {
    var date := FormatDate(purchaseDate);
    assert |FilterDatePrefix| == 16 && |FilterCountryPrefix| == 12;
    SlicesOfFour(FilterDatePrefix, date, FilterCountryPrefix, country);
    ParseFormatRoundTrip(purchaseDate);
  }

  /** Each part of a four-part concatenation is the slice where it was put. */
  lemma SlicesOfFour(a: string, b: string, c: string, d: string)
    ensures var s := a + b + c + d;
            && s[..|a|] == a
            && s[|a|..|a| + |b|] == b
            && s[|a| + |b|..|a| + |b| + |c|] == c
            && s[|a| + |b| + |c|..] == d
  {
    var s := a + b + c + d;
    assert s == ((a + b) + c) + d;
    assert s[..|a| + |b| + |c|] == (a + b) + c;
    assert s[..|a| + |b|] == a + b;
  }

  /** The query of one rate lookup: the filter, the sort order and the page size. */
  datatype Request = Request(filter: string, sort: string, pageSize: nat)

  const FilterDatePrefix: string := "record_date:lte:"
  const FilterCountryPrefix: string := ",country:eq:"
  /** Newest record first. */
  const NewestFirst: string := "-record_date"

  function UnsupportedMessage(code: string): string {
    "Currency " + code + " is not supported."
  }

  /** `BuildExchangeRateRequestUri`: the newest record for the code's country
      dated on or before `purchaseDate`; an unknown code fails before any
      request exists. */
  function RateRequest(code: string, purchaseDate: DateOnly): (r: Outcome<Request>)
    ensures r.Err? <==> CountryOf(code).None?
    ensures r.Err? ==> r.error == ConversionFailure(UnsupportedMessage(code))
    ensures r.Ok? ==> r.value.sort == NewestFirst && r.value.pageSize == 1
    ensures r.Ok? ==> var f := r.value.filter;
              && |f| == |FilterDatePrefix| + 10 + |FilterCountryPrefix| + |CountryOf(code).value|
              && f[..16] == FilterDatePrefix
              && ParseExactDate(Some(f[16..26])) == Some(purchaseDate)
              && f[26..38] == FilterCountryPrefix
              && f[38..] == CountryOf(code).value
  {
    match CountryOf(code)
    case None => Err(ConversionFailure(UnsupportedMessage(code)))
    case Some(country) =>
      FilterParts(purchaseDate, country);
      Ok(Request(Filter(purchaseDate, country), NewestFirst, 1))
  }

  // ---------------------------------------------------------------------
  // The answer

  /** One record of the answer, with its two fields as the JSON carried them. */
  datatype Entry = Entry(recordDate: Option<string>, exchangeRate: Option<string>)

  /** What the HTTP exchange produced: a transport failure, or a decoded body
      whose `data` list may be missing (a `null` body or a body without
      `data` reads the same) and whose records may each be `null`. */
  datatype Payload = HttpFailure | Delivered(data: Option<seq<Option<Entry>>>)

  type Fetch = Request -> Payload

  const RetrievalFailed: string := "Unable to retrieve exchange rate. Please try again later."
  const ProcessingFailed: string := "Unable to process exchange rate data. Please try again later."

  /** The runtime's message for a member access through `null`. */
  const NullRecordMessage: string := "Object reference not set to an instance of an object."

  function NoRateMessage(code: string, purchaseDate: DateOnly): string {
    "No exchange rate available for " + code + " on or before " + FormatDate(purchaseDate) + "."
  }

  function StaleRateMessage(code: string, purchaseDate: DateOnly): string {
    "No exchange rate within " + NatToString(Constants.ExchangeRateValidityMonths) + " months of "
      + FormatDate(purchaseDate) + " for " + code + "."
  }

  /** `ParseDate`: the record date must be an exact `yyyy-MM-dd` date. */
  function ParseRecordDate(value: Option<string>): (r: Outcome<DateOnly>)
    ensures r.Ok? <==> ParseExactDate(value).Some?
    ensures r.Ok? ==> FormatDate(r.value) == value.value
    ensures r.Err? ==> r.error == ConversionFailure(ProcessingFailed)
  {
    match ParseExactDate(value)
    case None => Err(ConversionFailure(ProcessingFailed))
    case Some(d) => Ok(d)
  }

  /** `ParseRate`: the rate must be an invariant-culture decimal; its value
      is not range-checked. */
  function ParseRate(value: Option<string>): (r: Outcome<real>)
    ensures r.Ok? <==> ParseDecimal(value).Some?
    ensures r.Ok? ==> ParseDecimal(value) == Some(r.value)
    ensures r.Err? ==> r.error == ConversionFailure(ProcessingFailed)
  {
    match ParseDecimal(value)
    case None => Err(ConversionFailure(ProcessingFailed))
    case Some(v) => Ok(v)
  }

  /** Dates are totally ordered: not later means on or before. */
  lemma NotBeforeIsOnOrAfter(a: Date, b: Date)
    ensures !Before(a, b) <==> OnOrBefore(b, a)
  {
  }

  /** The recency test `rateDate > purchaseDate || rateDate < purchaseDate.AddMonths(-6)`,
      answering whether the rate may be used. `||` short-circuits, so
      `AddMonths` runs, and can throw, only for a rate not after the purchase. */
  function WithinWindow(rateDate: DateOnly, purchaseDate: DateOnly): (r: Outcome<bool>)
    ensures r == Ok(true) <==>
              && OnOrBefore(rateDate, purchaseDate)
              && AddMonths(purchaseDate, -(Constants.ExchangeRateValidityMonths as int)).Ok?
              && OnOrBefore(AddMonths(purchaseDate, -(Constants.ExchangeRateValidityMonths as int)).value, rateDate)
    ensures r.Err? <==> OnOrBefore(rateDate, purchaseDate)
                        && AddMonths(purchaseDate, -(Constants.ExchangeRateValidityMonths as int)).Err?
    ensures r.Err? ==> r.error == OutOfRange(DateArithmeticMessage)
  {
    NotBeforeIsOnOrAfter(purchaseDate, rateDate);
    if Before(purchaseDate, rateDate) then Ok(false)
    else
      var earliest :- AddMonths(purchaseDate, -(Constants.ExchangeRateValidityMonths as int));
      NotBeforeIsOnOrAfter(rateDate, earliest);
      Ok(!Before(rateDate, earliest))
  }

  /** `GetRateAsync(currency, purchaseDate)`: the code is normalised, the
      request built (an unsupported code fails here, before any fetch), and
      only the first record of the answer is read; the rate is returned under
      the normalised code when its date lies in the window. */
  function GetRate(currency: string, purchaseDate: DateOnly, fetch: Fetch): (r: Outcome<ExchangeRateResult>)
    ensures CountryOf(NormalizeCode(currency)).None? ==>
              r == Err(ConversionFailure(UnsupportedMessage(NormalizeCode(currency))))
    ensures r.Ok? ==> r.value.currency == NormalizeCode(currency)
    ensures r.Ok? ==> var answer := fetch(RateRequest(NormalizeCode(currency), purchaseDate).value);
              && answer.Delivered? && answer.data.Some? && |answer.data.value| > 0
              && answer.data.value[0].Some?
              && ParseExactDate(answer.data.value[0].value.recordDate) == Some(r.value.rateDate)
              && ParseDecimal(answer.data.value[0].value.exchangeRate) == Some(r.value.rate)
    ensures r.Ok? ==> WithinWindow(r.value.rateDate, purchaseDate) == Ok(true)
  {
    var code := NormalizeCode(currency);
    var request :- RateRequest(code, purchaseDate);
    ReadAnswer(fetch(request), code, purchaseDate)
  }

  /** What `GetRateAsync` makes of the HTTP exchange once the request is sent:
      a transport failure, no data, an unreadable first record, a rate outside
      the window, or the first record's rate under `code`. */
  function ReadAnswer(answer: Payload, code: string, purchaseDate: DateOnly): (r: Outcome<ExchangeRateResult>)
    ensures answer.HttpFailure? ==> r == Err(ConversionFailure(RetrievalFailed))
    ensures answer.Delivered? && (answer.data.None? || answer.data.value == []) ==>
              r == Err(ConversionFailure(NoRateMessage(code, purchaseDate)))
    ensures answer.Delivered? && answer.data.Some? && |answer.data.value| > 0 && answer.data.value[0].None? ==>
              r == Err(NullReference(NullRecordMessage))
    ensures r.Ok? ==> r.value.currency == code
    ensures r.Ok? ==>
              && answer.Delivered? && answer.data.Some? && |answer.data.value| > 0
              && answer.data.value[0].Some?
              && ParseExactDate(answer.data.value[0].value.recordDate) == Some(r.value.rateDate)
              && ParseDecimal(answer.data.value[0].value.exchangeRate) == Some(r.value.rate)
    ensures r.Ok? ==> WithinWindow(r.value.rateDate, purchaseDate) == Ok(true)
  {
    match answer
    case HttpFailure => Err(ConversionFailure(RetrievalFailed))
    case Delivered(data) =>
      if data.None? || |data.value| == 0 then Err(ConversionFailure(NoRateMessage(code, purchaseDate)))
      else
        var entry :- NonNullRecord(data.value[0]);
        ReadRecord(entry, code, purchaseDate)
  }

  /** The first record once it is known not to be `null`: its date, then its
      rate, then the window. */
  function ReadRecord(entry: Entry, code: string, purchaseDate: DateOnly): (r: Outcome<ExchangeRateResult>)
    ensures ParseExactDate(entry.recordDate).None? ==> r == Err(ConversionFailure(ProcessingFailed))
    ensures ParseDecimal(entry.exchangeRate).None? ==> r == Err(ConversionFailure(ProcessingFailed))
    ensures r.Ok? ==>
              && r.value.currency == code
              && ParseExactDate(entry.recordDate) == Some(r.value.rateDate)
              && ParseDecimal(entry.exchangeRate) == Some(r.value.rate)
              && WithinWindow(r.value.rateDate, purchaseDate) == Ok(true)
  {
    var rateDate :- ParseRecordDate(entry.recordDate);
    var rate :- ParseRate(entry.exchangeRate);
    var recent :- WithinWindow(rateDate, purchaseDate);
    if !recent then Err(ConversionFailure(StaleRateMessage(code, purchaseDate)))
    else Ok(ExchangeRateResult(rateDate, rate, code))
  }

  /** What a non-null first record decides, stated on the parsers themselves:
      an unreadable date, then an unreadable rate, is a processing failure;
      otherwise the window decides between the rate, the recency refusal and
      the `AddMonths` exception. */
  function RecordOutcome(e: Entry, code: string, purchaseDate: DateOnly): Outcome<ExchangeRateResult> {
    if ParseExactDate(e.recordDate).None? || ParseDecimal(e.exchangeRate).None? then
      Err(ConversionFailure(ProcessingFailed))
    else
      var rateDate := ParseExactDate(e.recordDate).value;
      match WithinWindow(rateDate, purchaseDate)
      case Err(err) => Err(err)
      case Ok(recent) =>
        if recent then Ok(ExchangeRateResult(rateDate, ParseDecimal(e.exchangeRate).value, code))
        else Err(ConversionFailure(StaleRateMessage(code, purchaseDate)))
  }

  /** Only the first record is read, whatever follows it. */
  lemma ReadFirstRecord(answer: Payload, code: string, purchaseDate: DateOnly)
    ensures answer.Delivered? && answer.data.Some? && |answer.data.value| > 0 && answer.data.value[0].Some? ==>
              ReadAnswer(answer, code, purchaseDate) == RecordOutcome(answer.data.value[0].value, code, purchaseDate)
  {
    if answer.Delivered? && answer.data.Some? && |answer.data.value| > 0 && answer.data.value[0].Some? {
      var e := answer.data.value[0].value;
      assert NonNullRecord(answer.data.value[0]) == Ok(e);
      assert ReadAnswer(answer, code, purchaseDate) == ReadRecord(e, code, purchaseDate);
      ReadRecordOutcome(e, code, purchaseDate);
    }
  }

  /** `ReadRecord`, which goes through `ParseDate` and `ParseRate`, decides
      exactly as `RecordOutcome` says. */
  lemma ReadRecordOutcome(e: Entry, code: string, purchaseDate: DateOnly)
    ensures ReadRecord(e, code, purchaseDate) == RecordOutcome(e, code, purchaseDate)
  {
    if ParseExactDate(e.recordDate).Some? && ParseDecimal(e.exchangeRate).Some? {
      assert ParseRecordDate(e.recordDate) == Ok(ParseExactDate(e.recordDate).value);
      assert ParseRate(e.exchangeRate) == Ok(ParseDecimal(e.exchangeRate).value);
    }
  }

  /** `GetRateAsync` for any transport whose answer to the built request
      starts with a non-null record: that record alone decides. */
  lemma GetRateReadsFirstRecord(currency: string, purchaseDate: DateOnly, fetch: Fetch)
    ensures var code := NormalizeCode(currency);
            var request := RateRequest(code, purchaseDate);
            request.Ok? ==> var answer := fetch(request.value);
              answer.Delivered? && answer.data.Some? && |answer.data.value| > 0 && answer.data.value[0].Some? ==>
                GetRate(currency, purchaseDate, fetch) == RecordOutcome(answer.data.value[0].value, code, purchaseDate)
  {
    var code := NormalizeCode(currency);
    var request := RateRequest(code, purchaseDate);
    if request.Ok? {
      assert GetRate(currency, purchaseDate, fetch) == ReadAnswer(fetch(request.value), code, purchaseDate);
      ReadFirstRecord(fetch(request.value), code, purchaseDate);
    }
  }

  /** Reading a field of the first record: a `null` record throws. */
  function NonNullRecord(record: Option<Entry>): (r: Outcome<Entry>)
    ensures r.Ok? <==> record.Some?
    ensures r.Ok? ==> r.value == record.value
    ensures r.Err? ==> r.error == NullReference(NullRecordMessage)
  {
    match record
    case None => Err(NullReference(NullRecordMessage))
    case Some(entry) => Ok(entry)
  }

  /** The provider the converter is wired to in production. */
  function TreasuryProvider(fetch: Fetch): (p: RateProvider)
    ensures forall currency, date :: CountryOf(NormalizeCode(currency)).None? ==>
              p(currency, date) == Err(ConversionFailure(UnsupportedMessage(NormalizeCode(currency))))
    ensures forall currency, date :: p(currency, date).Ok? ==>
              && p(currency, date).value.currency == NormalizeCode(currency)
              && WithinWindow(p(currency, date).value.rateDate, date) == Ok(true)
  {
    (currency: string, date: DateOnly) => GetRate(currency, date, fetch)
  }

  // ---------------------------------------------------------------------
  // The recency window at its edges

  /** A rate dated exactly six months (by `AddMonths`) before the purchase is
      accepted, one dated a day earlier is refused, and so is one dated the
      day after the purchase. */
  lemma WindowEdges(purchaseDate: DateOnly)
    requires AddMonths(purchaseDate, -6).Ok?
    ensures WithinWindow(AddMonths(purchaseDate, -6).value, purchaseDate) == Ok(true)
    ensures var earlier := PreviousDay(AddMonths(purchaseDate, -6).value);
            earlier.Some? ==> WithinWindow(earlier.value, purchaseDate) == Ok(false)
    ensures var later := NextDay(purchaseDate);
            later.Some? ==> WithinWindow(later.value, purchaseDate) == Ok(false)
  {
    var earliest := AddMonths(purchaseDate, -6).value;
    AddMonthsBackIsEarlier(purchaseDate, -6);
  }

  /** The boundary cases of the provider's tests, and the day clamping at a
      month end: from 2024-08-31 the window opens on 2024-02-29. */
  lemma WindowExamples()
    ensures WithinWindow(Date(2023, 12, 15), Date(2024, 6, 15)) == Ok(true)
    ensures WithinWindow(Date(2023, 12, 14), Date(2024, 6, 15)) == Ok(false)
    ensures WithinWindow(Date(2024, 6, 16), Date(2024, 6, 15)) == Ok(false)
    ensures WithinWindow(Date(2024, 2, 29), Date(2024, 8, 31)) == Ok(true)
    ensures WithinWindow(Date(2024, 2, 28), Date(2024, 8, 31)) == Ok(false)
  {
    AddMonthsClampsDay();
    AddMonthsKeepsDay();
  }

  /** Near the start of the calendar the window cannot be computed: a rate
      not after a purchase on 0001-03-01 makes `AddMonths` throw, while a
      later rate is refused before `AddMonths` runs. */
  lemma WindowAtCalendarStart()
    ensures WithinWindow(Date(1, 2, 1), Date(1, 3, 1)) == Err(OutOfRange(DateArithmeticMessage))
    ensures WithinWindow(Date(1, 3, 2), Date(1, 3, 1)) == Ok(false)
  {
    AddMonthsBeforeYearOne();
  }

  // ---------------------------------------------------------------------
  // The provider as a whole

  /** An unsupported code fails the same way whatever the network would have
      answered: no request is made. */
  lemma UnsupportedIgnoresFetch(currency: string, purchaseDate: DateOnly, f1: Fetch, f2: Fetch)
    requires CountryOf(NormalizeCode(currency)).None?
    ensures GetRate(currency, purchaseDate, f1) == GetRate(currency, purchaseDate, f2)
  {
  }

  /** The provider asks exactly one question: two transports that answer the
      built request alike give the same result. */
  lemma GetRateAsksOneRequest(currency: string, purchaseDate: DateOnly, f1: Fetch, f2: Fetch)
    requires RateRequest(NormalizeCode(currency), purchaseDate).Ok?
    requires var q := RateRequest(NormalizeCode(currency), purchaseDate).value;
             f1(q) == f2(q)
    ensures GetRate(currency, purchaseDate, f1) == GetRate(currency, purchaseDate, f2)
  {
  }

  /** "eur" finds the Euro Zone. */
  lemma CountryOfKnown()
    ensures CountryOf("eur") == Some("Euro Zone")
  {
    assert ToUpper("eur") == "EUR";
  }

  /** "XYZ" is not in the map. */
  lemma CountryOfUnknown()
    ensures CountryOf("XYZ") == None
  {
    ToUpperOfUpper("XYZ");
    assert "XYZ" !in CountryByCode by {
      assert forall k :: k in CountryByCode ==> k[0] != 'X';
    }
  }

  /** The request for EUR on 2024-06-15. */
  lemma RateRequestExample()
    ensures RateRequest("EUR", Date(2024, 6, 15))
              == Ok(Request("record_date:lte:2024-06-15,country:eq:Euro Zone", "-record_date", 1))
  {
    calc {
      RateRequest("EUR", Date(2024, 6, 15));
      { EurKnown(); RateRequestOf("EUR", "Euro Zone", Date(2024, 6, 15)); }
      Ok(Request(FilterDatePrefix + FormatDate(Date(2024, 6, 15)) + FilterCountryPrefix + "Euro Zone", NewestFirst, 1));
      { FormatDateExample(); }
      Ok(Request(FilterDatePrefix + "2024-06-15" + FilterCountryPrefix + "Euro Zone", NewestFirst, 1));
      { EuroZoneFilterText(); }
      Ok(Request("record_date:lte:2024-06-15,country:eq:Euro Zone", "-record_date", 1));
    }
  }

  /** For a supported code, the request filters on the formatted date and the
      code's country. */
  lemma RateRequestOf(code: string, country: string, purchaseDate: DateOnly)
    requires CountryOf(code) == Some(country)
    ensures RateRequest(code, purchaseDate)
              == Ok(Request(FilterDatePrefix + FormatDate(purchaseDate) + FilterCountryPrefix + country, NewestFirst, 1))
  {
  }

  lemma EuroZoneFilterText()
    ensures FilterDatePrefix + "2024-06-15" + FilterCountryPrefix + "Euro Zone"
            == "record_date:lte:2024-06-15,country:eq:Euro Zone"
  {
  }

  lemma UnsupportedXyz()
    ensures UnsupportedMessage("XYZ") == "Currency XYZ is not supported."
  {
  }

  /** XYZ is refused before any request is built, whatever the purchase date. */
  lemma RateRequestUnsupportedExample(purchaseDate: DateOnly)
    ensures RateRequest("XYZ", purchaseDate) == Err(ConversionFailure("Currency XYZ is not supported."))
  {
    calc {
      RateRequest("XYZ", purchaseDate);
      { CountryOfUnknown(); }
      Err(ConversionFailure(UnsupportedMessage("XYZ")));
      { UnsupportedXyz(); }
      Err(ConversionFailure("Currency XYZ is not supported."));
    }
  }

  // ---------------------------------------------------------------------
  // The provider's test scenarios

  /** A transport that answers every request with one record, dated
      `rateDate` in `yyyy-MM-dd` form and carrying `rate` as text. */
  function AnswerWith(rateDate: DateOnly, rate: string): Fetch {
    (q: Request) => Delivered(Some([Some(Entry(Some(FormatDate(rateDate)), Some(rate)))]))
  }

  lemma CadKnown()
    ensures NormalizeCode("CAD") == "CAD"
    ensures CountryOf("CAD") == Some("Canada")
  {
    var c := "CAD";
    assert c[0] == 'C' && c[2] == 'D';
    TrimOfUnpadded(c);
    assert ToUpper(c) == c;
  }

  lemma EurKnown()
    ensures NormalizeCode("EUR") == "EUR"
    ensures CountryOf("EUR") == Some("Euro Zone")
  {
    var c := "EUR";
    assert c[0] == 'E' && c[2] == 'R';
    TrimOfUnpadded(c);
    assert ToUpper(c) == c;
  }

  /** Over a transport that answers with one well-formed record, the
      provider's answer is decided by the window alone. */
  lemma GetRateOfOneRecord(code: string, purchaseDate: DateOnly, rateDate: DateOnly, text: string, rate: real)
    requires NormalizeCode(code) == code && CountryOf(code).Some?
    requires ParseDecimal(Some(text)) == Some(rate)
    ensures GetRate(code, purchaseDate, AnswerWith(rateDate, text))
              == match WithinWindow(rateDate, purchaseDate)
                 case Err(e) => Err(e)
                 case Ok(recent) =>
                   if recent then Ok(ExchangeRateResult(rateDate, rate, code))
                   else Err(ConversionFailure(StaleRateMessage(code, purchaseDate)))
  {
    var q := RateRequest(code, purchaseDate).value;
    assert GetRate(code, purchaseDate, AnswerWith(rateDate, text))
             == ReadAnswer(AnswerWith(rateDate, text)(q), code, purchaseDate);
    ReadOneRecord(rateDate, text, rate, code, purchaseDate);
  }

  /** One well-formed record: the window alone decides. */
  lemma ReadOneRecord(rateDate: DateOnly, text: string, rate: real, code: string, purchaseDate: DateOnly)
    requires ParseDecimal(Some(text)) == Some(rate)
    ensures ReadAnswer(Delivered(Some([Some(Entry(Some(FormatDate(rateDate)), Some(text)))])), code, purchaseDate)
              == match WithinWindow(rateDate, purchaseDate)
                 case Err(e) => Err(e)
                 case Ok(recent) =>
                   if recent then Ok(ExchangeRateResult(rateDate, rate, code))
                   else Err(ConversionFailure(StaleRateMessage(code, purchaseDate)))
  {
    ParseFormatRoundTrip(rateDate);
    assert ParseRecordDate(Some(FormatDate(rateDate))) == Ok(rateDate);
    assert ParseRate(Some(text)) == Ok(rate);
  }

  /** A rate dated exactly six months before the purchase is returned under
      the requested code, whatever well-formed rate the record carries. */
  lemma GetRateSixMonthsOld(text: string, rate: real)
    requires ParseDecimal(Some(text)) == Some(rate)
    ensures GetRate("CAD", Date(2024, 6, 15), AnswerWith(Date(2023, 12, 15), text))
              == Ok(ExchangeRateResult(Date(2023, 12, 15), rate, "CAD"))
  {
    var window := WithinWindow(Date(2023, 12, 15), Date(2024, 6, 15));
    calc {
      GetRate("CAD", Date(2024, 6, 15), AnswerWith(Date(2023, 12, 15), text));
      { CadKnown(); GetRateOfOneRecord("CAD", Date(2024, 6, 15), Date(2023, 12, 15), text, rate); }
      match window
      case Err(e) => Err(e)
      case Ok(recent) =>
        if recent then Ok(ExchangeRateResult(Date(2023, 12, 15), rate, "CAD"))
        else Err(ConversionFailure(StaleRateMessage("CAD", Date(2024, 6, 15))));
      { assert window == Ok(true) by { WindowExamples(); } }
      Ok(ExchangeRateResult(Date(2023, 12, 15), rate, "CAD"));
    }
  }

  /** A rate a day older than that is refused with the recency message. */
  lemma GetRateTooOld(text: string, rate: real)
    requires ParseDecimal(Some(text)) == Some(rate)
    ensures GetRate("EUR", Date(2024, 6, 15), AnswerWith(Date(2023, 12, 14), text))
              == Err(ConversionFailure(StaleRateMessage("EUR", Date(2024, 6, 15))))
  {
    var window := WithinWindow(Date(2023, 12, 14), Date(2024, 6, 15));
    calc {
      GetRate("EUR", Date(2024, 6, 15), AnswerWith(Date(2023, 12, 14), text));
      { EurKnown(); GetRateOfOneRecord("EUR", Date(2024, 6, 15), Date(2023, 12, 14), text, rate); }
      match window
      case Err(e) => Err(e)
      case Ok(recent) =>
        if recent then Ok(ExchangeRateResult(Date(2023, 12, 14), rate, "EUR"))
        else Err(ConversionFailure(StaleRateMessage("EUR", Date(2024, 6, 15))));
      { assert window == Ok(false) by { WindowExamples(); } }
      Err(ConversionFailure(StaleRateMessage("EUR", Date(2024, 6, 15))));
    }
  }

  /** A rate dated after the purchase is refused, for any supported code and
      any well-formed rate; `AddMonths` is never reached. */
  lemma GetRateFromTheFuture(code: string, purchaseDate: DateOnly, rateDate: DateOnly, text: string, rate: real)
    requires NormalizeCode(code) == code && CountryOf(code).Some?
    requires ParseDecimal(Some(text)) == Some(rate)
    requires Before(purchaseDate, rateDate)
    ensures GetRate(code, purchaseDate, AnswerWith(rateDate, text))
              == Err(ConversionFailure(StaleRateMessage(code, purchaseDate)))
  {
    assert WithinWindow(rateDate, purchaseDate) == Ok(false);
    GetRateOfOneRecord(code, purchaseDate, rateDate, text, rate);
  }

  /** An empty `data` list, a missing one and a transport failure. */
  lemma GetRateWithoutData()
    ensures GetRate("EUR", Date(2024, 6, 15), (q: Request) => Delivered(Some([])))
              == Err(ConversionFailure(NoRateMessage("EUR", Date(2024, 6, 15))))
    ensures GetRate("EUR", Date(2024, 6, 15), (q: Request) => Delivered(None))
              == Err(ConversionFailure(NoRateMessage("EUR", Date(2024, 6, 15))))
    ensures GetRate("EUR", Date(2024, 6, 15), (q: Request) => HttpFailure)
              == Err(ConversionFailure(RetrievalFailed))
  {
    EurKnown();
  }

  /** A `null` first record is not caught: whatever follows it, the lookup
      fails with the runtime's null-reference error rather than a conversion
      failure. */
  lemma GetRateNullRecord(rest: seq<Option<Entry>>)
    ensures GetRate("EUR", Date(2024, 6, 15), (q: Request) => Delivered(Some([None] + rest)))
              == Err(NullReference(NullRecordMessage))
  {
    EurKnown();
  }

  /** The rate is not range-checked: a negative rate is returned as it came. */
  lemma GetRateNegativeRate(text: string, rate: real)
    requires ParseDecimal(Some(text)) == Some(rate) && rate < 0.0
    ensures GetRate("EUR", Date(2024, 6, 15), AnswerWith(Date(2023, 12, 15), text))
              == Ok(ExchangeRateResult(Date(2023, 12, 15), rate, "EUR"))
  {
    var window := WithinWindow(Date(2023, 12, 15), Date(2024, 6, 15));
    calc {
      GetRate("EUR", Date(2024, 6, 15), AnswerWith(Date(2023, 12, 15), text));
      { EurKnown(); GetRateOfOneRecord("EUR", Date(2024, 6, 15), Date(2023, 12, 15), text, rate); }
      match window
      case Err(e) => Err(e)
      case Ok(recent) =>
        if recent then Ok(ExchangeRateResult(Date(2023, 12, 15), rate, "EUR"))
        else Err(ConversionFailure(StaleRateMessage("EUR", Date(2024, 6, 15))));
      { assert window == Ok(true) by { WindowExamples(); } }
      Ok(ExchangeRateResult(Date(2023, 12, 15), rate, "EUR"));
    }
  }

  /** A record date that is not `yyyy-MM-dd` cannot be processed. */
  lemma GetRateBadDate()
    ensures GetRate("EUR", Date(2024, 6, 15),
                    (q: Request) => Delivered(Some([Some(Entry(Some("2024/01/15"), Some("1.10")))])))
              == Err(ConversionFailure(ProcessingFailed))
  {
    EurKnown();
    ParseExactDateRejectsShape();
  }
}
