# A verified model of the wex card ledger

This project is a Dafny model of the domain and application core of *wex*, a small credit-card ledger written in C#. In the ledger:

- cards have a 16-digit number and a credit limit in US dollars;
- purchases are recorded against a card as long as the card's limit is not exceeded;
- a card's available balance, or a single purchase, can be reported in a foreign currency;
- foreign-currency reports use the latest US Treasury exchange rate that is at most six months old.

The model follows the C# code branch by branch. It keeps the same checks, in the same order, with the same exception messages. It proves what the code promises.

## Modules

| module | file | what it models |
|---|---|---|
| `Results` | `results.dfy` | the value-or-exception and nullable types shared by the modules |
| `Exceptions` | `exceptions.dfy` | the exception hierarchy, as one error type |
| `Text` | `text.dfy` | `char.IsWhiteSpace`, `Trim`, `ToUpperInvariant`, ordinal case-insensitive comparison, and decimal rendering |
| `Constants` | `constants.dfy` | `USD`, 2 decimal places, a 50-character description limit, a 6-month window |
| `Guids` | `guid.dfy` | `Guid` as a 128-bit number with its text form |
| `Guard` | `guard.dfy` | the three argument guards |
| `ValueObjects` | `money.dfy` | `Money`: rounding, `From` and `Usd` |
| `Calendar` | `calendar.dfy` | `DateOnly`: `AddMonths`, the `yyyy-MM-dd` format and exact parsing |
| `Entities` | `entities.dfy` | `Card` and `PurchaseTransaction` with their constructors, including the `^[0-9]{16}$` rule |
| `Conversion` | `conversion.dfy` | `CurrencyConverter.ConvertAsync` and `ConversionResult` |
| `DecimalParsing` | `numberparse.dfy` | `decimal.TryParse` with `NumberStyles.Number` in the invariant culture |
| `Treasury` | `treasury.dfy` | the pure part of the Treasury rate provider |
| `Repositories` | `repositories.dfy` | the in-memory card and purchase repositories |
| `Services` | `services.dfy` | `CardService` and `PurchaseService` |
| `Ledger` | `ledger.dfy` | the store invariant the services keep, and their behaviour across calls |
| `Scenarios` | `scenarios.dfy` | the service scenarios of the test suite, on a seeded store |

### How the C# program is represented

- **Values.** Amounts and rates are exact `real`s. A nullable string is an `Option<string>`. A method that may throw returns `Outcome<T>`: either the value or the exception it would throw, with its message.
- **Order of checks.** C# evaluates arguments before the callee runs. So `new Card(Guid.NewGuid(), number, Money.Usd(limit))` rejects a bad limit before the card constructor looks at the number. `AddAsync` works the same way with `Money.Usd(rounded)`, which is checked before the description.
- **Services.** Each service is a function from the store to the exception it throws, or to its response together with the new store. A call that throws therefore stores nothing.
- **Fresh ids.** The id `Guid.NewGuid()` would produce is a parameter. The services require only that it is not `Guid.Empty`. The invariant lemmas also require it to be unused.
- **The HTTP call.** The provider's HTTP exchange is a parameter: a function from the request to what came back.
- **The rate provider.** The converter takes the rate provider as a function parameter, as the test double does.

## Model

| member | source | states |
|---|---|---|
| `ValueObjects.Round` | src/Wex.Domain/ValueObjects/Money.cs:31-32 | the result is a whole number of cents, within half a cent of the input, with the input's sign |
| `ValueObjects.RoundCharacterised` | src/Wex.Domain/ValueObjects/Money.cs:31-32 | `c == Round(x)` exactly when `c` is the cents value nearest `x`, with ties going away from zero; this is an independent description, proved in both directions |
| `ValueObjects.RoundIsHalfAway` | src/Wex.Domain/ValueObjects/Money.cs:31-32 | `Round` meets the independent half-away-from-zero description |
| `ValueObjects.HalfAwayRoundingIsRound` | src/Wex.Domain/ValueObjects/Money.cs:31-32 | only one whole-cent value meets that description, so it is `Round(x)` |
| `ValueObjects.RoundNegation` | src/Wex.Domain/ValueObjects/Money.cs:31-32 | `Round(-x) == -Round(x)` |
| `ValueObjects.RoundIdempotent` | src/Wex.Domain/ValueObjects/Money.cs:31-32 | rounding twice is rounding once |
| `ValueObjects.RoundFixesCents` | src/Wex.Domain/ValueObjects/Money.cs:31-32 | a whole number of cents is left unchanged |
| `ValueObjects.RoundMonotonic` | src/Wex.Domain/ValueObjects/Money.cs:31-32 | rounding never reverses the order of two amounts |
| `ValueObjects.RoundExamples` | src/Wex.Domain/ValueObjects/Money.cs:31-32 | 10.555 → 10.56 and −10.555 → −10.56 (ties go away from zero); 10.554 → 10.55; 0.005 → 0.01; 0.004 → 0 |
| `ValueObjects.From` | src/Wex.Domain/ValueObjects/Money.cs:18-29 | a blank currency fails first with "Currency is required."; then an amount ≤ 0 fails; otherwise the amount is rounded and the code upper-cased |
| `ValueObjects.Usd` | src/Wex.Domain/ValueObjects/Money.cs:16 | succeeds exactly for a positive amount, giving the rounded amount in "USD" |
| `ValueObjects.FromAmountInvariant` | src/Wex.Domain/ValueObjects/Money.cs:22-28 | a constructed amount is a non-negative number of cents; it is zero exactly when the raw amount was below half a cent, because positivity is checked before rounding |
| `ValueObjects.SubCentAmountBecomesZero` | src/Wex.Domain/ValueObjects/Money.cs:22-28 | `Usd(0.004)` succeeds with amount 0 |
| `ValueObjects.UsdExamples` | tests/Wex.Tests/Domain/MoneyTests.cs:10-21 | `Usd(10.555)` holds 10.56 and `Usd(0)` fails |
| `Guard.NotNullOrWhiteSpace` | src/Wex.Domain/Guard.cs:7-14 | fails exactly for null or all-white-space input, with "<name> is required."; otherwise returns the input untrimmed |
| `Guard.MaxLength` | src/Wex.Domain/Guard.cs:16-23 | fails exactly when the length, counted in UTF-16 code units as `string.Length` counts it, exceeds the bound, with the bound in the message; otherwise returns the input |
| `Guard.NotEmpty` | src/Wex.Domain/Guard.cs:25-32 | fails exactly for `Guid.Empty`; otherwise returns the input |
| `Guard.NotNullOrWhiteSpaceExamples` | tests/Wex.Tests/Domain/GuardTests.cs:9-27 | "valid" and "  valid  " pass unchanged; null, "" and "   " fail |
| `Guard.MaxLengthExamples` | tests/Wex.Tests/Domain/GuardTests.cs:28-48 | a value within the limit or exactly at it passes; "hello world" fails a limit of 5 |
| `Text.WhiteSpaceListed` | src/Wex.Domain/Guard.cs:9 | the white-space test behind `IsNullOrWhiteSpace` and `Trim` (`Text.IsWhiteSpace`) accepts exactly the 25 characters of the .NET list: U+0009–U+000D, space, U+0085, U+00A0, U+1680, U+2000–U+200A, U+2028, U+2029, U+202F, U+205F and U+3000 |
| `Text.Utf16Length` | src/Wex.Domain/Guard.cs:18 | `string.Length`: one code unit per character of the Basic Multilingual Plane and two per character beyond it, so between `|s|` and `2|s|` |
| `Text.Utf16LengthAppend` | src/Wex.Domain/Guard.cs:18 | the code-unit length of a concatenation is the sum of the lengths |
| `Text.Utf16LengthIsLength` | src/Wex.Domain/Guard.cs:18 | the code-unit length equals the character count exactly when every character lies in the Basic Multilingual Plane |
| `Text.WhiteSpaceIsOneUnit` | src/Wex.Domain/Entities/PurchaseTransaction.cs:18-19 | every white-space character is one code unit, so trimming removes one unit per character dropped |
| `Text.Trim` | src/Wex.Domain/Entities/PurchaseTransaction.cs:18 | the result has no white space at either end |
| `Text.TrimCharacterised` | src/Wex.Domain/Entities/PurchaseTransaction.cs:18 | the result is the infix of the input after its leading white space, with only white space dropped around it |
| `Text.TrimOfPadded` | src/Wex.Domain/Entities/PurchaseTransaction.cs:18 | trimming white padding off a text whose ends are not white gives back exactly that text |
| `Text.BlankIffTrimEmpty` | src/Wex.Domain/Guard.cs:9 | a string is blank exactly when trimming leaves nothing |
| `Text.ToUpper` | src/Wex.Application/Services/CurrencyConverter.cs:17 | upper-cases character by character and keeps the length |
| `Text.ToUpperIdempotent` | src/Wex.Application/Services/CurrencyConverter.cs:17 | no lower-case letter remains, and upper-casing twice is upper-casing once |
| `Text.EqualsIgnoreCaseIffUpperEqual` | src/Wex.Application/Services/ConversionResult.cs:12 | ordinal case-insensitive equality is equality after upper-casing |
| `Text.PadDigitsUnique` | src/Wex.Application/Services/TreasuryExchangeRateProvider.cs:89 | a zero-padded rendering is the only digit string of its width with its value |
| `Text.NatToString` | src/Wex.Domain/Guard.cs:20 | the shortest digit string spelling the number, with no leading zero |
| `Text.DigitsValueInjective` | src/Wex.Application/Services/TreasuryExchangeRateProvider.cs:89 | two digit strings of the same width with the same value are equal |
| `Entities.CardPatternCharacterised` | src/Wex.Domain/Entities/Card.cs:9 | the pattern matches exactly 16 ASCII digits, optionally followed by one line feed, because of how .NET's `$` behaves |
| `Entities.DigitsThenEndFromCharacterised` | src/Wex.Domain/Entities/Card.cs:9 | the tail matcher for `[0-9]{k}$` accepts exactly k ASCII digits followed by the end, or by one final line feed |
| `Entities.CardPatternNotBlank` | src/Wex.Domain/Entities/Card.cs:17-23 | a number the pattern accepts is never blank, so the blank check and the pattern check never both fail |
| `Entities.CardPatternAcceptsDigits` | src/Wex.Domain/Entities/Card.cs:9 | every string of sixteen ASCII digits is accepted, with or without one trailing line feed |
| `Entities.CardPatternExamples` | tests/Wex.Tests/Domain/CardTests.cs:11-22 | sixteen digits are accepted, and so are sixteen digits followed by a line feed |
| `Entities.CardPatternRejects` | tests/Wex.Tests/Domain/CardTests.cs:24-32 | "", "1234", "123456789012345a" and seventeen digits are rejected |
| `Entities.NewCard` | src/Wex.Domain/Entities/Card.cs:15-28 | an empty id fails, then a blank number, then a number the pattern rejects; on success the id, number and limit are stored unchanged, and the limit is not re-checked |
| `Entities.NewPurchase` | src/Wex.Domain/Entities/PurchaseTransaction.cs:14-26 | the purchase id is checked, then the card id, then the description's presence, then its trimmed length in UTF-16 code units; on success the description is stored trimmed and everything else unchanged |
| `Entities.CheckDescription` | src/Wex.Domain/Entities/PurchaseTransaction.cs:18-19 | the description must be present, and the bound of 50 code units applies after trimming |
| `Entities.DescriptionIsTrimmed` | tests/Wex.Tests/Domain/PurchaseTransactionTests.cs:57-64 | "  Coffee  " is stored as "Coffee" |
| `Entities.DescriptionLengthBoundary` | src/Wex.Domain/Entities/PurchaseTransaction.cs:18-19 | whatever white space surrounds it, a text is accepted exactly when it has at most 50 UTF-16 code units; for a text inside the Basic Multilingual Plane that is at most 50 characters |
| `Entities.AstralDescriptionRefused` | src/Wex.Domain/Entities/PurchaseTransaction.cs:18-19 | 26 characters U+1F600 are 52 code units, so the description is refused as too long |
| `Entities.AstralLength` | src/Wex.Domain/Guard.cs:18 | a text made only of characters beyond the Basic Multilingual Plane is twice as long in code units as in characters |
| `Calendar.AddMonths` | src/Wex.Application/Services/TreasuryExchangeRateProvider.cs:73 | shifts the month index and clamps the day to the target month. A shift of more than 120000 months either way fails with "Months value must be between +/-120000. (Parameter 'months')"; a result outside years 1..9999 fails with "The added or subtracted value results in an un-representable DateTime. (Parameter 'months')" |
| `Calendar.DaysInMonth` | src/Wex.Application/Services/TreasuryExchangeRateProvider.cs:73 | every month has 28 to 31 days |
| `Calendar.TruncatedMonthArithmetic` | src/Wex.Application/Services/TreasuryExchangeRateProvider.cs:73 | the runtime's year and month formulas, which truncate toward zero, give the floor-division year and month of the shifted month index for both signs |
| `Calendar.AddMonthsBackIsEarlier` | src/Wex.Application/Services/TreasuryExchangeRateProvider.cs:73 | going back a positive number of months gives an earlier date |
| `Calendar.AddMonthsClampsDay` | src/Wex.Application/Services/TreasuryExchangeRateProvider.cs:73 | six months before 2024-08-31 is 2024-02-29: the day is clamped to the shorter month |
| `Calendar.AddMonthsClampsDayCommonYear` | src/Wex.Application/Services/TreasuryExchangeRateProvider.cs:73 | six months before 2023-08-31 is 2023-02-28 |
| `Calendar.AddMonthsKeepsDay` | src/Wex.Application/Services/TreasuryExchangeRateProvider.cs:73 | six months before 2024-06-15 is 2023-12-15 |
| `Calendar.AddMonthsBeforeYearOne` | src/Wex.Application/Services/TreasuryExchangeRateProvider.cs:73 | six months before 0001-03-01 fails with the out-of-range error |
| `Calendar.AddMonthsTooFar` | src/Wex.Application/Services/TreasuryExchangeRateProvider.cs:73 | a shift of more than 120000 months is refused with the range message, never with the un-representable-date message |
| `Calendar.PreviousDay` | src/Wex.Application/Services/TreasuryExchangeRateProvider.cs:73 | the latest date before the given one; there is none before 0001-01-01 |
| `Calendar.NextDay` | src/Wex.Application/Services/TreasuryExchangeRateProvider.cs:73 | the earliest date after the given one; there is none after 9999-12-31 |
| `Calendar.FormatDate` | src/Wex.Application/Services/TreasuryExchangeRateProvider.cs:66 | `yyyy-MM-dd`: ten characters, digits with dashes at positions 4 and 7 |
| `Calendar.ParseExactDate` | src/Wex.Application/Services/TreasuryExchangeRateProvider.cs:94-103 | accepts only text that is exactly the `yyyy-MM-dd` form of the result |
| `Calendar.ParseFormatRoundTrip` | src/Wex.Application/Services/TreasuryExchangeRateProvider.cs:89-96 | parsing the formatted date gives the date back |
| `Calendar.FormatOfParsed` | src/Wex.Application/Services/TreasuryExchangeRateProvider.cs:96 | any text of the `yyyy-MM-dd` shape that spells a valid date is that date's formatted form |
| `Calendar.ParseExactDateRejectsShape` | src/Wex.Application/Services/TreasuryExchangeRateProvider.cs:96 | "2024/01/15", "2024-1-15", a trailing space and null are rejected |
| `Calendar.ParseExactDateRejectsYearZero` | src/Wex.Application/Services/TreasuryExchangeRateProvider.cs:96 | a well-shaped text naming year 0 is rejected |
| `Calendar.ParseExactDateRejectsFebruary30` | src/Wex.Application/Services/TreasuryExchangeRateProvider.cs:96 | a well-shaped text naming 30 February is rejected |
| `Calendar.FormatDateExample` | src/Wex.Application/Services/TreasuryExchangeRateProvider.cs:89 | 2024-06-15 is rendered "2024-06-15" |
| `Guids.GuidText` | src/Wex.Application/Services/PurchaseService.cs:70 | `Guid.ToString()` as the not-found message shows it: 36 characters with dashes at 8, 13, 18 and 23 |
| `Guids.GuidTextReadsBack` | src/Wex.Application/Services/PurchaseService.cs:70 | dropping the dashes and reading the 32 hexadecimal digits gives the identifier back |
| `Guids.GuidTextInjective` | src/Wex.Application/Services/PurchaseService.cs:70 | two identifiers have the same text exactly when they are equal |
| `Guids.HexDigitsReadBack` | src/Wex.Application/Services/PurchaseService.cs:70 | a fixed-width hexadecimal rendering keeps exactly the low digits of its number |
| `Conversion.ConversionResult.IsBaseCurrency` | src/Wex.Application/Services/ConversionResult.cs:12 | true exactly when the target code, upper-cased, is "USD"; it depends on nothing else |
| `Conversion.NormalizeCode` | src/Wex.Application/Services/CurrencyConverter.cs:17 | the normalised code is already upper case |
| `Conversion.ConvertAmount` | src/Wex.Application/Services/CurrencyConverter.cs:42 | the converted amount is a whole number of cents within half a cent of amount × rate |
| `Conversion.IsBaseCode` | src/Wex.Application/Services/CurrencyConverter.cs:30 | the case-insensitive comparison with "USD" agrees with comparing upper-cased codes |
| `Conversion.ConvertNormalized` | src/Wex.Application/Services/CurrencyConverter.cs:20-49 | after the guard: zero converts to zero at rate 1, a base code converts at rate 1, and otherwise the provider's error or rate is used |
| `Conversion.Convert` | src/Wex.Application/Services/CurrencyConverter.cs:9-50 | a blank target fails first, even for a zero amount. Zero converts to zero at rate 1 on `asOfDate`. A base target gives rate 1 and the rounded amount. Otherwise the provider's error passes through unchanged, or its currency, rate and date are reported. The converted amount is always the rounded product of the unrounded input and the rate |
| `Conversion.ShortCircuitIgnoresProvider` | src/Wex.Application/Services/CurrencyConverter.cs:15-38 | for a blank target, a zero amount or a base target, any two providers give the same result, so the provider is never consulted |
| `Conversion.ConvertDependsOnOneQuestion` | src/Wex.Application/Services/CurrencyConverter.cs:40 | the provider is asked only about the normalised code on `asOfDate` |
| `Conversion.ConvertedIsRoundedProduct` | src/Wex.Application/Services/CurrencyConverter.cs:42 | the converted amount is a whole number of cents within half a cent of amount × rate |
| `Conversion.ConvertBaseExample` | tests/Wex.Tests/Application/CurrencyConverterTests.cs:80-89 | "usd" converts as the base currency at rate 1 |
| `Conversion.ConvertForeignExample` | tests/Wex.Tests/Application/CurrencyConverterTests.cs:32-44 | 100 to "eur" at 1.25 gives EUR 125 |
| `Conversion.ConvertRoundsExample` | tests/Wex.Tests/Application/CurrencyConverterTests.cs:46-56 | 100 to "gbp" at 1.333 gives 133.30 |
| `Conversion.ConvertZeroExample` | tests/Wex.Tests/Application/CurrencyConverterTests.cs:91-109 | zero converts to zero without a rate from the provider |
| `Conversion.ConvertBlankExample` | tests/Wex.Tests/Application/CurrencyConverterTests.cs:58-68 | "   " and null fail with "Currency is required." |
| `Conversion.IsBaseCurrencyExamples` | src/Wex.Application/Services/ConversionResult.cs:12 | "usd" and "USD" are the base currency; "EUR" is not |
| `DecimalParsing.ParseDecimal` | src/Wex.Application/Services/TreasuryExchangeRateProvider.cs:105-114 | null and the empty string do not parse |
| `DecimalParsing.ParseDecimalCharacterised` | src/Wex.Application/Services/TreasuryExchangeRateProvider.cs:107 | a text parses exactly when it fits the `NumberStyles.Number` grammar (`NumberTextAt`: white space, at most one sign either leading or trailing, digits with `,` groups after the first digit, an optional `.` and fraction, at least one digit, white space, then NULs), and every way of laying it out on that grammar gives the parsed value: the digits' value, negated exactly when the sign is `-` |
| `DecimalParsing.ParseNumberText` | src/Wex.Application/Services/TreasuryExchangeRateProvider.cs:107 | a text laid out on the grammar parses to the value the layout spells |
| `DecimalParsing.ParsedIsNumberText` | src/Wex.Application/Services/TreasuryExchangeRateProvider.cs:107 | a text that parses fits the grammar |
| `DecimalParsing.GroupedValueIsDigitsOnly` | src/Wex.Application/Services/TreasuryExchangeRateProvider.cs:107 | the value read from an integer part with group separators is the value of its digits with the separators removed |
| `DecimalParsing.DigitsOnlyOfDigits` | src/Wex.Application/Services/TreasuryExchangeRateProvider.cs:107 | removing separators from a text of digits leaves it unchanged |
| `DecimalParsing.ParseRendered` | src/Wex.Application/Services/TreasuryExchangeRateProvider.cs:107 | the round trip: any signed decimal, with white space around it, parses to exactly the value its digits spell |
| `DecimalParsing.ParsePlain` | src/Wex.Application/Services/TreasuryExchangeRateProvider.cs:107 | an unsigned number written with no white space reads back as the value of its digits |
| `DecimalParsing.GroupedValueOfDigits` | src/Wex.Application/Services/TreasuryExchangeRateProvider.cs:107 | without group separators, the integer part's value is the value its digits spell |
| `DecimalParsing.ParseRateExample` | src/Wex.Application/Services/TreasuryExchangeRateProvider.cs:107 | "0.92" parses to 0.92 |
| `DecimalParsing.ParseTrailingZeroExample` | src/Wex.Application/Services/TreasuryExchangeRateProvider.cs:107 | "1.10" parses to 1.1 |
| `DecimalParsing.ParseNegativeExample` | src/Wex.Application/Services/TreasuryExchangeRateProvider.cs:107 | "-1.5" parses to −1.5 |
| `DecimalParsing.ParseSignedExample` | src/Wex.Application/Services/TreasuryExchangeRateProvider.cs:107 | " -7 " parses to −7 |
| `DecimalParsing.ParseGroupedExample` | src/Wex.Application/Services/TreasuryExchangeRateProvider.cs:107 | "1,234" parses to 1234 |
| `DecimalParsing.ParseTrailingSignExample` | src/Wex.Application/Services/TreasuryExchangeRateProvider.cs:107 | "5-" parses to −5 |
| `DecimalParsing.ParseTrailingNulExample` | src/Wex.Application/Services/TreasuryExchangeRateProvider.cs:107 | trailing NUL characters are ignored |
| `DecimalParsing.ParseDecimalRejects` | src/Wex.Application/Services/TreasuryExchangeRateProvider.cs:107-113 | "- 5", "+-5" and "-5-" are rejected: a sign must touch the digits, and only one sign is allowed |
| `DecimalParsing.ParseDecimalRejectsShape` | src/Wex.Application/Services/TreasuryExchangeRateProvider.cs:107-113 | ".", ",5", "1e3", "" and null are rejected |
| `Treasury.CountryKeysAreUpper` | src/Wex.Application/Services/TreasuryExchangeRateProvider.cs:20-42 | every key of the currency map is upper case |
| `Treasury.CountryOf` | src/Wex.Application/Services/TreasuryExchangeRateProvider.cs:20-42 | the country of a code is found exactly when some key equals the code ignoring case, and it is that key's country |
| `Treasury.CountryOfKnown` | src/Wex.Application/Services/TreasuryExchangeRateProvider.cs:84 | "eur" finds the Euro Zone |
| `Treasury.CountryOfUnknown` | src/Wex.Application/Services/TreasuryExchangeRateProvider.cs:84 | "XYZ" is not in the map |
| `Treasury.RateRequest` | src/Wex.Application/Services/TreasuryExchangeRateProvider.cs:82-92 | an unsupported code fails with "Currency X is not supported.". Otherwise the filter is the date prefix, the date (which parses back to the purchase date), the country prefix and the country, sorted newest first with page size 1 |
| `Treasury.RateRequestExample` | src/Wex.Application/Services/TreasuryExchangeRateProvider.cs:89-90 | EUR on 2024-06-15 asks for "record_date:lte:2024-06-15,country:eq:Euro Zone" |
| `Treasury.RateRequestUnsupportedExample` | tests/Wex.Tests/Application/TreasuryExchangeRateProviderTests.cs:81-90 | XYZ is refused as not supported, for every purchase date |
| `Treasury.ParseRecordDate` | src/Wex.Application/Services/TreasuryExchangeRateProvider.cs:94-103 | an exact `yyyy-MM-dd` date, or the processing failure |
| `Treasury.ParseRate` | src/Wex.Application/Services/TreasuryExchangeRateProvider.cs:105-114 | the decimal parse, or the processing failure; there is no range check |
| `Treasury.WithinWindow` | src/Wex.Application/Services/TreasuryExchangeRateProvider.cs:73 | a rate is accepted exactly when it lies between `AddMonths(purchase, -6)` and the purchase date, both inclusive. A rate after the purchase is refused before `AddMonths` runs, so only an older rate can hit the `AddMonths` exception |
| `Treasury.GetRate` | src/Wex.Application/Services/TreasuryExchangeRateProvider.cs:44-80 | an unsupported code fails before any request. A success carries the normalised code, was read from the first entry of a non-empty answer, which is not null, and lies inside the window. The outcome for every answer starting with a non-null record is given by `GetRateReadsFirstRecord` |
| `Treasury.ReadAnswer` | src/Wex.Application/Services/TreasuryExchangeRateProvider.cs:57-79 | a transport failure gives the retrieval message; missing or empty data gives "No exchange rate available…"; a null first record gives the runtime's null-reference error; a success carries the code and the first record's parsed date and rate, and that date lies in the window. The outcome for a non-null first record is given by `ReadFirstRecord` |
| `Treasury.NonNullRecord` | src/Wex.Application/Services/TreasuryExchangeRateProvider.cs:69-71 | reading a field of the first record succeeds exactly when it is not null, and throws `NullReferenceException` otherwise |
| `Treasury.ReadRecord` | src/Wex.Application/Services/TreasuryExchangeRateProvider.cs:70-79 | an unreadable record date is a processing failure, and so is an unreadable rate; a success carries the code, the record's parsed date and rate, and a date inside the window |
| `Treasury.ReadRecordOutcome` | src/Wex.Application/Services/TreasuryExchangeRateProvider.cs:70-79 | a non-null record decides as the reference `RecordOutcome` says, which is stated on the date and decimal parsers directly: a processing failure when either does not parse; otherwise the window's `AddMonths` error, the recency refusal, or the rate under the code |
| `Treasury.ReadFirstRecord` | src/Wex.Application/Services/TreasuryExchangeRateProvider.cs:63-79 | for any answer whose first record is not null, whatever follows it, the outcome is `RecordOutcome` of that record |
| `Treasury.GetRateReadsFirstRecord` | src/Wex.Application/Services/TreasuryExchangeRateProvider.cs:44-80 | for any transport whose answer to the built request starts with a non-null record, `GetRateAsync` gives `RecordOutcome` of that record under the normalised code: date and rate parse failures, window refusal and success are all decided by that record alone |
| `Treasury.GetRateNullRecord` | src/Wex.Application/Services/TreasuryExchangeRateProvider.cs:57-71 | a null first record is not caught: whatever follows it, the lookup fails with the null-reference error, not a conversion failure |
| `Treasury.TreasuryProvider` | src/Wex.Application/Services/TreasuryExchangeRateProvider.cs:44-80 | the production provider refuses every unsupported code, and each rate it returns carries the normalised code and lies in the window |
| `Treasury.GetRateOfOneRecord` | src/Wex.Application/Services/TreasuryExchangeRateProvider.cs:63-79 | for an answer with one well-formed entry, the outcome is decided by the window alone |
| `Treasury.UnsupportedIgnoresFetch` | src/Wex.Application/Services/TreasuryExchangeRateProvider.cs:84-87 | an unsupported code fails the same way whatever the network would answer |
| `Treasury.GetRateAsksOneRequest` | src/Wex.Application/Services/TreasuryExchangeRateProvider.cs:50-55 | only the built request matters: two transports that answer it alike give the same result |
| `Treasury.WindowEdges` | src/Wex.Application/Services/TreasuryExchangeRateProvider.cs:73 | exactly six months back is accepted, the day before that is refused, and the day after the purchase is refused |
| `Treasury.WindowExamples` | tests/Wex.Tests/Application/TreasuryExchangeRateProviderTests.cs:34-79 | the test boundaries around 2024-06-15, and the clamped window from 2024-08-31 |
| `Treasury.WindowAtCalendarStart` | src/Wex.Application/Services/TreasuryExchangeRateProvider.cs:73 | near 0001-01-01 `AddMonths` throws for an older rate, while a later rate is refused first |
| `Treasury.GetRateSixMonthsOld` | tests/Wex.Tests/Application/TreasuryExchangeRateProviderTests.cs:34-49 | a CAD rate dated exactly six months back is returned |
| `Treasury.GetRateTooOld` | tests/Wex.Tests/Application/TreasuryExchangeRateProviderTests.cs:51-65 | a rate one day older is refused with the recency message |
| `Treasury.GetRateFromTheFuture` | tests/Wex.Tests/Application/TreasuryExchangeRateProviderTests.cs:67-79 | a rate dated after the purchase is refused |
| `Treasury.GetRateWithoutData` | src/Wex.Application/Services/TreasuryExchangeRateProvider.cs:57-67 | empty or missing data gives "No exchange rate available…"; a transport failure gives the retrieval message |
| `Treasury.GetRateNegativeRate` | src/Wex.Application/Services/TreasuryExchangeRateProvider.cs:105-110 | a negative rate is returned as it came |
| `Treasury.GetRateBadDate` | src/Wex.Application/Services/TreasuryExchangeRateProvider.cs:94-103 | a record date that is not `yyyy-MM-dd` cannot be processed |
| `Repositories.Where` | tests/Wex.Tests/Support/InMemoryRepositories.cs:33 | keeps exactly the elements that satisfy the predicate |
| `Repositories.WhereAppend` | tests/Wex.Tests/Support/InMemoryRepositories.cs:33 | filtering keeps insertion order: filtering an extended list extends the filtered list |
| `Repositories.WhereAtMostOne` | tests/Wex.Tests/Support/InMemoryRepositories.cs:12 | at most one element matches exactly when no two positions match |
| `Repositories.SingleOrDefault` | tests/Wex.Tests/Support/InMemoryRepositories.cs:10-29 | null for no match, the element for one match, `InvalidOperationException` for more |
| `Repositories.FindCardByNumber` | tests/Wex.Tests/Support/InMemoryRepositories.cs:10-13 | null exactly when no card has the number. A card found is stored and has that number. It throws exactly when two cards share the number |
| `Repositories.FindCardOfUnique` | tests/Wex.Tests/Support/InMemoryRepositories.cs:10-13 | with unique numbers the lookup never throws and finds each stored card by its number |
| `Repositories.AppendCard` | tests/Wex.Tests/Support/InMemoryRepositories.cs:15-19 | the lookup of the new card's number gains the card at the end; every other lookup and the purchases are unchanged |
| `Repositories.AppendCardFindable` | tests/Wex.Tests/Support/InMemoryRepositories.cs:15-19 | appending a card with a new number keeps numbers unique and makes the card findable |
| `Repositories.FindPurchaseById` | tests/Wex.Tests/Support/InMemoryRepositories.cs:26-29 | null exactly when no purchase has the id; a purchase found is stored and has that id |
| `Repositories.FindPurchaseOfUnique` | tests/Wex.Tests/Support/InMemoryRepositories.cs:26-29 | with unique ids every stored purchase is found by its id |
| `Repositories.ListByCardId` | tests/Wex.Tests/Support/InMemoryRepositories.cs:31-35 | exactly the purchases with that card id |
| `Repositories.AppendPurchase` | tests/Wex.Tests/Support/InMemoryRepositories.cs:37-41 | one element is appended and earlier entries are unchanged; the card's listing gains the purchase at the end, and other cards' listings are unchanged |
| `Repositories.AppendPurchaseFindable` | tests/Wex.Tests/Support/InMemoryRepositories.cs:37-41 | appending under a new id keeps ids unique and makes the purchase findable |
| `Repositories.TotalAppend` | src/Wex.Application/Services/PurchaseService.cs:33 | the sum of a list with one more purchase grows by that purchase's amount |
| `Repositories.TotalNonNegative` | src/Wex.Application/Services/CardService.cs:54 | a sum of non-negative amounts is non-negative |
| `Services.CreateCard` | src/Wex.Application/Services/CardService.cs:16-36 | an existing number is a conflict before anything else is checked; then the limit; then the number. Success happens exactly when the number is new, the limit is positive and the number matches the pattern. It appends one card and returns its number and the rounded limit |
| `Services.GetBalance` | src/Wex.Application/Services/CardService.cs:38-71 | an unknown number is `NotFound` before the currency is examined. Available is the limit minus the card's total, with no floor, converted at the caller's date. The rate and its date are null exactly for a base-currency result; the converted amount is always set |
| `Services.AddPurchase` | src/Wex.Application/Services/PurchaseService.cs:16-28 | an unknown number is `NotFound`; otherwise the outcome is that of charging the designated card |
| `Services.ChargeCard` | src/Wex.Application/Services/PurchaseService.cs:30-58 | the amount is rounded once. `spent + rounded > limit` is a conflict, even with a blank description. Then an amount ≤ 0 fails, then the description. Success happens exactly when the card has room and the amount and description are valid. It appends one purchase with the rounded amount and trimmed description |
| `Services.GetConverted` | src/Wex.Application/Services/PurchaseService.cs:61-89 | an unknown id is `NotFound`. Otherwise the stored purchase is converted at its own date, with rate and date always filled in |
| `Ledger.EmptyStoreConsistent` | tests/Wex.Tests/Support/InMemoryRepositories.cs:8-24 | the empty store satisfies the invariant |
| `Ledger.LookupsSucceed` | tests/Wex.Tests/Support/InMemoryRepositories.cs:10-29 | in a consistent store no lookup throws |
| `Ledger.NoPurchasesForFreshId` | src/Wex.Application/Services/CardService.cs:29 | a card with a fresh id has no purchases |
| `Ledger.AppendCardPreserves` | tests/Wex.Tests/Support/InMemoryRepositories.cs:15-19 | appending a valid card with a new number and a fresh id keeps the store consistent |
| `Ledger.AppendCardKeepsCards` | tests/Wex.Tests/Support/InMemoryRepositories.cs:15-19 | a valid card with a fresh id keeps card ids unique and every card well formed |
| `Ledger.AppendCardKeepsPurchases` | tests/Wex.Tests/Support/InMemoryRepositories.cs:15-19 | adding a card leaves every purchase attached to a stored card |
| `Ledger.AppendCardKeepsLimits` | tests/Wex.Tests/Support/InMemoryRepositories.cs:15-19 | a card with a fresh id starts with no spending, and no other card's total changes |
| `Ledger.CreateCardPreserves` | src/Wex.Application/Services/CardService.cs:16-36 | card creation under a fresh id, when it succeeds, leaves a consistent store |
| `Ledger.FoundCardIsStored` | src/Wex.Application/Services/PurchaseService.cs:23 | the card found is stored, and is the only card with its id |
| `Ledger.AppendPurchasePreserves` | tests/Wex.Tests/Support/InMemoryRepositories.cs:37-41 | appending a valid purchase of a stored card that stays within the limit keeps the store consistent |
| `Ledger.AppendPurchaseKeepsPurchases` | tests/Wex.Tests/Support/InMemoryRepositories.cs:37-41 | a valid purchase of a stored card keeps every purchase well formed and attached |
| `Ledger.AppendPurchaseKeepsLimits` | src/Wex.Application/Services/PurchaseService.cs:35-48 | only the charged card's total changes, and it stays within the limit |
| `Ledger.AddPurchasePreserves` | src/Wex.Application/Services/PurchaseService.cs:16-59 | adding a purchase under a fresh id, when it succeeds, leaves a consistent store, in particular every card within its limit |
| `Ledger.SpentWithinLimit` | src/Wex.Application/Services/CardService.cs:52-56 | in a consistent store every card's purchases add up to between 0 and its limit |
| `Ledger.AvailableWithinLimit` | src/Wex.Application/Services/CardService.cs:52-56 | in a consistent store every balance returned has 0 ≤ total and 0 ≤ available ≤ limit, so the missing floor is never needed |
| `Ledger.DuplicateRejected` | src/Wex.Application/Services/CardService.cs:21-27 | once a number is registered, a second card with it is a conflict |
| `Ledger.AddPurchaseGrowsTotal` | src/Wex.Application/Services/PurchaseService.cs:30-48 | a successful purchase extends its card's listing by itself; the total grows by the rounded amount and stays within the limit; the cards are unchanged |
| `Ledger.FullCardRefuses` | src/Wex.Application/Services/PurchaseService.cs:35-39 | after a purchase that lands exactly on the limit, any further purchase of at least a cent is a conflict |
| `Ledger.ZeroBalanceForeignReportsRateOne` | src/Wex.Application/Services/CardService.cs:56-69 | a zero balance in a foreign currency reports rate 1 and the caller's date, not nulls |
| `Ledger.BaseBalanceHidesRate` | src/Wex.Application/Services/CardService.cs:62-70 | a base-currency balance reports null rate and date, and the rounded balance |
| `Ledger.ConvertedPurchaseInBase` | src/Wex.Application/Services/PurchaseService.cs:74-88 | a purchase converted to the base currency reports rate 1 and its own date |
| `Ledger.ConvertedPurchaseUsesItsDate` | src/Wex.Application/Services/PurchaseService.cs:74-78 | the conversion depends only on the rate for the purchase's transaction date |
| `Scenarios.ExactlyAtLimit` | tests/Wex.Tests/Application/PurchaseServiceTests.cs:87-97 | 100 on a 100 limit is accepted and stored |
| `Scenarios.CumulativeLimit` | tests/Wex.Tests/Application/PurchaseServiceTests.cs:99-110 | with 60 spent on a 100 limit, 50 more is a conflict |
| `Scenarios.UnknownCard` | tests/Wex.Tests/Application/PurchaseServiceTests.cs:37-44 | any number but the seeded card's is not found, and the message names it |
| `Scenarios.BalanceInUsd` | tests/Wex.Tests/Application/CardServiceTests.cs:75-88 | 90 available in USD, with no rate reported |
| `Scenarios.BalanceInEur` | tests/Wex.Tests/Application/CardServiceTests.cs:90-103 | 90 available is 180 EUR at rate 2, with the rate reported |
| `Scenarios.CreateCardExample` | tests/Wex.Tests/Application/CardServiceTests.cs:22-32 | a new number with limit 500 creates one card |
| `Scenarios.DuplicateExample` | tests/Wex.Tests/Application/CardServiceTests.cs:34-44 | a registered number is a conflict |
| `Scenarios.ZeroLimitExample` | tests/Wex.Tests/Application/CardServiceTests.cs:46-55 | limits 0 and −100 fail on the amount |
| `Scenarios.MalformedNumberExample` | tests/Wex.Tests/Application/CardServiceTests.cs:57-64 | "invalid" with limit 100 fails the number rule |
| `Scenarios.ConvertedPurchaseAt` | tests/Wex.Tests/Application/PurchaseServiceTests.cs:138-153 | the only purchase of a store, of any non-zero amount and at any fixed rate, is reported with its own id, description, date and amount, the normalised code, that rate and the rounded product |
| `Scenarios.ConvertedPurchaseExample` | tests/Wex.Tests/Application/PurchaseServiceTests.cs:138-153 | a 100 USD purchase at rate 1.5 is 150 EUR |

## Left out

- HTTP and JSON are not modelled: `GetFromJsonAsync`, `Uri.EscapeDataString`, the base URL and its configuration. The model takes the fetched answer as a function of the request. Only `HttpRequestException` becomes the retrieval failure (`HttpFailure`). JSON and cancellation exceptions escape the C# method untranslated, and the model has no such outcome. A `null` element of `data` is modelled: reading its first record throws `NullReferenceException`, which also escapes.
- `Treasury.RateRequest` produces the filter, sort and page size, not the escaped URI query string.
- SQLite persistence is not modelled. The in-memory repositories of the test suite are the storage model. The SQLite schema stores amounts as REAL, which is floating point.
- The CLI, dependency injection, logging, `async`/`await` and cancellation tokens are not modelled. They do not affect the values computed.
- `Guid.NewGuid()` is not modelled. Its result is a parameter, assumed non-empty, and also assumed unused where the invariant lemmas need it.
- The read-then-insert race in `PurchaseService.AddAsync` is not modelled: calls are taken one at a time.
- C# `decimal` has a range and 28–29 significant digits. The model uses exact reals, so products, sums and parsed rates never overflow or lose digits.
- `DecimalParsing.ParseDecimal`: a text with more significant digits than `decimal` holds would be rounded, or be rejected as overflow. The model returns the exact value.
- `Guard.MaxLength`: a string here is a sequence of Unicode scalar values, so a string holding an unpaired UTF-16 surrogate cannot be represented. `Utf16Length` counts code units for every string that can be.
- `Entities.CheckDescription`: the same limit applies; unpaired surrogates in a description are not representable.
- `Calendar.FormatDate` and `Treasury.RateRequest`: `{purchaseDate:yyyy-MM-dd}` in the request filter and in the two "no rate" messages formats with the current culture's calendar. Dates are formatted as under a culture with the Gregorian calendar, which the invariant culture uses.
- `Text.ToUpper` upper-cases ASCII letters only. Invariant-culture upper-casing of non-ASCII letters is not modelled.
- `char.IsWhiteSpace` is the fixed Unicode list; `decimal.TryParse` uses its own narrower white-space set, modelled separately.
- The `DateOnly` calendar bounds are modelled, but `DateTime`/time-zone behaviour is not.
- `Guids.GuidText` renders a `Guid` as 32 hex digits in 8-4-4-4-12 groups, in the standard byte order. The mixed-endian byte layout of `System.Guid` is not modelled, so messages may show the same Guid digits in another order.

## Findings

None. Every contract that states what the code and its tests promise was proved about the code as written.
