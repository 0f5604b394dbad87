/** The fixed policy values of the domain. */
module Constants {
  /** The currency in which cards, limits and purchases are denominated. */
  const BaseCurrency: string := "USD"
  /** Money amounts are rounded to this many decimal places. */
  const MoneyDecimalPlaces: nat := 2
  /** Longest accepted purchase description, counted after trimming. */
  const DescriptionMaxLength: nat := 50
  /** Oldest acceptable exchange rate, in months before the reference date. */
  const ExchangeRateValidityMonths: nat := 6
}
