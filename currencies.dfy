/** The data model shared by the exchange-rate table, conversion and formatting. */
module Currencies {

  /** One row of the exchange-rate table (models.py:18-28). The `name`, `symbol` and
      `updated` columns play no part in the core and are not modelled. */
  datatype Record = Record(
    isoCode: string,
    exchangeRate: real,        // rate of one unit of this currency in the base currency
    decimalMark: string,
    thousandMark: string,
    decimalPlaces: nat,
    removeDecimalZero: bool,
    active: bool)

  /** The configuration read by settings.py. */
  datatype Settings = Settings(
    baseCurrency: string,
    cacheExchange: bool,
    cacheDurationMinutes: int)

  /** The defaults of settings.py:3-5. */
  const Defaults: Settings := Settings("SEK", true, 2)
}
