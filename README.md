# django-moneyamount, modelled in Dafny

django-moneyamount stores monetary amounts together with their currency. Every amount
also keeps a copy of its value in the system's base currency (SEK by default). The
project models four parts of the package's core:

- **The exchange-rate table and its process-wide cache.**
  `CurrencyExchangeRate.get_exchange_rate_item` upper-cases the code. With caching on,
  it lazily initialises `_ExchangeRateCacher.items` and `recache_at`. It merges every
  active row into the cache when the code is missing or the reload time lies in the
  future. It answers from the cache when it can and falls back to
  `objects.get(iso_code=…, active=True)`.
- **Conversion.** `convert`, `to_base_currency` and `from_base_currency` multiply by the
  source currency's rate and divide by the target's. They skip the leg whose currency is
  the base one, and they short-circuit a zero amount and equal currencies.
- **Formatting.** `format` truncates the amount's fraction to `decimal_places` digits.
  It groups the integer digits with the thousand mark, using the reverse, regex and
  reverse pipeline. It strips or pads the fraction digits.
- **MoneyAmount.**
  - `amount_as` picks one of three branches, and `convert_to` and `amount_as_base` use it.
  - `__cmp__`, `__eq__` and `__ne__` compare two MoneyAmounts through the base currency,
    but compare a plain number against the raw amount.
  - The six arithmetic operators build a new amount in `self.currency`. They raise when
    reading the operand with `amount_as` fails, or when the new amount's
    `to_base_currency` fails.
  - The base fields are re-derived by `save` and by the post-init signal handler
    `set_base_moneyamount_values`.

The model takes the source's own shapes:

- `_ExchangeRateCacher` is the class `ExchangeRates.ExchangeRateCacher`. Its fields are
  updated by the methods `GetExchangeRateItem`, `GetExchangeRate` and `Format`, which
  contain the merge loop over the active rows. Each method is proved equal to the pure
  transition `ExchangeRates.Lookup`, and the properties of the cache are lemmas about
  `Lookup` and about `Run`, a series of lookups.
- A stored MoneyAmount row is the class `MoneyAmounts.MoneyAmount`. Its method `Save`
  and the hook `Signals.SetBaseMoneyAmountValues` update its fields in place.
- The value-returning parts (`convert`, `format`, `amount_as`, `convert_to`, the
  operators and the comparisons) are functions on the datatype `MoneyAmounts.MoneyValue`.

Amounts and rates are exact reals. The rate lookup that `convert` performs is passed in
as a function `RateLookup`, from a code to a rate or an error. The clock is an integer
number of minutes, given to each lookup. Settings are a value.

The cache's reload test at models.py:51 is modelled as written: a cached code is
reloaded while `recache_at` is still in the future, not after it has passed. The
lemmas state what that means:

- `ReloadsWhileTtlPending`: every call reloads while the reload time is pending.
- `FrozenAfterTtl`: once it has passed, cached codes are never reloaded again.
- `NoDurationNeverExpires`: with no duration, `recache_at` never changes.

Where tests.py and the code disagree, the model follows the code. tests.py:57-63
expects `format(Decimal(12345.678), "USD")` to give "12,345.68". The code truncates the
fraction instead of rounding it, and `Formatting.FormatTruncates` proves "12,345.67"
for the exact amount 12345.678.

## Model

| member | source | states |
|---|---|---|
| Text.Upper | models.py:43 | upper-casing keeps the length and upper-cases each ASCII letter in place |
| Text.UpperIdempotent | models.py:43 | upper-casing an already upper-cased code changes nothing, so codes found by a lookup read the same again |
| ExchangeRates.ActiveMatches | models.py:58 | the query behind `objects.get(iso_code=code, active=True)` keeps exactly the active rows with that code, and no others |
| ExchangeRates.MatchCount | models.py:58 | exactly one active match means the match is unique; more than one means it is not |
| ExchangeRates.Get | models.py:58 | `objects.get` is NotFound exactly when no active row has the code. It returns an active row with the code only when that row is the unique match. Otherwise it is MultipleObjectsReturned |
| ExchangeRates.LastActive | models.py:52-53 | the row found is active with the code and sits at a position after which no row is active with that code, so it is the last one; there is none exactly when no active row carries the code |
| ExchangeRates.MergeActiveAt | models.py:52-53 | after the merge loop a key is present iff it was present or some active row has it. Its entry is the last active row with that code, or the old entry when no active row has it |
| ExchangeRates.Initialized | models.py:45-50 | an uninitialised cache gets an empty dictionary, and `recache_at` becomes now - 1 when the duration is positive (else keeps its value); an initialised cache is left as it is |
| ExchangeRates.LookupUncached | models.py:44-58 | with caching off the cache is untouched and the row comes straight from `objects.get` on the upper-cased code |
| ExchangeRates.LookupReloadRule | models.py:51-55 | a reload happens exactly when the code is missing or `recache_at` is set and in the future. A reload merges every active row, and no reload leaves the cache as it was |
| ExchangeRates.LookupKeysGrow | models.py:47-53 | cached codes are never dropped, and an entry changes only when some active row carries its code |
| ExchangeRates.LookupRecacheAt | models.py:48-55 | with a positive duration, `recache_at` becomes now + duration exactly on a reload; with no positive duration it never changes |
| ExchangeRates.FirstLookupLoads | models.py:45-55 | the first cached lookup always reloads, filling the cache with every active row |
| ExchangeRates.LookupResult | models.py:56-58 | a code left in the cache is answered from the cache; a miss falls back to `objects.get`, which can then only be NotFound. After a reload, a code with an active row yields its last active row |
| ExchangeRates.LookupWellFormed | models.py:41-58 | the cache only ever holds active rows filed under their own code, and every successful lookup yields an active row with the upper-cased code |
| ExchangeRates.NoDurationNeverExpires | models.py:48-55 | with a duration of zero or less, `recache_at` keeps its value over any series of lookups |
| ExchangeRates.ReloadsWhileTtlPending | models.py:51 | while `recache_at` lies in the future every call reloads, even for a cached code |
| ExchangeRates.FrozenAfterTtl | models.py:51 | once `recache_at` has passed (or was never set), any series of later lookups for cached codes leaves the cache unchanged |
| ExchangeRates.ExchangeRateCacher.constructor | models.py:13-15 | the cache starts with no items and no reload time |
| ExchangeRates.GetExchangeRateItem | models.py:41-58 | the loop-based lookup leaves the cache fields and returns the row exactly as the transition `Lookup` prescribes |
| ExchangeRates.GetExchangeRate | models.py:35-38 | returns the rate of the looked-up row, or that lookup's error, and has the lookup's effect on the cache |
| ExchangeRates.Format | models.py:96-101 | formats with the looked-up row, or returns that lookup's error, and has the lookup's effect on the cache |
| Conversion.IntoBaseLeg | models.py:74-76 | the source leg multiplies by the source rate and reports it, or fails with the lookup's error |
| Conversion.Convert | models.py:65-73 | a zero amount gives (0, 1), and equal upper-cased currencies give (amount, 1), before any rate lookup |
| Conversion.ConvertMissing | models.py:65-80 | a missing amount is not zero. It raises TypeError when the currencies are equal. Otherwise it raises the error of the one rate lookup it performs (the source's, or the target's when the source is the base), and TypeError when that lookup succeeds |
| Conversion.ConvertBetween | models.py:74-80 | between two distinct non-base currencies it fails with the first failing lookup, or for a zero target rate with DivisionByZero, or InvalidOperation when the source rate is zero too (Decimal 0/0); otherwise it gives amount·r(from)/r(to) and reports r(to) |
| Conversion.ToBaseIsSourceLeg | models.py:83-87 | `to_base_currency` of a non-base currency is the source leg alone |
| Conversion.ToBaseRate | models.py:83-87 | `to_base_currency` gives (0, 1) for zero, otherwise (amount·r, r) or the lookup's error |
| Conversion.FromBaseRate | models.py:90-94 | `from_base_currency` gives (0, 1) for zero, otherwise (amount/r, r), division by zero, or the lookup's error |
| Conversion.ToBaseOrBase | models.py:68-69 | replacing an empty code by the base code does not change `to_base_currency` |
| Conversion.ToBaseAmount | models.py:83-87 | with usable rates, `to_base_currency` succeeds and multiplies by the code's rate (1 for the base) |
| Conversion.FromBaseAmount | models.py:90-94 | with usable rates, `from_base_currency` succeeds and divides by the code's rate |
| Conversion.ConvertAmount | models.py:60-80 | with usable rates, `convert` succeeds with amount·r(from)/r(to), in every branch |
| Conversion.RoundTrip | models.py:83-94 | into the base currency and back out again gives the amount back exactly |
| Conversion.ConvertIsMediated | models.py:60-94 | a direct conversion equals going through the base currency |
| Formatting.Digits | models.py:104-108 | `str(n)` is non-empty, all digits, and starts with 0 only for 0 |
| Formatting.DigitsRoundTrip | models.py:104-108 | reading `str(n)` back gives n |
| Formatting.DigitsLength | models.py:108-111 | a number below 10^k has at most k digits |
| Formatting.RegexGroupIsGroup | models.py:105-106 | the reverse, `findall` in chunks of three, join and reverse pipeline is grouping in threes from the right |
| Formatting.GroupsOf | models.py:105-106 | the groups of a digit string: the first has one to three digits and every later one exactly three, and together they spell the string |
| Formatting.GroupJoinsGroups | models.py:105-106 | grouping puts the (reversed) mark between consecutive groups |
| Formatting.GroupUnmarks | models.py:105-106 | removing a one-character non-digit mark from the grouped digits gives the digits back |
| Formatting.IntegerText | models.py:104-106 | the integer part is `str(n)` without a mark and the marked groups with one; removing a one-character mark gives `str(n)` back |
| Formatting.Frac | models.py:102 | the fractional part of a non-negative amount lies in [0, 1) |
| Formatting.FractionDigits | models.py:103 | the scaled fraction is the floor of frac·10^dp, so it is truncated rather than rounded, and it is below 10^dp |
| Formatting.StripZeros | models.py:110 | `rstrip('0')` drops only trailing zeros and leaves no trailing zero |
| Formatting.FractionText | models.py:107-112 | the fraction string is `str(f)` with its trailing zeros stripped, or `str(f)` padded on the right to `dp` characters |
| Formatting.FormatAmount | models.py:96-115 | the result is the integer text, followed by the mark and the fraction string when there are decimal places and that string is non-empty |
| Formatting.FormatTruncates | models.py:102-106 | 12345.678 with two places and ',' thousands gives "12,345.67" |
| Formatting.FractionLeadingZeroLost | models.py:107-114 | 0.05 with two places renders "0,5" as written, and "0,05" when corrected |
| Formatting.ZeroFillValue | models.py:107-112 | `str(f)` zero-filled on the left to dp digits has exactly dp digits and reads back as f |
| Formatting.ValueOfStripped | models.py:110 | stripping k trailing zeros divides the value by 10^k |
| Formatting.FractionTextIntended | models.py:107-112 | the corrected fraction string has at most dp digits. Padding it with zeros to dp digits reads back as the truncated fraction f. Stripping leaves no trailing zero, and padding gives exactly dp digits |
| Formatting.FractionTextIntendedValue | models.py:107-112 | the corrected fraction string, times 10 to the number of stripped zeros, is f: the rendered decimals mean f/10^dp |
| Formatting.FractionTextIntendedAgrees | models.py:107-112 | the correction changes nothing when `str(f)` already has dp digits |
| Formatting.FormatAmountIntended | models.py:96-115 | the corrected `format` differs from the written one only in the fraction string |
| MoneyAmounts.New | models.py:123-128 | a new amount exists iff `to_base_currency` succeeds. It keeps the amount and derives its base fields from amount and currency. An empty currency becomes the base code: this is the corrected post-init hook (see Findings) |
| MoneyAmounts.MoneyAmount.constructor | models.py:123-128 | a row starts with the given amount and currency and the base fields' defaults 0, base code, 1 |
| MoneyAmounts.MoneyAmount.Save | models.py:207-208 | `save` re-derives base amount and rate from `to_base_currency(amount, currency)`. It leaves amount, currency and base code alone, and raises exactly when the conversion fails or the amount is missing |
| MoneyAmounts.AmountAsFromBase | models.py:218-224 | for a consistent amount every branch of `amount_as(c)` is the stored base amount divided by c's rate |
| MoneyAmounts.AmountAsBaseBranch | models.py:220-221 | for a code that upper-cases to the base code, `amount_as` returns the stored base amount, which is that amount divided by the base code's rate of 1 |
| MoneyAmounts.AmountAsOwnBranch | models.py:222-223 | the own-currency shortcut returns what the base amount divided by its rate gives |
| MoneyAmounts.AmountAsConverts | models.py:218-224 | reading a consistent amount in any currency is converting its amount there: amount·r(own)/r(c) |
| MoneyAmounts.BaseAmountOf | models.py:207-208 | a consistent amount's stored base amount is its amount times its rate |
| MoneyAmounts.AmountAsOwnCurrency | models.py:218-224 | a consistent amount read in its own currency is its own amount |
| MoneyAmounts.AmountAsBaseIsStored | models.py:226-228 | `amount_as_base` of a consistent amount is the stored base amount |
| MoneyAmounts.UpperOrBase | models.py:211-219 | upper-casing the code in `convert_to` before `amount_as` does it again changes nothing |
| MoneyAmounts.ConvertToResult | models.py:211-216 | a successful `convert_to(c)` is in currency upper(c) (the base code when c is empty), is worth `amount_as(upper(c))`, and is consistent |
| MoneyAmounts.ConvertToAmount | models.py:211-216 | with usable rates `convert_to(c)` succeeds, is consistent, is worth amount·r(own)/r(c), and its currency has c's rate |
| MoneyAmounts.Sign | models.py:138-143 | `__cmp__` reports -1, 0 or 1 with the sign of the difference |
| MoneyAmounts.ComparisonsAgree | models.py:130-161 | `__cmp__`, `__eq__` and `__ne__` fail together with the same error. `__ne__` negates `__eq__`, `__cmp__` is 0 exactly when `__eq__` holds, and any other operand gives NotImplemented |
| MoneyAmounts.CmpAntisymmetric | models.py:130-143 | comparing two MoneyAmounts the other way round flips the sign |
| MoneyAmounts.CompareByBaseAmount | models.py:130-148 | two consistent MoneyAmounts compare and are equal by their stored base amounts |
| MoneyAmounts.CompareSameCurrency | models.py:130-148 | two consistent MoneyAmounts in one currency with a positive rate compare by their amounts |
| MoneyAmounts.CompareNumberIgnoresCurrency | models.py:134-159 | against a number only the raw amount counts, whatever the currency, and `__cmp__` is 0 exactly when the amount equals the number |
| MoneyAmounts.OperateResult | models.py:163-199 | every operator gives NotImplemented for other operands. It fails with `amount_as`'s error when reading the operand fails; otherwise it succeeds exactly when `to_base_currency` of the new amount does, and fails with that error. A successful result is a consistent amount in `self.currency` whose amount is `self.amount op other` (reflected for `__rsub__`), with other read by `amount_as(self.currency)` or taken as the number |
| MoneyAmounts.ToBaseFailsAlike | models.py:65-87 | whether `to_base_currency` fails, and with which error, does not depend on which nonzero amount is converted |
| MoneyAmounts.RSubNegatesSub | models.py:174-188 | `__rsub__` and `__sub__` succeed together, give opposite amounts and the same currency |
| MoneyAmounts.AddSameCurrency | models.py:163-165 | adding a consistent amount in the same currency, with a usable rate, succeeds and adds the amounts |
| Signals.SetBaseMoneyAmountValues | signals.py:7-12 | a missing amount leaves the instance untouched. Otherwise an empty currency becomes the base code, a non-empty one is kept, and the amount and base code are never changed. The base amount and rate become `to_base_currency`'s result, and the hook raises exactly when that fails, leaving them as they were |
| Signals.Create | signals.py:7-12 | an instance built by Django and passed through the hook exists exactly when `New` succeeds, and then holds `New`'s value; otherwise it raises `New`'s error |
| Signals.PostInitAsWritten | signals.py:9-12 | as written, an empty currency becomes the `base_currency` classmethod. That survives only for a zero amount and otherwise raises AttributeError; with a non-empty currency it agrees with `New` |
| Signals.EmptyCurrencyAsWritten | signals.py:10-12 | `MoneyAmount(amount=5, currency="")` raises AttributeError as written, while the corrected hook gives 5 SEK with base amount 5 |

## Left out

- The ORM: the exchange-rate table is a sequence of rows passed to each lookup. `objects.filter`/`objects.get` are functions on it, and `super().save` (models.py:209) is not modelled.
- forms.py, fields.py, templatetags/ and the `base_currency` classmethod (which only reads settings.py) are not part of this model; the base code and settings are parameters.
- Time: `timezone.now()` is an integer number of minutes passed to each call, so timedelta arithmetic is exact minute arithmetic.
- Thread safety of the class-level cache is not modelled; lookups are sequential.
- Conversion.Convert: the rate lookups inside `convert` are a `RateLookup` parameter, so the cache effects of the lookups performed during a conversion are not modelled there (they are for `get_exchange_rate` itself).
- Decimal arithmetic: amounts and rates are exact reals, so Decimal's 28-digit context, quantisation to the field's `decimal_places` and the `max_digits` limits are not modelled.
- ExchangeRates.Format: requires a non-negative amount. For negative amounts Decimal's `divmod` truncates toward zero and the regex at models.py:106 drops the `-` sign, so that rendering is not modelled.
- Formatting.FormatAmount: requires a non-negative amount, for the same reason; `decimal_places` is a natural number, so negative values of that column are not modelled.
- Text.Upper: upper-cases ASCII letters only; Unicode case mapping is not modelled.
- `__unicode__` and `__float__` (models.py:201-205): string and float conversion, not modelled.
- The `name`, `symbol` and `updated` columns play no part in the core and are not modelled.
- Operators and comparisons on an instance whose amount is None are not modelled: `MoneyValue` holds a present amount (the None case is modelled for `save` and the hook).
- Python's `isinstance(other, Number)` test is the `Operand` datatype: a MoneyAmount, a number (as a real), or anything else.
- MoneyAmounts.New: uses the corrected post-init hook, so an empty currency becomes the base code. As written (signals.py:11), a nonzero amount with an empty currency raises AttributeError; `Signals.PostInitAsWritten` models that.
- MoneyAmounts.ConvertToResult: `convert_to` builds its result with `MoneyAmounts.New`, so `convert_to("")` yields an amount in the base currency. As written it raises AttributeError for a nonzero amount.
- MoneyAmounts.ConvertToAmount: the same corrected hook; as written `convert_to("")` of a nonzero amount raises AttributeError instead of succeeding.
- MoneyAmounts.OperateResult: the operators build their result with `MoneyAmounts.New` and the corrected hook; as written they only differ for an empty `self.currency`, which the lemma excludes.
- A lower-case base code: the lemmas of Conversion and MoneyAmounts require the base code to be upper case (as SEK is). For a lower-case `BASE_CURRENCY`, `convert` compares the upper-cased codes with it, so it would look up and divide by the base currency's own rate (models.py:68-79). That case is not modelled.

## Findings

| source | as written | input that shows it | evidently intended | confidence | as-written member | corrected member |
|---|---|---|---|---|---|---|
| models.py:107-112 | the fraction digits `str(int(frac·10^dp))` are padded on the right or stripped, so leading zeros of the fraction are lost | `format(0.05, c)` with two decimal places, ',' decimal mark: gives "0,5" (reads as 0.5) | left-pad to `dp` digits first (`zfill`), giving "0,05" | high (not executed) | Formatting.FractionLeadingZeroLost | Formatting.FractionTextIntended |
| signals.py:11 | `instance.currency = CurrencyExchangeRate.base_currency` stores the classmethod itself, not its result | `MoneyAmount(amount=5, currency="")`: `convert` calls `.upper()` on the method object and raises AttributeError | call it: `base_currency()`, giving currency "SEK" | high (not executed) | Signals.PostInitAsWritten | Signals.SetBaseMoneyAmountValues |
