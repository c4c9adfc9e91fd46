/** The post-init hook of signals.py:7-12, which derives the base fields of a freshly
    initialised MoneyAmount. */
module Signals {
  import opened Outcomes
  import opened Conversion
  import opened MoneyAmounts

  /** `set_base_moneyamount_values`, with line 11 calling `base_currency()` as evidently
      intended: a present amount gets an empty currency replaced by the base code and its
      base fields set from `to_base_currency`; a missing amount leaves the row alone. The
      base code is never touched. When the conversion raises, the currency has already
      been replaced but the base fields have not been assigned. */
  method SetBaseMoneyAmountValues(instance: MoneyAmount, base: string, rate: RateLookup) returns (raised: Option<Error>)
    modifies instance
    ensures instance.amount == old(instance.amount) && instance.baseCurrency == old(instance.baseCurrency)
    ensures old(instance.amount).None? ==> raised.None? && unchanged(instance)
    ensures old(instance.currency) != "" ==> instance.currency == old(instance.currency)
    ensures instance.amount.Some? ==> instance.currency == OrBase(Some(old(instance.currency)), base)
    ensures instance.amount.Some? && ToBase(instance.amount.value, instance.currency, base, rate).Failed? ==>
      raised == Some(ToBase(instance.amount.value, instance.currency, base, rate).error)
    ensures raised.Some? ==>
      instance.baseAmount == old(instance.baseAmount) && instance.baseExchangeRate == old(instance.baseExchangeRate)
    ensures instance.amount.Some? ==>
      (raised.None? <==> ToBase(instance.amount.value, instance.currency, base, rate).Exchanged?)
    ensures instance.amount.Some? && raised.None? ==>
      ToBase(instance.amount.value, instance.currency, base, rate) == Exchanged(instance.baseAmount, instance.baseExchangeRate)
  {
    raised := None;
    if instance.amount.Some? {
      if instance.currency == "" {
        instance.currency := base;
      }
      match ToBase(instance.amount.value, instance.currency, base, rate)
      case Exchanged(b, x) =>
        instance.baseAmount, instance.baseExchangeRate := b, x;
      case Failed(e) =>
        raised := Some(e);
    }
  }

  /** `MoneyAmount(amount=a, currency=c)`: Django's initialisation followed by the hook
      gives the value `New` describes, or raises the error it reports. */
  method Create(amount: real, currency: string, base: string, rate: RateLookup) returns (m: MoneyAmount, raised: Option<Error>)
    ensures fresh(m)
    ensures raised.None? <==> New(amount, currency, base, rate).Ok?
    ensures raised.Some? ==> raised.value == New(amount, currency, base, rate).error
    ensures raised.None? ==> m.amount.Some? && m.Value() == New(amount, currency, base, rate).value
  {
    m := new MoneyAmount(Some(amount), currency, base);
    raised := SetBaseMoneyAmountValues(m, base, rate);
    ToBaseOrBase(amount, currency, base, rate);
  }

  // ---------------------------------------------------------------------------
  // The hook as written
  // ---------------------------------------------------------------------------

  /** What signals.py:11 stores in `currency`: a code, or the `base_currency` classmethod
      object itself. */
  datatype CurrencyField = Code(code: string) | BaseCurrencyMethod

  /** The fields the hook leaves behind. */
  datatype HookFields = HookFields(currency: CurrencyField, baseAmount: real, baseExchangeRate: real)

  /** `set_base_moneyamount_values` as written. Line 11 assigns the classmethod instead of
      its result, so with an empty currency the conversion either stops at its zero-amount
      shortcut, leaving the method object in `currency`, or calls `.upper()` on it and
      raises an AttributeError. */
  function PostInitAsWritten(amount: Option<real>, currency: string, baseAmount: real, baseExchangeRate: real,
                             base: string, rate: RateLookup): (r: Result<HookFields>)
    ensures amount.None? ==> r == Ok(HookFields(Code(currency), baseAmount, baseExchangeRate))
    ensures amount.Some? && currency == "" ==>
      r == (if amount.value == 0.0 then Ok(HookFields(BaseCurrencyMethod, 0.0, 1.0)) else Err(AttributeError))
    ensures amount.Some? && currency != "" ==>
      (r.Ok? <==> New(amount.value, currency, base, rate).Ok?) &&
      (r.Ok? ==> r.value == HookFields(Code(currency), New(amount.value, currency, base, rate).value.baseAmount,
                                       New(amount.value, currency, base, rate).value.baseExchangeRate)) &&
      (r.Err? ==> r.error == New(amount.value, currency, base, rate).error)
  {
    if amount.None? then Ok(HookFields(Code(currency), baseAmount, baseExchangeRate))
    else if currency == "" then
      if amount.value == 0.0 then Ok(HookFields(BaseCurrencyMethod, 0.0, 1.0)) else Err(AttributeError)
    else
      match ToBase(amount.value, currency, base, rate)
      case Exchanged(b, x) => Ok(HookFields(Code(currency), b, x))
      case Failed(e) => Err(e)
  }

  /** An instance created with no currency: as written it raises for a nonzero amount and
      keeps the classmethod as its currency for a zero amount, while the intended hook
      gives an amount in the base currency. */
  lemma EmptyCurrencyAsWritten(rate: RateLookup)
    ensures PostInitAsWritten(Some(5.0), "", 0.0, 1.0, "SEK", rate) == Err(AttributeError)
    ensures PostInitAsWritten(Some(0.0), "", 0.0, 1.0, "SEK", rate) == Ok(HookFields(BaseCurrencyMethod, 0.0, 1.0))
    ensures New(5.0, "", "SEK", rate) == Ok(MoneyValue(5.0, "SEK", 5.0, "SEK", 1.0))
  {
  }
}
