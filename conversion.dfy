/** `CurrencyExchangeRate.convert`, `to_base_currency` and `from_base_currency`
    (models.py:60-94): conversion mediated by the base currency. */
module Conversion {
  import opened Outcomes
  import opened Text

  /** `get_exchange_rate` as the conversion uses it: the rate (in base-currency units) of an
      upper-cased code, or the lookup's error. */
  type RateLookup = string -> Result<real>

  /** What `convert` returns: the converted amount and the rate looked up last, or the error
      that interrupted it. */
  datatype Exchange = Exchanged(amount: real, rate: real) | Failed(error: Error)

  /** `(c or base_currency)`: a missing or empty code stands for the base currency. */
  function OrBase(c: Option<string>, base: string): string
  {
    if c.None? || c.value == "" then base else c.value
  }

  /** The source leg: multiply by the source rate unless the source is the base currency. */
  function IntoBase(amount: real, f: string, base: string, rate: RateLookup): Exchange
  {
    if f != base then
      match rate(f)
      case Ok(rf) => Exchanged(amount * rf, rf)
      case Err(e) => Failed(e)
    else Exchanged(amount, 1.0)
  }

  /** The target leg: divide by the target rate, which becomes the returned rate. A zero
      rate makes Decimal raise DivisionByZero, or InvalidOperation when the amount in the
      base currency is zero as well. */
  function OutOfBase(inBase: real, t: string, rate: RateLookup): Exchange
  {
    if rate(t).Err? then Failed(rate(t).error)
    else if rate(t).value == 0.0 then Failed(if inBase == 0.0 then InvalidOperation else DivisionByZero)
    else Exchanged(inBase / rate(t).value, rate(t).value)
  }

  lemma IntoBaseLeg(amount: real, f: string, base: string, rate: RateLookup)
    requires f != base
    ensures rate(f).Ok? ==> IntoBase(amount, f, base, rate) == Exchanged(amount * rate(f).value, rate(f).value)
    ensures rate(f).Err? ==> IntoBase(amount, f, base, rate) == Failed(rate(f).error)
  {
  }

  /** `convert(amount, from_currency, to_currency)`: the converted amount and the rate that
      was looked up last (1 when none was). */
  function Convert(amount: real, from: Option<string>, to: Option<string>, base: string, rate: RateLookup): (r: Exchange)
    ensures amount == 0.0 ==> r == Exchanged(0.0, 1.0)
    ensures amount != 0.0 && Upper(OrBase(from, base)) == Upper(OrBase(to, base)) ==> r == Exchanged(amount, 1.0)
  {
    if amount == 0.0 then Exchanged(0.0, 1.0)
    else
      var t := Upper(OrBase(to, base));
      var f := Upper(OrBase(from, base));
      if t == f then Exchanged(amount, 1.0)
      else
        var leg := IntoBase(amount, f, base, rate);
        if leg.Failed? then leg
        else if t != base then OutOfBase(leg.amount, t, rate)
        else leg
  }

  /** `convert(None, from_currency, to_currency)`: a missing amount is not zero, so the
      conversion gets as far as its first `Decimal(None)`, which raises a TypeError, unless the
      lookup just before it fails first. */
  function ConvertMissing(from: Option<string>, to: Option<string>, base: string, rate: RateLookup): (e: Error)
    ensures var f, t := Upper(OrBase(from, base)), Upper(OrBase(to, base));
      (f == t ==> e == TypeError) &&
      (f != t && f != base && rate(f).Err? ==> e == rate(f).error) &&
      (f != t && f != base && rate(f).Ok? ==> e == TypeError) &&
      (f != t && f == base && rate(t).Err? ==> e == rate(t).error) &&
      (f != t && f == base && rate(t).Ok? ==> e == TypeError)
  {
    var t := Upper(OrBase(to, base));
    var f := Upper(OrBase(from, base));
    if t == f then TypeError
    else if f != base then (if rate(f).Err? then rate(f).error else TypeError)
    else if t != base then (if rate(t).Err? then rate(t).error else TypeError)
    else TypeError
  }

  /** `to_base_currency(amount, currency)` */
  function ToBase(amount: real, currency: string, base: string, rate: RateLookup): Exchange
  {
    Convert(amount, Some(currency), None, base, rate)
  }

  /** Replacing an empty code by the base code beforehand changes nothing. */
  lemma ToBaseOrBase(amount: real, currency: string, base: string, rate: RateLookup)
    ensures ToBase(amount, OrBase(Some(currency), base), base, rate) == ToBase(amount, currency, base, rate)
  {
    assert OrBase(Some(OrBase(Some(currency), base)), base) == OrBase(Some(currency), base);
  }

  /** `from_base_currency(amount, currency)` */
  function FromBase(amount: real, currency: string, base: string, rate: RateLookup): Exchange
  {
    Convert(amount, Some(base), Some(currency), base, rate)
  }

  /** The rate of a code other than the base currency is available and usable as a divisor. */
  predicate Usable(code: string, base: string, rate: RateLookup)
  {
    code == base || (rate(code).Ok? && rate(code).value != 0.0)
  }

  function RateOf(code: string, base: string, rate: RateLookup): (r: real)
    requires Usable(code, base, rate)
    ensures r != 0.0
  {
    if code == base then 1.0 else rate(code).value
  }

  /** The code, read as `convert` reads it (upper-cased, the base when empty), has a usable rate. */
  predicate Rated(currency: string, base: string, rate: RateLookup)
  {
    Usable(Upper(OrBase(Some(currency), base)), base, rate)
  }

  /** The rate `convert` applies for a code. */
  function RateFor(currency: string, base: string, rate: RateLookup): (r: real)
    requires Rated(currency, base, rate)
    ensures r != 0.0
  {
    RateOf(Upper(OrBase(Some(currency), base)), base, rate)
  }

  /** Two distinct currencies, neither the base: multiply by the source rate, divide by the
      target rate, and return the target rate; an error from either lookup, or a zero
      target rate, makes the conversion fail. */
  lemma ConvertBetween(amount: real, from: string, to: string, base: string, rate: RateLookup)
    requires amount != 0.0
    requires from != "" && to != "" && Upper(from) != Upper(to)
    requires Upper(from) != base && Upper(to) != base
    ensures var r := Convert(amount, Some(from), Some(to), base, rate);
      (rate(Upper(from)).Err? ==> r == Failed(rate(Upper(from)).error)) &&
      (rate(Upper(from)).Ok? && rate(Upper(to)).Err? ==> r == Failed(rate(Upper(to)).error)) &&
      (rate(Upper(from)).Ok? && rate(Upper(to)).Ok? && rate(Upper(to)).value == 0.0 ==>
        r == Failed(if rate(Upper(from)).value == 0.0 then InvalidOperation else DivisionByZero)) &&
      (rate(Upper(from)).Ok? && rate(Upper(to)).Ok? && rate(Upper(to)).value != 0.0 ==>
        r == Exchanged(amount * rate(Upper(from)).value / rate(Upper(to)).value, rate(Upper(to)).value))
  {
    assert OrBase(Some(from), base) == from && OrBase(Some(to), base) == to;
    IntoBaseLeg(amount, Upper(from), base, rate);
    if rate(Upper(from)).Ok? {
      ProductZero(amount, rate(Upper(from)).value);
    }
  }

  /** A nonzero amount times a rate is zero exactly when the rate is. */
  lemma ProductZero(a: real, b: real)
    requires a != 0.0
    ensures a * b == 0.0 <==> b == 0.0
  {
    if a * b == 0.0 {
      assert b == (a * b) / a;
    }
  }

  lemma ToBaseIsSourceLeg(amount: real, currency: string, base: string, rate: RateLookup)
    requires IsUpperCode(base) && currency != "" && Upper(currency) != base
    ensures amount != 0.0 ==> ToBase(amount, currency, base, rate) == IntoBase(amount, Upper(currency), base, rate)
  {
    UpperFixesUpperCode(base);
    assert OrBase(Some(currency), base) == currency;
  }

  /** Into the base currency: the target leg is skipped and the source rate is returned. */
  lemma ToBaseRate(amount: real, currency: string, base: string, rate: RateLookup)
    requires IsUpperCode(base) && currency != "" && Upper(currency) != base
    ensures amount == 0.0 ==> ToBase(amount, currency, base, rate) == Exchanged(0.0, 1.0)
    ensures amount != 0.0 && rate(Upper(currency)).Ok? ==>
      ToBase(amount, currency, base, rate) == Exchanged(amount * rate(Upper(currency)).value, rate(Upper(currency)).value)
    ensures amount != 0.0 && rate(Upper(currency)).Err? ==>
      ToBase(amount, currency, base, rate) == Failed(rate(Upper(currency)).error)
  {
    ToBaseIsSourceLeg(amount, currency, base, rate);
    IntoBaseLeg(amount, Upper(currency), base, rate);
  }

  /** Out of the base currency: the source leg is skipped and the target rate is returned. */
  lemma FromBaseRate(amount: real, currency: string, base: string, rate: RateLookup)
    requires IsUpperCode(base) && currency != "" && Upper(currency) != base
    ensures amount == 0.0 ==> FromBase(amount, currency, base, rate) == Exchanged(0.0, 1.0)
    ensures amount != 0.0 && rate(Upper(currency)).Ok? && rate(Upper(currency)).value != 0.0 ==>
      FromBase(amount, currency, base, rate) == Exchanged(amount / rate(Upper(currency)).value, rate(Upper(currency)).value)
    ensures amount != 0.0 && rate(Upper(currency)).Ok? && rate(Upper(currency)).value == 0.0 ==>
      FromBase(amount, currency, base, rate) == Failed(DivisionByZero)
    ensures amount != 0.0 && rate(Upper(currency)).Err? ==>
      FromBase(amount, currency, base, rate) == Failed(rate(Upper(currency)).error)
  {
    UpperFixesUpperCode(base);
    assert OrBase(Some(base), base) == base && OrBase(Some(currency), base) == currency;
    assert Upper(OrBase(Some(base), base)) == base;
    assert IntoBase(amount, base, base, rate) == Exchanged(amount, 1.0);
  }

  /** For usable rates, `to_base_currency` multiplies by the rate of the (upper-cased) code. */
  lemma ToBaseAmount(amount: real, currency: string, base: string, rate: RateLookup)
    requires IsUpperCode(base)
    requires Rated(currency, base, rate)
    ensures ToBase(amount, currency, base, rate).Exchanged?
    ensures ToBase(amount, currency, base, rate).amount == amount * RateFor(currency, base, rate)
  {
    UpperFixesUpperCode(base);
    assert Upper(OrBase(None, base)) == base;
    var f := Upper(OrBase(Some(currency), base));
    if amount != 0.0 && f != base {
      IntoBaseLeg(amount, f, base, rate);
    }
  }

  /** For usable rates, `from_base_currency` divides by the rate of the (upper-cased) code. */
  lemma FromBaseAmount(amount: real, currency: string, base: string, rate: RateLookup)
    requires IsUpperCode(base)
    requires Rated(currency, base, rate)
    ensures FromBase(amount, currency, base, rate).Exchanged?
    ensures FromBase(amount, currency, base, rate).amount == amount / RateFor(currency, base, rate)
  {
    UpperFixesUpperCode(base);
    assert Upper(OrBase(Some(base), base)) == base;
  }

  /** For usable rates, `convert` multiplies by the source rate and divides by the target rate. */
  lemma ConvertAmount(amount: real, from: string, to: string, base: string, rate: RateLookup)
    requires IsUpperCode(base)
    requires Rated(from, base, rate) && Rated(to, base, rate)
    ensures Convert(amount, Some(from), Some(to), base, rate).Exchanged?
    ensures Convert(amount, Some(from), Some(to), base, rate).amount ==
            amount * RateFor(from, base, rate) / RateFor(to, base, rate)
  {
    var f, t := Upper(OrBase(Some(from), base)), Upper(OrBase(Some(to), base));
    var rf, rt := RateOf(f, base, rate), RateOf(t, base, rate);
    if amount == 0.0 {
    } else if f == t {
      CancelRate(amount, amount * rf, rt);
    } else {
      var b := amount * rf;
      if f != base {
        assert rate(f).Ok? && rf == rate(f).value;
        IntoBaseLeg(amount, f, base, rate);
      } else {
        assert rf == 1.0 && b == amount;
      }
      assert IntoBase(amount, f, base, rate) == Exchanged(b, rf);
      if t == base {
        assert rt == 1.0 && b / rt == b;
      } else {
        assert rate(t).Ok? && rt == rate(t).value && rt != 0.0;
        assert OutOfBase(b, t, rate) == Exchanged(b / rt, rt);
      }
    }
  }

  /** Converting into the base currency and back gives the amount back exactly. */
  lemma RoundTrip(amount: real, currency: string, base: string, rate: RateLookup)
    requires IsUpperCode(base)
    requires Rated(currency, base, rate)
    ensures ToBase(amount, currency, base, rate).Exchanged?
    ensures FromBase(ToBase(amount, currency, base, rate).amount, currency, base, rate).Exchanged?
    ensures FromBase(ToBase(amount, currency, base, rate).amount, currency, base, rate).amount == amount
  {
    var r := RateFor(currency, base, rate);
    ToBaseAmount(amount, currency, base, rate);
    var b := ToBase(amount, currency, base, rate).amount;
    FromBaseAmount(b, currency, base, rate);
    CancelRate(amount, b, r);
  }

  /** Dividing by a nonzero rate undoes multiplying by it. */
  lemma CancelRate(x: real, b: real, r: real)
    requires r != 0.0 && b == x * r
    ensures b / r == x
  {
  }

  /** The amount of a conversion between any two currencies is the amount of the round trip
      through the base currency: into the base with the source rate, out of it with the
      target rate. */
  lemma ConvertIsMediated(amount: real, from: string, to: string, base: string, rate: RateLookup)
    requires IsUpperCode(base)
    requires Rated(from, base, rate) && Rated(to, base, rate)
    ensures Convert(amount, Some(from), Some(to), base, rate).Exchanged?
    ensures ToBase(amount, from, base, rate).Exchanged?
    ensures FromBase(ToBase(amount, from, base, rate).amount, to, base, rate).Exchanged?
    ensures Convert(amount, Some(from), Some(to), base, rate).amount ==
            FromBase(ToBase(amount, from, base, rate).amount, to, base, rate).amount
  {
    ToBaseAmount(amount, from, base, rate);
    FromBaseAmount(ToBase(amount, from, base, rate).amount, to, base, rate);
    ConvertAmount(amount, from, to, base, rate);
  }
}
