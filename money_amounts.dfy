/** `MoneyAmount` (models.py:118-228): an amount in some currency together with the amount,
    code and rate of its value in the system base currency. */
module MoneyAmounts {
  import opened Outcomes
  import opened Text
  import opened Conversion

  /** The fields of a MoneyAmount whose amount is present. The operators read these and
      build fresh values; they never change an existing one. */
  datatype MoneyValue = MoneyValue(amount: real, currency: string, baseAmount: real, baseCurrency: string, baseExchangeRate: real)

  /** The right-hand operand of a comparison or an arithmetic operator. */
  datatype Operand = Money(m: MoneyValue) | Number(x: real) | Other

  /** The base fields agree with the amount and currency: they are what `to_base_currency`
      gives for them, and the base code is the system's. */
  predicate Derived(m: MoneyValue, base: string, rate: RateLookup)
  {
    m.baseCurrency == base && ToBase(m.amount, m.currency, base, rate) == Exchanged(m.baseAmount, m.baseExchangeRate)
  }

  /** `MoneyAmount(amount=a, currency=c)`: Django's field defaults (the base code is the
      system's) followed by the post-init hook of signals.py as corrected, which replaces
      an empty currency by the base currency's code. As written, signals.py:11 stores the
      `base_currency` classmethod instead, so for an empty code and a nonzero amount the
      source raises AttributeError (see `Signals.PostInitAsWritten`); every constructor
      call of the model, in `convert_to` and the operators, uses this corrected form. */
  function New(amount: real, currency: string, base: string, rate: RateLookup): (r: Result<MoneyValue>)
    ensures r.Ok? <==> ToBase(amount, currency, base, rate).Exchanged?
    ensures r.Err? ==> r.error == ToBase(amount, currency, base, rate).error
    ensures r.Ok? ==> r.value.amount == amount && r.value.currency == OrBase(Some(currency), base)
    ensures r.Ok? ==> r.value.currency != "" || base == ""
    ensures r.Ok? ==> Derived(r.value, base, rate)
  {
    var c := OrBase(Some(currency), base);
    assert OrBase(Some(c), base) == c;
    match ToBase(amount, c, base, rate)
    case Exchanged(b, x) => Ok(MoneyValue(amount, c, b, base, x))
    case Failed(e) => Err(e)
  }

  /** A stored MoneyAmount row, whose base fields `save` and the post-init hook of
      signals.py assign in place. The amount may be missing (None). */
  class MoneyAmount {
    var amount: Option<real>
    var currency: string
    var baseAmount: real
    var baseCurrency: string
    var baseExchangeRate: real

    /** The fields as Django sets them before the post-init hook runs: the given amount
        and currency, and the defaults of the base fields (0, the system's base code, 1). */
    constructor (amount: Option<real>, currency: string, base: string)
      ensures this.amount == amount && this.currency == currency
      ensures baseAmount == 0.0 && baseCurrency == base && baseExchangeRate == 1.0
    {
      this.amount := amount;
      this.currency := currency;
      baseAmount := 0.0;
      baseCurrency := base;
      baseExchangeRate := 1.0;
    }

    /** The row as a value, once its amount is present. */
    function Value(): MoneyValue
      requires amount.Some?
      reads this
    {
      MoneyValue(amount.value, currency, baseAmount, baseCurrency, baseExchangeRate)
    }

    /** `save`'s derivation step: `(base_amount, base_exchange_rate) :=
        to_base_currency(amount, currency)`. When the conversion raises, nothing is
        assigned; a missing amount makes it raise (see `ConvertMissing`). */
    method Save(base: string, rate: RateLookup) returns (raised: Option<Error>)
      modifies this
      ensures amount == old(amount) && currency == old(currency) && baseCurrency == old(baseCurrency)
      ensures amount.None? ==> raised == Some(ConvertMissing(Some(currency), None, base, rate))
      ensures amount.Some? && ToBase(amount.value, currency, base, rate).Failed? ==>
        raised == Some(ToBase(amount.value, currency, base, rate).error)
      ensures raised.Some? ==> baseAmount == old(baseAmount) && baseExchangeRate == old(baseExchangeRate)
      ensures raised.None? <==> amount.Some? && ToBase(amount.value, currency, base, rate).Exchanged?
      ensures raised.None? ==> ToBase(amount.value, currency, base, rate) == Exchanged(baseAmount, baseExchangeRate)
      ensures raised.None? && baseCurrency == base ==> Derived(Value(), base, rate)
    {
      if amount.None? {
        raised := Some(ConvertMissing(Some(currency), None, base, rate));
      } else {
        match ToBase(amount.value, currency, base, rate)
        case Exchanged(b, x) =>
          baseAmount, baseExchangeRate := b, x;
          raised := None;
        case Failed(e) =>
          raised := Some(e);
      }
    }
  }

  // ---------------------------------------------------------------------------
  // amount_as, amount_as_base, convert_to
  // ---------------------------------------------------------------------------

  /** `amount_as(currency)`: the stored base amount for the base code, the amount itself for
      its own code, and otherwise the stored base amount converted out of the base. */
  function AmountAs(m: MoneyValue, currency: string, base: string, rate: RateLookup): Result<real>
  {
    var c := Upper(currency);
    if c == m.baseCurrency then Ok(m.baseAmount)
    else if c == m.currency then Ok(m.amount)
    else
      match Convert(m.baseAmount, Some(m.baseCurrency), Some(c), base, rate)
      case Exchanged(a, _) => Ok(a)
      case Failed(e) => Err(e)
  }

  /** `amount_as_base` */
  function AmountAsBase(m: MoneyValue, base: string, rate: RateLookup): Result<real>
  {
    AmountAs(m, base, base, rate)
  }

  /** `convert_to(currency)`: a new amount in the upper-cased code, built with the corrected
      post-init hook of `New` (so `convert_to("")` yields an amount in the base currency). */
  function ConvertTo(m: MoneyValue, currency: string, base: string, rate: RateLookup): Result<MoneyValue>
  {
    var c := Upper(currency);
    match AmountAs(m, c, base, rate)
    case Ok(a) => New(a, c, base, rate)
    case Err(e) => Err(e)
  }

  lemma UpperOrBase(currency: string, base: string)
    requires IsUpperCode(base)
    ensures Upper(OrBase(Some(Upper(currency)), base)) == Upper(OrBase(Some(currency), base))
  {
    UpperIdempotent(currency);
    UpperFixesUpperCode(base);
  }

  /** Whichever branch `amount_as` takes, a consistent amount reads as its stored base amount
      divided by the target's rate. */
  lemma AmountAsFromBase(m: MoneyValue, currency: string, base: string, rate: RateLookup)
    requires IsUpperCode(base) && Derived(m, base, rate)
    requires Rated(m.currency, base, rate)
    requires Rated(currency, base, rate)
    ensures AmountAs(m, currency, base, rate).Ok?
    ensures AmountAs(m, currency, base, rate).value == m.baseAmount / RateFor(currency, base, rate)
  {
    var c := Upper(currency);
    UpperFixesUpperCode(base);
    UpperIsUpperCode(currency);
    if c == base {
      AmountAsBaseBranch(m, currency, base, rate);
    } else if c == m.currency {
      AmountAsOwnBranch(m, currency, base, rate);
    } else {
      UpperOrBase(currency, base);
      FromBaseAmount(m.baseAmount, c, base, rate);
    }
  }

  /** The base-code branch: `amount_as` returns the stored base amount, which is the base
      amount divided by the base code's rate of 1. */
  lemma AmountAsBaseBranch(m: MoneyValue, currency: string, base: string, rate: RateLookup)
    requires IsUpperCode(base) && Derived(m, base, rate) && Upper(currency) == base
    ensures AmountAs(m, currency, base, rate) == Ok(m.baseAmount)
    ensures Rated(currency, base, rate) && RateFor(currency, base, rate) == 1.0
    ensures AmountAs(m, currency, base, rate).value == m.baseAmount / RateFor(currency, base, rate)
  {
    UpperFixesUpperCode(base);
    assert Upper(OrBase(Some(currency), base)) == base;
  }

  lemma AmountAsOwnBranch(m: MoneyValue, currency: string, base: string, rate: RateLookup)
    requires IsUpperCode(base) && Derived(m, base, rate) && Upper(currency) == m.currency
    requires Rated(m.currency, base, rate)
    ensures Rated(currency, base, rate)
    ensures m.amount == m.baseAmount / RateFor(currency, base, rate)
  {
    UpperIsUpperCode(currency);
    UpperFixesUpperCode(m.currency);
    assert Upper(OrBase(Some(m.currency), base)) == Upper(OrBase(Some(currency), base)) by {
      if currency == "" { assert m.currency == ""; }
    }
    var r := RateFor(m.currency, base, rate);
    ToBaseAmount(m.amount, m.currency, base, rate);
    assert r != 0.0;
    assert m.amount * r / r == m.amount;
  }

  /** Reading a consistent amount in any currency gives what converting its own amount there
      directly gives: multiplied by its own rate, divided by the target's. */
  lemma AmountAsConverts(m: MoneyValue, currency: string, base: string, rate: RateLookup)
    requires IsUpperCode(base) && Derived(m, base, rate)
    requires Rated(m.currency, base, rate)
    requires Rated(currency, base, rate)
    ensures AmountAs(m, currency, base, rate).Ok?
    ensures AmountAs(m, currency, base, rate).value == m.amount * RateFor(m.currency, base, rate) / RateFor(currency, base, rate)
  {
    AmountAsFromBase(m, currency, base, rate);
    BaseAmountOf(m, base, rate);
    Rescale(AmountAs(m, currency, base, rate).value, m.baseAmount, m.amount, RateFor(m.currency, base, rate), RateFor(currency, base, rate));
  }

  lemma Rescale(v: real, b: real, x: real, p: real, q: real)
    requires q != 0.0 && v == b / q && b == x * p
    ensures v == x * p / q
  {
  }

  /** A consistent amount's stored base amount is its amount times its rate. */
  lemma BaseAmountOf(m: MoneyValue, base: string, rate: RateLookup)
    requires IsUpperCode(base) && Derived(m, base, rate)
    requires Rated(m.currency, base, rate)
    ensures m.baseAmount == m.amount * RateFor(m.currency, base, rate)
  {
    ToBaseAmount(m.amount, m.currency, base, rate);
  }


  /** A consistent amount read in its own currency is its amount. */
  lemma AmountAsOwnCurrency(m: MoneyValue, base: string, rate: RateLookup)
    requires IsUpperCode(base) && Derived(m, base, rate)
    requires Rated(m.currency, base, rate)
    ensures AmountAs(m, m.currency, base, rate) == Ok(m.amount)
  {
    var c := Upper(m.currency);
    UpperFixesUpperCode(base);
    if c == base {
      assert Upper(OrBase(Some(m.currency), base)) == base;
      assert Upper(OrBase(None, base)) == base;
    } else if c != m.currency {
      AmountAsFromBase(m, m.currency, base, rate);
      BaseAmountOf(m, base, rate);
      Unscale(AmountAs(m, m.currency, base, rate).value, m.baseAmount, m.amount, RateFor(m.currency, base, rate));
    }
  }

  lemma Unscale(v: real, b: real, x: real, p: real)
    requires p != 0.0 && v == b / p && b == x * p
    ensures v == x
  {
  }

  /** A consistent amount read in the base currency is its stored base amount. */
  lemma AmountAsBaseIsStored(m: MoneyValue, base: string, rate: RateLookup)
    requires IsUpperCode(base) && Derived(m, base, rate)
    ensures AmountAsBase(m, base, rate) == Ok(m.baseAmount)
  {
    UpperFixesUpperCode(base);
  }

  /** `convert_to(c)` is an amount in upper(c) worth `amount_as(upper(c))`, consistent again. */
  lemma ConvertToResult(m: MoneyValue, currency: string, base: string, rate: RateLookup)
    requires ConvertTo(m, currency, base, rate).Ok?
    ensures AmountAs(m, Upper(currency), base, rate).Ok?
    ensures ConvertTo(m, currency, base, rate).value.amount == AmountAs(m, Upper(currency), base, rate).value
    ensures ConvertTo(m, currency, base, rate).value.currency == OrBase(Some(Upper(currency)), base)
    ensures Derived(ConvertTo(m, currency, base, rate).value, base, rate)
  {
  }

  /** For usable rates, `convert_to(c)` succeeds with the converted amount, in a currency
      that converts with the same rate as c. */
  lemma ConvertToAmount(m: MoneyValue, currency: string, base: string, rate: RateLookup)
    requires IsUpperCode(base) && Derived(m, base, rate)
    requires Rated(m.currency, base, rate)
    requires Rated(currency, base, rate)
    ensures ConvertTo(m, currency, base, rate).Ok?
    ensures Derived(ConvertTo(m, currency, base, rate).value, base, rate)
    ensures ConvertTo(m, currency, base, rate).value.amount == m.amount * RateFor(m.currency, base, rate) / RateFor(currency, base, rate)
    ensures Rated(ConvertTo(m, currency, base, rate).value.currency, base, rate)
    ensures RateFor(ConvertTo(m, currency, base, rate).value.currency, base, rate) == RateFor(currency, base, rate)
  {
    var c := Upper(currency);
    UpperOrBase(currency, base);
    AmountAsConverts(m, c, base, rate);
    ToBaseAmount(AmountAs(m, c, base, rate).value, c, base, rate);
    UpperFixesUpperCode(base);
    var n := ConvertTo(m, currency, base, rate).value;
    assert Upper(OrBase(Some(n.currency), base)) == Upper(OrBase(Some(c), base));
  }

  // ---------------------------------------------------------------------------
  // __cmp__, __eq__, __ne__
  // ---------------------------------------------------------------------------

  /** The sign of a difference, as `__cmp__` reports it. */
  function Sign(d: real): (s: int)
    ensures -1 <= s <= 1
    ensures s < 0 <==> d < 0.0
    ensures s == 0 <==> d == 0.0
  {
    if d < 0.0 then -1 else if d > 0.0 then 1 else 0
  }

  /** `__cmp__`: two MoneyAmounts are compared by their values in the base currency; a plain
      number is compared with the raw amount. */
  function Cmp(m: MoneyValue, o: Operand, base: string, rate: RateLookup): Result<int>
  {
    match o
    case Money(n) =>
      (match AmountAs(m, base, base, rate)
       case Err(e) => Err(e)
       case Ok(a) =>
         match AmountAs(n, base, base, rate)
         case Err(e) => Err(e)
         case Ok(b) => Ok(Sign(a - b)))
    case Number(x) => Ok(Sign(m.amount - x))
    case Other => Err(NotImplemented)
  }

  /** `__eq__` */
  function Eq(m: MoneyValue, o: Operand, base: string, rate: RateLookup): Result<bool>
  {
    match o
    case Money(n) =>
      (match AmountAs(m, base, base, rate)
       case Err(e) => Err(e)
       case Ok(a) =>
         match AmountAs(n, base, base, rate)
         case Err(e) => Err(e)
         case Ok(b) => Ok(a == b))
    case Number(x) => Ok(m.amount == x)
    case Other => Err(NotImplemented)
  }

  /** `__ne__` */
  function Ne(m: MoneyValue, o: Operand, base: string, rate: RateLookup): Result<bool>
  {
    match o
    case Money(n) =>
      (match AmountAs(m, base, base, rate)
       case Err(e) => Err(e)
       case Ok(a) =>
         match AmountAs(n, base, base, rate)
         case Err(e) => Err(e)
         case Ok(b) => Ok(a != b))
    case Number(x) => Ok(m.amount != x)
    case Other => Err(NotImplemented)
  }

  /** The three comparisons fail together, `__ne__` is the negation of `__eq__`, and `__cmp__`
      is 0 exactly when `__eq__` holds. */
  lemma ComparisonsAgree(m: MoneyValue, o: Operand, base: string, rate: RateLookup)
    ensures Cmp(m, o, base, rate).Ok? <==> Eq(m, o, base, rate).Ok?
    ensures Ne(m, o, base, rate).Ok? <==> Eq(m, o, base, rate).Ok?
    ensures Eq(m, o, base, rate).Err? ==> Cmp(m, o, base, rate).error == Eq(m, o, base, rate).error == Ne(m, o, base, rate).error
    ensures Eq(m, o, base, rate).Ok? ==> Ne(m, o, base, rate).value == !Eq(m, o, base, rate).value
    ensures Eq(m, o, base, rate).Ok? ==> (Cmp(m, o, base, rate).value == 0 <==> Eq(m, o, base, rate).value)
    ensures o.Other? ==> Eq(m, o, base, rate) == Err(NotImplemented)
  {
  }

  /** Comparing two MoneyAmounts the other way round flips the sign. */
  lemma CmpAntisymmetric(m: MoneyValue, n: MoneyValue, base: string, rate: RateLookup)
    ensures Cmp(m, Money(n), base, rate).Ok? ==> Cmp(n, Money(m), base, rate).Ok?
    ensures Cmp(m, Money(n), base, rate).Ok? ==> Cmp(n, Money(m), base, rate).value == -Cmp(m, Money(n), base, rate).value
  {
  }

  /** Two consistent MoneyAmounts compare by their stored base amounts. */
  lemma CompareByBaseAmount(m: MoneyValue, n: MoneyValue, base: string, rate: RateLookup)
    requires IsUpperCode(base) && Derived(m, base, rate) && Derived(n, base, rate)
    ensures Cmp(m, Money(n), base, rate) == Ok(Sign(m.baseAmount - n.baseAmount))
    ensures Eq(m, Money(n), base, rate) == Ok(m.baseAmount == n.baseAmount)
  {
    UpperFixesUpperCode(base);
  }

  lemma SignScaled(a: real, b: real, r: real)
    requires r > 0.0
    ensures Sign(a * r - b * r) == Sign(a - b)
  {
    assert a * r - b * r == (a - b) * r;
    if a < b {
      assert (b - a) * r > 0.0;
    } else if a > b {
      assert (a - b) * r > 0.0;
    }
  }

  /** Two consistent MoneyAmounts in the same currency, whose rate is positive, compare by
      their amounts. */
  lemma CompareSameCurrency(m: MoneyValue, n: MoneyValue, base: string, rate: RateLookup)
    requires IsUpperCode(base) && Derived(m, base, rate) && Derived(n, base, rate)
    requires m.currency == n.currency
    requires Rated(m.currency, base, rate) && RateFor(m.currency, base, rate) > 0.0
    ensures Cmp(m, Money(n), base, rate) == Ok(Sign(m.amount - n.amount))
    ensures Eq(m, Money(n), base, rate) == Ok(m.amount == n.amount)
  {
    var r := RateFor(m.currency, base, rate);
    CompareByBaseAmount(m, n, base, rate);
    ToBaseAmount(m.amount, m.currency, base, rate);
    ToBaseAmount(n.amount, n.currency, base, rate);
    SignScaled(m.amount, n.amount, r);
  }

  /** Against a plain number only the amount counts: two amounts equal in number compare
      alike, whatever their currencies and base values. */
  lemma CompareNumberIgnoresCurrency(m: MoneyValue, n: MoneyValue, x: real, base: string, rate: RateLookup)
    requires m.amount == n.amount
    ensures Cmp(m, Number(x), base, rate) == Cmp(n, Number(x), base, rate)
    ensures Eq(m, Number(x), base, rate) == Eq(n, Number(x), base, rate)
    ensures Ne(m, Number(x), base, rate) == Ne(n, Number(x), base, rate)
    ensures Cmp(m, Number(x), base, rate).value == 0 <==> m.amount == x
  {
  }

  // ---------------------------------------------------------------------------
  // __add__, __radd__, __sub__, __rsub__, __mul__, __rmul__
  // ---------------------------------------------------------------------------

  datatype Op = Plus | Minus | Times

  function Calc(op: Op, x: real, y: real): real
  {
    match op
    case Plus => x + y
    case Minus => x - y
    case Times => x * y
  }

  /** The operand's value in the given currency: another MoneyAmount read with `amount_as`,
      a plain number as it is. */
  function OperandValue(o: Operand, currency: string, base: string, rate: RateLookup): Result<real>
  {
    match o
    case Money(n) => AmountAs(n, currency, base, rate)
    case Number(x) => Ok(x)
    case Other => Err(NotImplemented)
  }

  /** An operator: `self.amount op other` (or `other op self.amount` when reflected) as a
      new amount in `self.currency`. */
  function Operate(m: MoneyValue, o: Operand, op: Op, reflected: bool, base: string, rate: RateLookup): Result<MoneyValue>
  {
    match OperandValue(o, m.currency, base, rate)
    case Ok(y) => New(if reflected then Calc(op, y, m.amount) else Calc(op, m.amount, y), m.currency, base, rate)
    case Err(e) => Err(e)
  }

  /** `__add__` */
  function Add(m: MoneyValue, o: Operand, base: string, rate: RateLookup): Result<MoneyValue>
  {
    Operate(m, o, Plus, false, base, rate)
  }

  /** `__radd__`, which calls `__add__` */
  function RAdd(m: MoneyValue, o: Operand, base: string, rate: RateLookup): Result<MoneyValue>
  {
    Add(m, o, base, rate)
  }

  /** `__sub__` */
  function Sub(m: MoneyValue, o: Operand, base: string, rate: RateLookup): Result<MoneyValue>
  {
    Operate(m, o, Minus, false, base, rate)
  }

  /** `__rsub__`: the operand minus this amount */
  function RSub(m: MoneyValue, o: Operand, base: string, rate: RateLookup): Result<MoneyValue>
  {
    Operate(m, o, Minus, true, base, rate)
  }

  /** `__mul__` */
  function Mul(m: MoneyValue, o: Operand, base: string, rate: RateLookup): Result<MoneyValue>
  {
    Operate(m, o, Times, false, base, rate)
  }

  /** `__rmul__`, which calls `__mul__` */
  function RMul(m: MoneyValue, o: Operand, base: string, rate: RateLookup): Result<MoneyValue>
  {
    Mul(m, o, base, rate)
  }

  /** Every operator yields a consistent amount in this amount's currency whose amount is the
      operation applied to this amount and the operand's value in this currency; an
      unsupported operand gives NotImplemented. */
  lemma OperateResult(m: MoneyValue, o: Operand, op: Op, reflected: bool, base: string, rate: RateLookup)
    requires m.currency != ""
    ensures o.Other? ==> Operate(m, o, op, reflected, base, rate) == Err(NotImplemented)
    ensures OperandValue(o, m.currency, base, rate).Err? ==>
      Operate(m, o, op, reflected, base, rate) == Err(OperandValue(o, m.currency, base, rate).error)
    ensures OperandValue(o, m.currency, base, rate).Ok? ==>
      var y := OperandValue(o, m.currency, base, rate).value;
      var x := if reflected then Calc(op, y, m.amount) else Calc(op, m.amount, y);
      (Operate(m, o, op, reflected, base, rate).Ok? <==> ToBase(x, m.currency, base, rate).Exchanged?) &&
      (Operate(m, o, op, reflected, base, rate).Err? ==>
        Operate(m, o, op, reflected, base, rate).error == ToBase(x, m.currency, base, rate).error)
    ensures Operate(m, o, op, reflected, base, rate).Ok? ==> OperandValue(o, m.currency, base, rate).Ok?
    ensures Operate(m, o, op, reflected, base, rate).Ok? ==>
      var y := OperandValue(o, m.currency, base, rate).value;
      var r := Operate(m, o, op, reflected, base, rate).value;
      r.currency == m.currency &&
      r.amount == (if reflected then Calc(op, y, m.amount) else Calc(op, m.amount, y)) &&
      Derived(r, base, rate)
  {
  }

  /** A failed conversion does not depend on a nonzero amount: only the zero amount skips the
      lookups. */
  lemma ToBaseFailsAlike(x: real, y: real, currency: string, base: string, rate: RateLookup)
    requires x != 0.0 && y != 0.0
    ensures ToBase(x, currency, base, rate).Failed? <==> ToBase(y, currency, base, rate).Failed?
    ensures ToBase(x, currency, base, rate).Failed? ==> ToBase(x, currency, base, rate).error == ToBase(y, currency, base, rate).error
  {
  }

  /** `__rsub__` and `__sub__` succeed together and give opposite amounts. */
  lemma RSubNegatesSub(m: MoneyValue, o: Operand, base: string, rate: RateLookup)
    requires m.currency != ""
    ensures Sub(m, o, base, rate).Ok? <==> RSub(m, o, base, rate).Ok?
    ensures Sub(m, o, base, rate).Ok? ==> RSub(m, o, base, rate).value.amount == -Sub(m, o, base, rate).value.amount
    ensures Sub(m, o, base, rate).Ok? ==> RSub(m, o, base, rate).value.currency == Sub(m, o, base, rate).value.currency
  {
    OperateResult(m, o, Minus, false, base, rate);
    OperateResult(m, o, Minus, true, base, rate);
    var v := OperandValue(o, m.currency, base, rate);
    if v.Ok? {
      var d := m.amount - v.value;
      if d != 0.0 {
        ToBaseFailsAlike(d, -d, m.currency, base, rate);
      }
      assert v.value - m.amount == -d;
    }
  }

  /** Adding a consistent amount in the same currency, whose rate is usable, succeeds and adds
      the amounts. */
  lemma AddSameCurrency(m: MoneyValue, n: MoneyValue, base: string, rate: RateLookup)
    requires IsUpperCode(base) && m.currency != "" && n.currency == m.currency && Derived(n, base, rate)
    requires Rated(n.currency, base, rate)
    ensures Add(m, Money(n), base, rate).Ok?
    ensures Add(m, Money(n), base, rate).value.amount == m.amount + n.amount
    ensures Add(m, Money(n), base, rate).value.currency == m.currency
  {
    AmountAsOwnCurrency(n, base, rate);
    OperateResult(m, Money(n), Plus, false, base, rate);
    ToBaseAmount(m.amount + n.amount, m.currency, base, rate);
  }
}
