/** Option contracts: strike, expiration, moneyness and intrinsic value.
    Dates are day numbers counted from 1970-01-01; prices are exact reals. */
module Options {

  /** A calendar day, as the number of days since 1970-01-01. */
  type Date = int

  /** The day of the week of `d`, Monday = 0 ... Sunday = 6 (1970-01-01 was a Thursday). */
  function Weekday(d: Date): (w: int)
    ensures 0 <= w < 7
  {
    (d + 3) % 7
  }

  function Abs(x: real): (r: real)
    ensures r >= 0.0 && (r == x || r == -x)
  {
    if x < 0.0 then -x else x
  }

  /** An option contract. Only the put variant exists; a call is not part of this model. */
  datatype Option = Put(strike: real, expiration: Date)
  {
    /** A put is in the money when the underlying trades strictly below the strike. */
    predicate IsItm(underlying: real)
    {
      underlying < strike
    }

    predicate IsExpiring(d: Date)
    {
      d == expiration
    }

    predicate IsExpired(d: Date)
    {
      d > expiration
    }

    /** The settlement value of one contract, always non-negative; the caller applies
        the position's sign. */
    function IntrinsicValue(underlying: real): (v: real)
      ensures v >= 0.0
      ensures v >= strike - underlying
      ensures v == 0.0 || v == strike - underlying
      ensures v > 0.0 <==> IsItm(underlying)
    {
      if IsItm(underlying) then Abs(strike - underlying) else 0.0
    }
  }

  /** Every day is before, on, or after the expiration day, and exactly one of the three. */
  lemma ExpiryTrichotomy(o: Option, d: Date)
    ensures !(o.IsExpiring(d) && o.IsExpired(d))
    ensures (d < o.expiration) || o.IsExpiring(d) || o.IsExpired(d)
    ensures d < o.expiration ==> !o.IsExpiring(d) && !o.IsExpired(d)
  {
  }

  /** At the money a put is not in the money and is worth nothing at settlement. */
  lemma AtTheMoneyIsWorthless(o: Option)
    ensures !o.IsItm(o.strike)
    ensures o.IntrinsicValue(o.strike) == 0.0
  {
  }

  /** The intrinsic value does not grow as the underlying rises. */
  lemma IntrinsicValueMonotone(o: Option, u1: real, u2: real)
    requires u1 <= u2
    ensures o.IntrinsicValue(u2) <= o.IntrinsicValue(u1)
  {
  }
}
