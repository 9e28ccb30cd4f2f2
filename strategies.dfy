/** Strategies: a state machine run once per tick against the current market
    snapshot, owning one wallet. */
module Strategies {
  import opened Common
  import opened Options
  import opened Ledger
  import opened QuoteTable
  import opened Markets

  /** The concrete strategy. `Base` is the default strategy, whose entry hook does
      nothing; `SellWeeklyPuts` writes one put at a time at `multiplier` times the
      underlying price. */
  datatype Variant = Base | SellWeeklyPuts(multiplier: real)

  /** The weekly seller's target days to expiration, 5 minus the weekday, with 0
      replaced by 7. The day it aims at is always a Saturday (weekday 5). */
  function IdealDte(today: Date): (dte: int)
    ensures Weekday(today + dte) == 5
    ensures Weekday(today) <= 5 ==> 1 <= dte <= 7
    ensures Weekday(today) == 6 ==> dte == -1
  {
    var dte := 5 - Weekday(today);
    assert today + 3 == 7 * ((today + 3) / 7) + Weekday(today);
    if dte == 0 then
      assert today + 7 + 3 == 7 * ((today + 3) / 7 + 1) + 5;
      7
    else
      assert today + dte + 3 == 7 * ((today + 3) / 7) + 5;
      dte
  }

  /** The weekly seller's target strike: the underlying scaled by the multiplier. */
  function IdealStrike(underlying: real, multiplier: real): (k: real)
    ensures multiplier == 1.0 ==> k == underlying
    ensures underlying > 0.0 && multiplier > 0.0 ==> k > 0.0
  {
    underlying * multiplier
  }

  /** Σ quantity × intrinsic value over `ps`, summed left to right. */
  function IntrinsicExposure(ps: seq<Position>, underlying: real): real
  {
    if ps == [] then 0.0
    else
      var p := ps[|ps| - 1];
      IntrinsicExposure(ps[..|ps| - 1], underlying) + p.quantity as real * p.option.IntrinsicValue(underlying)
  }

  /** Σ close value over `ps`: the cash that closing every one of them now would
      book. Fails with the first failing close. */
  function CloseTotal(m: HistoricalMarket, ps: seq<Position>): Result<real>
    reads m
  {
    if ps == [] then Ok(0.0)
    else
      var p := ps[|ps| - 1];
      match CloseTotal(m, ps[..|ps| - 1])
      case Err(e) => Err(e)
      case Ok(s) =>
        match m.CloseValue(p.option, p.quantity)
        case Err(e) => Err(e)
        case Ok(v) => Ok(s + v)
  }

  /** Σ quantity × close value over `ps`, the mark-to-market sum as the strategy
      computes it; the close value already carries the quantity. */
  function MarketExposureAsWritten(m: HistoricalMarket, ps: seq<Position>): Result<real>
    reads m
  {
    if ps == [] then Ok(0.0)
    else
      var p := ps[|ps| - 1];
      match MarketExposureAsWritten(m, ps[..|ps| - 1])
      case Err(e) => Err(e)
      case Ok(s) =>
        match m.CloseValue(p.option, p.quantity)
        case Err(e) => Err(e)
        case Ok(v) => Ok(s + p.quantity as real * v)
  }

  lemma IntrinsicExposureStep(ps: seq<Position>, k: nat, underlying: real)
    requires k < |ps|
    ensures IntrinsicExposure(ps[..k + 1], underlying)
      == IntrinsicExposure(ps[..k], underlying) + ps[k].quantity as real * ps[k].option.IntrinsicValue(underlying)
  {
    var prefix := ps[..k + 1];
    assert prefix[..|prefix| - 1] == ps[..k];
    assert prefix[|prefix| - 1] == ps[k];
  }

  lemma CloseTotalStep(m: HistoricalMarket, ps: seq<Position>, k: nat)
    requires k < |ps|
    requires CloseTotal(m, ps[..k]).Ok? && m.CloseValue(ps[k].option, ps[k].quantity).Ok?
    ensures CloseTotal(m, ps[..k + 1])
      == Ok(CloseTotal(m, ps[..k]).value + m.CloseValue(ps[k].option, ps[k].quantity).value)
  {
    var prefix := ps[..k + 1];
    assert prefix[..|prefix| - 1] == ps[..k];
    assert prefix[|prefix| - 1] == ps[k];
  }

  /** Adding position `k`'s term, for its close value `v`, to the sum so far
      `acc` gives the sum one position further. */
  lemma MarketExposureStep(m: HistoricalMarket, ps: seq<Position>, k: nat, v: real, acc: real)
    requires k < |ps|
    requires MarketExposureAsWritten(m, ps[..k]) == Ok(acc) && m.CloseValue(ps[k].option, ps[k].quantity) == Ok(v)
    ensures MarketExposureAsWritten(m, ps[..k + 1]).Ok?
    ensures MarketExposureAsWritten(m, ps[..k + 1]).value == acc + ps[k].quantity as real * v
  {
    var prefix := ps[..k + 1];
    assert prefix[..|prefix| - 1] == ps[..k];
    assert prefix[|prefix| - 1] == ps[k];
  }

  /** Once a close fails, the total fails, whatever follows. */
  lemma {:induction false} CloseTotalFailurePersists(m: HistoricalMarket, ps: seq<Position>, k: nat)
    requires k < |ps|
    requires CloseTotal(m, ps[..k]).Ok? && m.CloseValue(ps[k].option, ps[k].quantity).Err?
    ensures CloseTotal(m, ps) == Err(m.CloseValue(ps[k].option, ps[k].quantity).error)
  {
    if k == |ps| - 1 {
      assert ps[..|ps| - 1] == ps[..k];
    } else {
      assert ps[..|ps| - 1][..k] == ps[..k];
      CloseTotalFailurePersists(m, ps[..|ps| - 1], k);
    }
  }

  /** Once a close fails, the strategy's mark-to-market sum fails, whatever follows. */
  lemma {:induction false} MarketExposureFailurePersists(m: HistoricalMarket, ps: seq<Position>, k: nat)
    requires k < |ps|
    requires MarketExposureAsWritten(m, ps[..k]).Ok? && m.CloseValue(ps[k].option, ps[k].quantity).Err?
    ensures MarketExposureAsWritten(m, ps) == Err(m.CloseValue(ps[k].option, ps[k].quantity).error)
  {
    if k == |ps| - 1 {
      assert ps[..|ps| - 1] == ps[..k];
    } else {
      assert ps[..|ps| - 1][..k] == ps[..k];
      MarketExposureFailurePersists(m, ps[..|ps| - 1], k);
    }
  }

  /** A book of short (or empty) positions is never worth more than nothing at settlement. */
  lemma {:induction false} ShortExposureNonPositive(ps: seq<Position>, underlying: real)
    requires forall i :: 0 <= i < |ps| ==> ps[i].quantity <= 0
    ensures IntrinsicExposure(ps, underlying) <= 0.0
  {
    if ps != [] {
      var p := ps[|ps| - 1];
      ShortExposureNonPositive(ps[..|ps| - 1], underlying);
      assert p.quantity as real * p.option.IntrinsicValue(underlying) <= 0.0;
    }
  }

  /** When every position expires worthless today, the intrinsic and the
      mark-to-market valuations agree: both add nothing to cash. */
  lemma {:induction false} SettlementAgreement(m: HistoricalMarket, ps: seq<Position>)
    requires m.underlyingLast.Some?
    requires forall i :: 0 <= i < |ps| ==> m.ExpiresWorthless(ps[i].option)
    ensures IntrinsicExposure(ps, m.underlyingLast.value) == 0.0
    ensures CloseTotal(m, ps) == Ok(0.0)
    ensures MarketExposureAsWritten(m, ps).Ok? && MarketExposureAsWritten(m, ps).value == 0.0
  {
    if ps != [] {
      SettlementAgreement(m, ps[..|ps| - 1]);
      var p := ps[|ps| - 1];
      assert m.ExpiresWorthless(p.option);
      assert m.CloseValue(p.option, p.quantity) == Ok(0.0);
      assert p.option.IntrinsicValue(m.underlyingLast.value) == 0.0;
      assert p.quantity as real * 0.0 == 0.0;
    }
  }

  /** For a book of single short contracts the strategy's mark-to-market sum has the
      opposite sign of the buy-back cost: the quantity is applied twice. */
  lemma {:induction false} AsWrittenFlipsUnitShorts(m: HistoricalMarket, ps: seq<Position>)
    requires forall i :: 0 <= i < |ps| ==> ps[i].quantity == -1
    ensures CloseTotal(m, ps).Ok? <==> MarketExposureAsWritten(m, ps).Ok?
    ensures CloseTotal(m, ps).Ok? ==> MarketExposureAsWritten(m, ps).value == -CloseTotal(m, ps).value
    ensures CloseTotal(m, ps).Err? ==> MarketExposureAsWritten(m, ps) == CloseTotal(m, ps)
  {
    if ps != [] {
      AsWrittenFlipsUnitShorts(m, ps[..|ps| - 1]);
    }
  }

  /** The result of the weekly seller's expiring handler on its one expiring
      position: it fails before the underlying is known, passes when the put is out
      of the money, and otherwise passes or fails as the buy-back does. */
  function WeeklyExpiringOutcome(m: HistoricalMarket, p: Position): Outcome
    reads m
  {
    if m.underlyingLast.None? then Fail(Uninitialized)
    else if !p.option.IsItm(m.underlyingLast.value) then Pass
    else
      match m.CloseValue(p.option, p.quantity)
      case Ok(_) => Pass
      case Err(e) => Fail(e)
  }

  /** One strategy instance: the market it trades on (shared, read and traded
      against, never advanced here) and the wallet it owns. */
  class Strategy {
    const market: HistoricalMarket
    const wallet: Wallet
    const variant: Variant

    constructor (market: HistoricalMarket, capital: real, variant: Variant)
      ensures this.market == market && this.variant == variant
      ensures fresh(wallet) && wallet.cash == capital && wallet.positions == []
    {
      this.market := market;
      this.variant := variant;
      wallet := new Wallet(capital);
    }

    /** The default handler stopped at `ps[k]`, whose close failed with `e`: the
        positions before it are closed and their values booked, and the rest are as
        they were. */
    twostate predicate StoppedAt(ps: seq<Position>, k: nat, e: Error)
      reads this, wallet, market, set p | p in ps
    {
      && k < |ps|
      && CloseTotal(market, ps[..k]).Ok?
      && market.CloseValue(ps[k].option, ps[k].quantity) == Err(e)
      && wallet.cash == old(wallet.cash) + CloseTotal(market, ps[..k]).value
      && (forall p :: p in ps[..k] ==> market.Stamped(p))
      && forall p :: p in ps && p !in ps[..k] ==> p.closedAt == old(p.closedAt) && p.closeValue == old(p.closeValue)
    }

    /** The weekly seller's handler on `ps` stamped just the single in-the-money
        position whose buy-back succeeds, and left every other one as it was. */
    twostate predicate WeeklyStamped(ps: seq<Position>)
      reads market, set p | p in ps
    {
      forall p :: p in ps ==>
        if |ps| == 1 && market.underlyingLast.Some? && p.option.IsItm(market.underlyingLast.value)
           && market.CloseValue(p.option, p.quantity).Ok?
        then market.Stamped(p)
        else p.closedAt == old(p.closedAt) && p.closeValue == old(p.closeValue)
    }

    /** Sells one put at the nearest quote and books it with its premium. Fails,
        changing nothing, for a non-positive ideal strike or when no row can be chosen. */
    method WritePut(idealStrike: real, idealDte: int) returns (r: Result<Position>)
      modifies wallet
      ensures idealStrike <= 0.0 ==> r == Err(NonPositiveStrike)
      ensures idealStrike > 0.0 && market.NearestQuote(idealStrike, idealDte).Err? ==>
        r == Err(market.NearestQuote(idealStrike, idealDte).error)
      ensures r.Err? ==> wallet.cash == old(wallet.cash) && wallet.positions == old(wallet.positions)
      ensures idealStrike > 0.0 && market.NearestQuote(idealStrike, idealDte).Ok? ==>
        var q := market.NearestQuote(idealStrike, idealDte).value;
        && r.Ok? && fresh(r.value)
        && r.value.option == Put(q.strike, q.expiration) && r.value.quantity == -1 && r.value.cost == q.bid
        && r.value.closeValue == None && r.value.closedAt == None
        && wallet.positions == old(wallet.positions) + [r.value]
        && wallet.cash == old(wallet.cash) + q.bid
    {
      if idealStrike <= 0.0 {
        return Err(NonPositiveStrike);
      }
      r := market.SellToOpen(idealStrike, idealDte);
      if r.Ok? {
        wallet.AddPosition(r.value, true);
      }
    }

    /** The default expiring handler: closes each given position in turn and books
        its close value. The first failing close, at index `failedAt`, stops the loop;
        the closes before it have taken effect and the later positions are untouched. */
    method HandleExpiringDefault(ps: seq<Position>) returns (r: Outcome, ghost failedAt: nat)
      modifies wallet, set p | p in ps
      ensures wallet.positions == old(wallet.positions)
      ensures r.Pass? <==> CloseTotal(market, ps).Ok?
      ensures r.Fail? ==> CloseTotal(market, ps) == Err(r.error)
      ensures r.Pass? ==> wallet.cash == old(wallet.cash) + CloseTotal(market, ps).value
      ensures r.Pass? ==> forall p :: p in ps ==> market.Stamped(p)
      ensures r.Fail? ==> StoppedAt(ps, failedAt, r.error)
    {
      var i := 0;
      failedAt := 0;
      while i < |ps|
        invariant 0 <= i <= |ps|
        invariant wallet.positions == old(wallet.positions)
        invariant CloseTotal(market, ps[..i]).Ok?
        invariant wallet.cash == old(wallet.cash) + CloseTotal(market, ps[..i]).value
        invariant forall p :: p in ps[..i] ==> market.Stamped(p)
        invariant forall p :: p in ps && p !in ps[..i] ==> p.closedAt == old(p.closedAt) && p.closeValue == old(p.closeValue)
      {
        assert ps[..i + 1] == ps[..i] + [ps[i]];
        var v := CloseAndBook(ps[i]);
        if v.Err? {
          CloseTotalFailurePersists(market, ps, i);
          failedAt := i;
          return Fail(v.error), failedAt;
        }
        CloseTotalStep(market, ps, i);
        i := i + 1;
      }
      assert ps[..i] == ps;
      r := Pass;
    }

    /** One step of the default expiring handler: closes `p` for real and, when the
        close succeeds, books its value. A failed close changes nothing. */
    method CloseAndBook(p: Position) returns (v: Result<real>)
      modifies wallet, p
      ensures v == market.CloseValue(p.option, p.quantity)
      ensures wallet.positions == old(wallet.positions)
      ensures v.Ok? ==> wallet.cash == old(wallet.cash) + v.value && market.Stamped(p)
      ensures v.Err? ==> wallet.cash == old(wallet.cash) && p.closedAt == old(p.closedAt) && p.closeValue == old(p.closeValue)
    {
      v := market.Close(p, false);
      if v.Ok? {
        wallet.cash := wallet.cash + v.value;
      }
    }

    /** The weekly seller's expiring handler: exactly one expiring position is
        allowed; it is bought back when in the money and left to lapse otherwise.
        The cash balance is not touched, even by a buy-back. */
    method HandleExpiringWeekly(ps: seq<Position>) returns (r: Outcome)
      modifies set p | p in ps
      ensures wallet.cash == old(wallet.cash) && wallet.positions == old(wallet.positions)
      ensures |ps| != 1 ==> r == Fail(NotSingleExpiring)
      ensures |ps| == 1 && market.underlyingLast.None? ==> r == Fail(Uninitialized)
      ensures |ps| == 1 && market.underlyingLast.Some? && !ps[0].option.IsItm(market.underlyingLast.value) ==> r == Pass
      ensures |ps| == 1 && market.underlyingLast.Some? && ps[0].option.IsItm(market.underlyingLast.value) ==>
        var v := market.CloseValue(ps[0].option, ps[0].quantity);
        && (v.Ok? ==> r == Pass && ps[0].closedAt == market.currentDate && ps[0].closeValue == Some(v.value))
        && (v.Err? ==> r == Fail(v.error))
      ensures |ps| == 1 ==> r == WeeklyExpiringOutcome(market, ps[0])
      ensures WeeklyStamped(ps)
    {
      if |ps| != 1 {
        return Fail(NotSingleExpiring);
      }
      if market.underlyingLast.None? {
        return Fail(Uninitialized);
      }
      var p := ps[0];
      r := Pass;
      if p.option.IsItm(market.underlyingLast.value) {
        var v := market.Close(p, false);
        if v.Err? {
          r := Fail(v.error);
        }
      }
    }

    /** The expiring hook as the concrete strategy overrides it: the default handler
        for `Base`, the weekly seller's own for `SellWeeklyPuts`. */
    method HandleExpiring(ps: seq<Position>) returns (r: Outcome, ghost failedAt: nat)
      modifies wallet, set p | p in ps
      ensures wallet.positions == old(wallet.positions)
      ensures variant.Base? ==>
        && r == (if CloseTotal(market, ps).Ok? then Pass else Fail(CloseTotal(market, ps).error))
        && (r.Pass? ==> wallet.cash == old(wallet.cash) + CloseTotal(market, ps).value)
        && (r.Pass? ==> forall p :: p in ps ==> market.Stamped(p))
      ensures variant.Base? && r.Fail? ==> StoppedAt(ps, failedAt, r.error)
      ensures variant.SellWeeklyPuts? ==> wallet.cash == old(wallet.cash)
      ensures variant.SellWeeklyPuts? && |ps| != 1 ==> r == Fail(NotSingleExpiring)
      ensures variant.SellWeeklyPuts? && |ps| == 1 ==> r == WeeklyExpiringOutcome(market, ps[0])
      ensures variant.SellWeeklyPuts? ==> WeeklyStamped(ps)
    {
      failedAt := 0;
      if variant.Base? {
        r, failedAt := HandleExpiringDefault(ps);
      } else {
        r := HandleExpiringWeekly(ps);
      }
    }

    /** The hook for adjusting open positions; every strategy here leaves it empty. */
    method HandleOpenPositions(ps: seq<Position>)
    {
    }

    /** The entry hook. The default strategy does nothing; the weekly seller insists
        that nothing is open and writes a put at its ideal strike and days to expiration. */
    method HandleNoOpenPositions() returns (r: Outcome)
      requires market.currentDate.Some? ==> market.underlyingLast.Some?
      modifies wallet
      ensures variant.Base? ==> r == Pass && wallet.cash == old(wallet.cash) && wallet.positions == old(wallet.positions)
      ensures variant.SellWeeklyPuts? && market.currentDate.None? ==> r == Fail(Uninitialized)
      ensures variant.SellWeeklyPuts? && market.currentDate.Some? && market.OpenExists(old(wallet.positions)) ==>
        r == Fail(OpenPositionsExist)
      ensures r.Fail? ==> wallet.cash == old(wallet.cash) && wallet.positions == old(wallet.positions)
      ensures variant.SellWeeklyPuts? && market.currentDate.Some? && !market.OpenExists(old(wallet.positions)) ==>
        var k := IdealStrike(market.underlyingLast.value, variant.multiplier);
        var dte := IdealDte(market.currentDate.value);
        && (k <= 0.0 ==> r == Fail(NonPositiveStrike))
        && (k > 0.0 && market.NearestQuote(k, dte).Err? ==> r == Fail(market.NearestQuote(k, dte).error))
        && (k > 0.0 && market.NearestQuote(k, dte).Ok? ==>
              var q := market.NearestQuote(k, dte).value;
              && r == Pass
              && |wallet.positions| == |old(wallet.positions)| + 1
              && wallet.positions[..|old(wallet.positions)|] == old(wallet.positions)
              && var p := wallet.positions[|old(wallet.positions)|];
              && fresh(p) && p.option == Put(q.strike, q.expiration) && p.quantity == -1 && p.cost == q.bid
              && p.closeValue == None && p.closedAt == None
              && wallet.cash == old(wallet.cash) + q.bid)
    {
      if variant.Base? {
        return Pass;
      }
      if market.currentDate.None? {
        return Fail(Uninitialized);
      }
      if wallet.OpenPositions(market.currentDate.value) != [] {
        return Fail(OpenPositionsExist);
      }
      var k := IdealStrike(market.underlyingLast.value, variant.multiplier);
      var dte := IdealDte(market.currentDate.value);
      var w := WritePut(k, dte);
      r := if w.Ok? then Pass else Fail(w.error);
    }
  
    /** One tick: the expiring positions are handled first (only if there are any),
        then the open ones (a no-op), and the entry hook runs exactly when nothing is
        open. Closing does not remove a position from the open ones, so a position
        expiring today keeps the entry hook from running today. Only positions
        expiring today can be closed; when a default close fails, `failedAt` is the
        index of that position among today's expiring ones. */
    method Run() returns (r: Outcome, ghost failedAt: nat)
      requires market.currentDate.Some? ==> market.underlyingLast.Some?
      modifies wallet, set p | p in wallet.positions && market.currentDate.Some? && p.IsExpiring(market.currentDate.value)
      ensures old(wallet.positions) <= wallet.positions && |wallet.positions| <= |old(wallet.positions)| + 1
      ensures forall p :: p in old(wallet.positions) && (market.currentDate.None? || !p.IsExpiring(market.currentDate.value)) ==>
        p.closedAt == old(p.closedAt) && p.closeValue == old(p.closeValue)
      ensures market.currentDate.None? ==>
        && r == (if variant.Base? && old(wallet.positions) == [] then Pass else Fail(Uninitialized))
        && wallet.cash == old(wallet.cash) && wallet.positions == old(wallet.positions)
      ensures market.currentDate.Some? && variant.Base? ==>
        var expiring := Expiring(old(wallet.positions), market.currentDate.value);
        && wallet.positions == old(wallet.positions)
        && r == (if CloseTotal(market, expiring).Ok? then Pass else Fail(CloseTotal(market, expiring).error))
        && (r.Pass? ==> wallet.cash == old(wallet.cash) + CloseTotal(market, expiring).value)
        && (r.Pass? ==> forall p :: p in expiring ==> market.Stamped(p))
      ensures market.currentDate.Some? && variant.Base? && r.Fail? ==>
        StoppedAt(Expiring(old(wallet.positions), market.currentDate.value), failedAt, r.error)
      ensures market.currentDate.Some? && variant.SellWeeklyPuts? ==>
        WeeklyStamped(Expiring(old(wallet.positions), market.currentDate.value))
      ensures market.currentDate.Some? && variant.SellWeeklyPuts? && Open(old(wallet.positions), market.currentDate.value) != [] ==>
        var expiring := Expiring(old(wallet.positions), market.currentDate.value);
        r == (if |expiring| == 0 then Pass
              else if |expiring| == 1 then WeeklyExpiringOutcome(market, expiring[0])
              else Fail(NotSingleExpiring))
      ensures (market.currentDate.Some? && variant.SellWeeklyPuts?
               && |Expiring(old(wallet.positions), market.currentDate.value)| > 1) ==>
        r == Fail(NotSingleExpiring)
      ensures (market.currentDate.Some? && variant.SellWeeklyPuts?
               && (Open(old(wallet.positions), market.currentDate.value) != [] || r.Fail?)) ==>
        wallet.cash == old(wallet.cash) && wallet.positions == old(wallet.positions)
      ensures market.currentDate.Some? && variant.SellWeeklyPuts? && r.Pass? ==>
        (|wallet.positions| == |old(wallet.positions)| + 1 <==> Open(old(wallet.positions), market.currentDate.value) == [])
      ensures market.currentDate.Some? && variant.SellWeeklyPuts? && Open(old(wallet.positions), market.currentDate.value) == [] ==>
        var k := IdealStrike(market.underlyingLast.value, variant.multiplier);
        var dte := IdealDte(market.currentDate.value);
        && (k <= 0.0 ==> r == Fail(NonPositiveStrike))
        && (k > 0.0 && market.NearestQuote(k, dte).Err? ==> r == Fail(market.NearestQuote(k, dte).error))
      ensures (market.currentDate.Some? && variant.SellWeeklyPuts? && Open(old(wallet.positions), market.currentDate.value) == []
               && IdealStrike(market.underlyingLast.value, variant.multiplier) > 0.0
               && market.NearestQuote(IdealStrike(market.underlyingLast.value, variant.multiplier), IdealDte(market.currentDate.value)).Ok?) ==>
        var q := market.NearestQuote(IdealStrike(market.underlyingLast.value, variant.multiplier), IdealDte(market.currentDate.value)).value;
        && r == Pass
        && |wallet.positions| == |old(wallet.positions)| + 1
        && var p := wallet.positions[|old(wallet.positions)|];
        && fresh(p) && p.option == Put(q.strike, q.expiration) && p.quantity == -1 && p.cost == q.bid
        && p.closedAt == None && p.closeValue == None
        && wallet.cash == old(wallet.cash) + q.bid
    {
      if market.currentDate.None? {
        // No position expires on an unset date, but the open-positions query
        // compares the unset date with each expiration, and the weekly entry hook
        // needs the underlying price.
        if variant.Base? && wallet.positions == [] {
          return Pass, 0;
        }
        return Fail(Uninitialized), 0;
      }
      ExpiringAreOpen(wallet.positions, market.currentDate.value);
      r, failedAt := SettleExpiring();
      if r.Fail? {
        return;
      }
      r := HandleOpenOrEnter();
    }

    /** The first part of a tick: the expiring hook runs on today's expiring
        positions when there are any. Only those positions may change. */
    method SettleExpiring() returns (r: Outcome, ghost failedAt: nat)
      requires market.currentDate.Some?
      modifies wallet, set p | p in wallet.positions && p.IsExpiring(market.currentDate.value)
      ensures wallet.positions == old(wallet.positions)
      ensures forall p :: p in old(wallet.positions) && !p.IsExpiring(market.currentDate.value) ==>
        p.closedAt == old(p.closedAt) && p.closeValue == old(p.closeValue)
      ensures Expiring(old(wallet.positions), market.currentDate.value) == [] ==>
        r == Pass && wallet.cash == old(wallet.cash)
      ensures variant.Base? ==>
        var expiring := Expiring(old(wallet.positions), market.currentDate.value);
        && r == (if CloseTotal(market, expiring).Ok? then Pass else Fail(CloseTotal(market, expiring).error))
        && (r.Pass? ==> wallet.cash == old(wallet.cash) + CloseTotal(market, expiring).value)
        && (r.Pass? ==> forall p :: p in expiring ==> market.Stamped(p))
      ensures variant.Base? && r.Fail? ==>
        StoppedAt(Expiring(old(wallet.positions), market.currentDate.value), failedAt, r.error)
      ensures variant.SellWeeklyPuts? ==> wallet.cash == old(wallet.cash)
      ensures variant.SellWeeklyPuts? && |Expiring(old(wallet.positions), market.currentDate.value)| > 1 ==>
        r == Fail(NotSingleExpiring)
      ensures variant.SellWeeklyPuts? && |Expiring(old(wallet.positions), market.currentDate.value)| == 1 ==>
        r == WeeklyExpiringOutcome(market, Expiring(old(wallet.positions), market.currentDate.value)[0])
      ensures variant.SellWeeklyPuts? ==> WeeklyStamped(Expiring(old(wallet.positions), market.currentDate.value))
    {
      var expiring := wallet.ExpiringPositions(market.currentDate.value);
      if expiring == [] {
        return Pass, 0;
      }
      r, failedAt := HandleExpiring(expiring);
    }

    /** The rest of a tick, once the expiring positions are handled: the open-positions
        hook when something is open today, the entry hook otherwise. */
    method HandleOpenOrEnter() returns (r: Outcome)
      requires market.currentDate.Some? && market.underlyingLast.Some?
      modifies wallet
      ensures Open(old(wallet.positions), market.currentDate.value) != [] ==>
        r == Pass && wallet.cash == old(wallet.cash) && wallet.positions == old(wallet.positions)
      ensures Open(old(wallet.positions), market.currentDate.value) == [] && variant.Base? ==>
        r == Pass && wallet.cash == old(wallet.cash) && wallet.positions == old(wallet.positions)
      ensures Open(old(wallet.positions), market.currentDate.value) == [] && variant.SellWeeklyPuts? ==>
        var k := IdealStrike(market.underlyingLast.value, variant.multiplier);
        var dte := IdealDte(market.currentDate.value);
        && (k <= 0.0 ==> r == Fail(NonPositiveStrike))
        && (k > 0.0 && market.NearestQuote(k, dte).Err? ==> r == Fail(market.NearestQuote(k, dte).error))
        && (r.Fail? ==> wallet.cash == old(wallet.cash) && wallet.positions == old(wallet.positions))
        && (k > 0.0 && market.NearestQuote(k, dte).Ok? ==>
              var q := market.NearestQuote(k, dte).value;
              && r == Pass
              && |wallet.positions| == |old(wallet.positions)| + 1
              && wallet.positions[..|old(wallet.positions)|] == old(wallet.positions)
              && var p := wallet.positions[|old(wallet.positions)|];
              && fresh(p) && p.option == Put(q.strike, q.expiration) && p.quantity == -1 && p.cost == q.bid
              && p.closeValue == None && p.closedAt == None
              && wallet.cash == old(wallet.cash) + q.bid)
    {
      var open := wallet.OpenPositions(market.currentDate.value);
      if open != [] {
        HandleOpenPositions(open);
        r := Pass;
      } else {
        r := HandleNoOpenPositions();
      }
    }

    /** The intrinsic valuation: cash plus Σ quantity × intrinsic value over the open
        positions. Changes nothing. */
    method GetCurrentValue() returns (r: Result<real>)
      requires market.currentDate.Some? ==> market.underlyingLast.Some?
      ensures market.currentDate.None? ==>
        r == if wallet.positions == [] then Ok(wallet.cash) else Err(Uninitialized)
      ensures market.currentDate.Some? ==>
        r == Ok(wallet.cash + IntrinsicExposure(Open(wallet.positions, market.currentDate.value), market.underlyingLast.value))
    {
      if market.currentDate.None? {
        return if wallet.positions == [] then Ok(wallet.cash) else Err(Uninitialized);
      }
      var open := wallet.OpenPositions(market.currentDate.value);
      var underlying := market.underlyingLast.value;
      var value := wallet.cash;
      var i := 0;
      while i < |open|
        invariant 0 <= i <= |open|
        invariant value == wallet.cash + IntrinsicExposure(open[..i], underlying)
      {
        IntrinsicExposureStep(open, i, underlying);
        value := value + open[i].quantity as real * open[i].option.IntrinsicValue(underlying);
        i := i + 1;
      }
      assert open[..i] == open;
      r := Ok(value);
    }

    /** The mark-to-market valuation as the strategy computes it: cash plus
        Σ quantity × dry-run close value over the open positions. Changes nothing;
        fails like the first failing close. */
    method GetCurrentMarketValue() returns (r: Result<real>)
      ensures market.currentDate.None? ==>
        r == if wallet.positions == [] then Ok(wallet.cash) else Err(Uninitialized)
      ensures market.currentDate.Some? ==>
        var s := MarketExposureAsWritten(market, Open(wallet.positions, market.currentDate.value));
        && (r.Ok? <==> s.Ok?)
        && (r.Ok? ==> r.value == wallet.cash + s.value)
        && (r.Err? ==> r.error == s.error)
    {
      if market.currentDate.None? {
        return if wallet.positions == [] then Ok(wallet.cash) else Err(Uninitialized);
      }
      var open := wallet.OpenPositions(market.currentDate.value);
      var sum := SumAsWritten(open);
      r := if sum.Ok? then Ok(wallet.cash + sum.value) else Err(sum.error);
    }

    /** The loop of the as-written valuation: Σ quantity × dry-run close value over
        `ps`, failing like the first failing close. */
    method SumAsWritten(ps: seq<Position>) returns (r: Result<real>)
      ensures r.Ok? <==> MarketExposureAsWritten(market, ps).Ok?
      ensures r.Ok? ==> r.value == MarketExposureAsWritten(market, ps).value
      ensures r.Err? ==> r.error == MarketExposureAsWritten(market, ps).error
    {
      var sum := 0.0;
      var i := 0;
      while i < |ps|
        invariant 0 <= i <= |ps|
        invariant MarketExposureAsWritten(market, ps[..i]).Ok?
        invariant sum == MarketExposureAsWritten(market, ps[..i]).value
      {
        var v := market.Close(ps[i], true);
        if v.Err? {
          MarketExposureFailurePersists(market, ps, i);
          return Err(v.error);
        }
        MarketExposureStep(market, ps, i, v.value, sum);
        sum := sum + ps[i].quantity as real * v.value;
        i := i + 1;
      }
      assert ps[..i] == ps;
      r := Ok(sum);
    }

    /** The mark-to-market valuation with each close value counted once: cash plus
        the cash that closing every open position now would book. */
    method GetMarkToMarketValue() returns (r: Result<real>)
      ensures market.currentDate.None? ==>
        r == if wallet.positions == [] then Ok(wallet.cash) else Err(Uninitialized)
      ensures market.currentDate.Some? ==>
        var s := CloseTotal(market, Open(wallet.positions, market.currentDate.value));
        r == if s.Ok? then Ok(wallet.cash + s.value) else Err(s.error)
    {
      if market.currentDate.None? {
        return if wallet.positions == [] then Ok(wallet.cash) else Err(Uninitialized);
      }
      var open := wallet.OpenPositions(market.currentDate.value);
      var value := wallet.cash;
      var i := 0;
      while i < |open|
        invariant 0 <= i <= |open|
        invariant CloseTotal(market, open[..i]).Ok?
        invariant value == wallet.cash + CloseTotal(market, open[..i]).value
      {
        assert open[..i + 1][..i] == open[..i];
        var v := market.Close(open[i], true);
        if v.Err? {
          CloseTotalFailurePersists(market, open, i);
          return Err(v.error);
        }
        CloseTotalStep(market, open, i);
        value := value + v.value;
        i := i + 1;
      }
      assert open[..i] == open;
      r := Ok(value);
    }
  }
}
