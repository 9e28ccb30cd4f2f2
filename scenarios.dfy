/** The fixtures of the repository's own tests, replayed against the model. Dates are
    day numbers: 2020-01-01 is day 18262, a Wednesday. */
module Scenarios {
  import opened Common
  import opened Options
  import opened Ledger
  import opened QuoteTable
  import opened Markets
  import opened Strategies

  const NewYear: Date := 18262
  const WeekLater: Date := 18269

  /** The one-day table of the strategy test: three puts expiring a week later
      around an underlying of 99.5. */
  function WeeklyQuotes(): seq<Quote>
  {
    [ Quote(90.0, WeekLater, 7, 0.1, 0.2),
      Quote(100.0, WeekLater, 7, 1.0, 1.1),
      Quote(110.0, WeekLater, 7, 10.0, 10.1) ]
  }

  function WeeklyRows(): seq<Row>
  {
    [ Row(NewYear, 99.5, WeeklyQuotes()[0]),
      Row(NewYear, 99.5, WeeklyQuotes()[1]),
      Row(NewYear, 99.5, WeeklyQuotes()[2]) ]
  }

  /** A table whose rows all share one key groups into a single snapshot holding every quote. */
  lemma SingleKeyGroups(rows: seq<Row>, qs: seq<Quote>, k: Key)
    requires |rows| == |qs| == 3
    requires forall i :: 0 <= i < 3 ==> rows[i] == Row(k.date, k.underlying, qs[i])
    ensures GroupBy(rows) == [Snapshot(k.date, k.underlying, qs)]
  {
    assert rows[1..][1..][1..] == [];
    assert SortedKeys(rows[1..][1..]) == [k];
    assert SortedKeys(rows[1..]) == [k];
    assert SortedKeys(rows) == [k];
    assert QuotesWithKey(rows[1..][1..][1..], k) == [];
    assert QuotesWithKey(rows[1..][1..], k) == [qs[2]];
    assert QuotesWithKey(rows[1..], k) == [qs[1], qs[2]];
    assert QuotesWithKey(rows, k) == qs;
  }

  /** The first-date test on a one-day table: the market has one snapshot, and
      its first advance yields the table's date and price and makes every row
      current. */
  method FirstSnapshot(rows: seq<Row>, qs: seq<Quote>, k: Key) returns (market: HistoricalMarket, first: Result<(Date, real, seq<Quote>)>)
    requires |rows| == |qs| == 3
    requires forall i :: 0 <= i < 3 ==> rows[i] == Row(k.date, k.underlying, qs[i])
    ensures fresh(market) && market.Valid() && market.Len() == 1
    ensures first == Ok((k.date, k.underlying, qs))
    ensures market.currentDate == Some(k.date) && market.underlyingLast == Some(k.underlying)
    ensures market.currentQuotes == Some(qs)
  {
    SingleKeyGroups(rows, qs, k);
    market := new HistoricalMarket(rows);
    first := market.Next();
  }

  /** The iteration test's loop: advancing a new market until it is exhausted
      delivers every (date, price) key of the table once, in ascending order, as
      many as the market's length. */
  method IterateAll(market: HistoricalMarket) returns (keys: seq<Key>)
    requires market.Valid() && market.cursor == 0
    modifies market
    ensures market.Valid() && market.cursor == |market.groups|
    ensures keys == SortedKeys(market.table) && |keys| == market.Len()
    ensures StrictlyAscending(keys)
  {
    keys := [];
    while true
      invariant market.Valid()
      invariant |keys| == market.cursor
      invariant forall i :: 0 <= i < |keys| ==> keys[i] == SnapshotKey(market.groups[i])
      decreases |market.groups| - market.cursor
    {
      var r := market.Next();
      if r.Err? {
        break;
      }
      assert market.currentDate == Some(r.value.0) && market.underlyingLast == Some(r.value.1);
      keys := keys + [Key(r.value.0, r.value.1)];
    }
  }

  /** The market test's table: strikes 90, 100 and 110 at an underlying of 99.
      The test's table has no days-to-expiration column; the model supplies 7, the
      distance from the quote date to the expiration. */
  method MarketTestFirstDate() returns (date: Date, price: real, quotes: seq<Quote>)
    ensures date == NewYear && price == 99.0
    ensures quotes == [Quote(90.0, WeekLater, 7, 1.0, 1.1), Quote(100.0, WeekLater, 7, 2.0, 2.1), Quote(110.0, WeekLater, 7, 3.0, 3.1)]
  {
    var qs := [Quote(90.0, WeekLater, 7, 1.0, 1.1), Quote(100.0, WeekLater, 7, 2.0, 2.1), Quote(110.0, WeekLater, 7, 3.0, 3.1)];
    var rows := [Row(NewYear, 99.0, qs[0]), Row(NewYear, 99.0, qs[1]), Row(NewYear, 99.0, qs[2])];
    var market, first := FirstSnapshot(rows, qs, Key(NewYear, 99.0));
    date, price, quotes := first.value.0, first.value.1, first.value.2;
  }

  /** Of the three rows the 100 put is the one to write for an ideal strike of
      99.5 and 3 days: every row is 7 days out, so the strike distance decides. */
  lemma AtTheMoneyIsNearest()
    ensures Nearest(WeeklyQuotes(), 99.5, 3) == 1
  {
    var qs := WeeklyQuotes();
    var i := Nearest(qs, 99.5, 3);
    assert !Closer(qs[1], qs[i], 99.5, 3);
  }

  /** The valuations of a single short 100 put on the test's snapshot: intrinsic
      value 0.5, buy-back at the 1.1 ask. */
  lemma ShortPutValuations(m: HistoricalMarket, p: Position)
    requires m.currentDate == Some(NewYear) && m.underlyingLast == Some(99.5)
    requires m.currentQuotes == Some(WeeklyQuotes())
    requires p.option == Put(100.0, WeekLater) && p.quantity == -1
    ensures IntrinsicExposure([p], 99.5) == -0.5
    ensures CloseTotal(m, [p]) == Ok(-1.1)
    ensures MarketExposureAsWritten(m, [p]).Ok? && MarketExposureAsWritten(m, [p]).value == 1.1
  {
    assert [p][..0] == [];
    assert FindExact(WeeklyQuotes(), p.option) == Some(1);
    assert m.Buy(p.option) == Ok(1.1);
    assert m.CloseValue(p.option, p.quantity) == Ok(-1.1);
  }

  /** The strategy test: a fresh weekly seller with no capital runs once on
      2020-01-01. It sells the 100 put for its 1.0 bid; the strike nearest 99.5
      wins, since every row is 7 days out while 3 are wanted. Cash is then 1.0 and
      the intrinsic valuation 0.5. The mark-to-market valuation, which the test
      expects at 1.0 - 1.1 = -0.1, comes out at 2.1 as the code computes it, and at
      -0.1 with each close value counted once. One position is open. */
  method OpeningNewPositions(market: HistoricalMarket)
    returns (cash: real, value: Result<real>, marketValue: Result<real>, markToMarket: Result<real>, openCount: nat)
    requires market.currentDate == Some(NewYear) && market.underlyingLast == Some(99.5)
    requires market.currentQuotes == Some(WeeklyQuotes())
    ensures cash == 1.0
    ensures value == Ok(0.5)
    ensures marketValue.Ok? && marketValue.value == 2.1
    ensures markToMarket == Ok(-0.1)
    ensures openCount == 1
  {
    var strategy, p := FirstTick(market);
    assert Open([p], NewYear) == [p];
    ShortPutValuations(market, p);
    cash := strategy.wallet.cash;
    value := strategy.GetCurrentValue();
    marketValue := strategy.GetCurrentMarketValue();
    markToMarket := strategy.GetMarkToMarketValue();
    openCount := |strategy.wallet.OpenPositions(market.currentDate.value)|;
  }

  /** The first tick of the strategy test: with nothing open, the seller writes
      the 100 put and books its bid. */
  method FirstTick(market: HistoricalMarket) returns (strategy: Strategy, p: Position)
    requires market.currentDate == Some(NewYear) && market.underlyingLast == Some(99.5)
    requires market.currentQuotes == Some(WeeklyQuotes())
    ensures strategy.market == market && strategy.variant == SellWeeklyPuts(1.0)
    ensures strategy.wallet.positions == [p] && strategy.wallet.cash == 1.0
    ensures p.option == Put(100.0, WeekLater) && p.quantity == -1 && p.cost == 1.0
    ensures p.closedAt == None && p.closeValue == None
  {
    strategy := new Strategy(market, 0.0, SellWeeklyPuts(1.0));
    assert IdealDte(NewYear) == 3;
    AtTheMoneyIsNearest();
    assert market.NearestQuote(99.5, 3) == Ok(WeeklyQuotes()[1]);
    assert Open(strategy.wallet.positions, NewYear) == [];
    assert IdealStrike(99.5, 1.0) == 99.5;
    var r, failedAt := strategy.Run();
    assert |strategy.wallet.positions| == 1;
    p := strategy.wallet.positions[0];
    assert strategy.wallet.positions == [p];
  }

  /** The strategy test end to end: the market is built over its table and
      advanced once before the strategy runs. */
  method StrategyTest() returns (cash: real, value: Result<real>, marketValue: Result<real>, markToMarket: Result<real>, openCount: nat)
    ensures cash == 1.0 && value == Ok(0.5) && markToMarket == Ok(-0.1) && openCount == 1
    ensures marketValue.Ok? && marketValue.value == 2.1
  {
    var market, first := FirstSnapshot(WeeklyRows(), WeeklyQuotes(), Key(NewYear, 99.5));
    cash, value, marketValue, markToMarket, openCount := OpeningNewPositions(market);
  }

  /** The weekly seller's usual tick: its one position is open and does not expire
      today, so the tick passes and changes nothing. */
  method QuietTick(strategy: Strategy) returns (r: Outcome)
    requires strategy.variant.SellWeeklyPuts?
    requires strategy.market.currentDate.Some? && strategy.market.underlyingLast.Some?
    requires |strategy.wallet.positions| == 1
    requires strategy.wallet.positions[0].option.expiration > strategy.market.currentDate.value
    modifies strategy.wallet, set p | p in strategy.wallet.positions
    ensures r == Pass
    ensures strategy.wallet.cash == old(strategy.wallet.cash) && strategy.wallet.positions == old(strategy.wallet.positions)
  {
    var d := strategy.market.currentDate.value;
    assert Open(strategy.wallet.positions, d) == strategy.wallet.positions;
    assert Expiring(strategy.wallet.positions, d) == [];
    ghost var failedAt;
    r, failedAt := strategy.Run();
  }

  /** The weekly seller's one expiring put is in the money but no row quotes it:
      the buy-back's lookup error ends the tick, and nothing is booked. */
  method MissingBuyBackQuote(strategy: Strategy) returns (r: Outcome)
    requires strategy.variant.SellWeeklyPuts?
    requires strategy.market.currentDate.Some? && strategy.market.underlyingLast.Some?
    requires |strategy.wallet.positions| == 1
    requires strategy.wallet.positions[0].IsExpiring(strategy.market.currentDate.value)
    requires strategy.wallet.positions[0].option.IsItm(strategy.market.underlyingLast.value)
    requires strategy.market.CloseValue(strategy.wallet.positions[0].option, strategy.wallet.positions[0].quantity) == Err(QuoteNotFound)
    modifies strategy.wallet, set p | p in strategy.wallet.positions
    ensures r == Fail(QuoteNotFound)
    ensures strategy.wallet.cash == old(strategy.wallet.cash) && strategy.wallet.positions == old(strategy.wallet.positions)
  {
    var d := strategy.market.currentDate.value;
    assert Open(strategy.wallet.positions, d) == strategy.wallet.positions;
    assert Expiring(strategy.wallet.positions, d) == strategy.wallet.positions;
    ghost var failedAt;
    r, failedAt := strategy.Run();
  }

  /** Closing a position a second time overwrites the first close. */
  method CloseTwice(p: Position, first: Date, firstValue: real, second: Date, secondValue: real)
    modifies p
    ensures p.closedAt == Some(second) && p.closeValue == Some(secondValue)
  {
    p.Close(Some(first), firstValue);
    p.Close(Some(second), secondValue);
  }

  /** A position closed on its expiration day is still among the open positions
      that day, so the entry hook does not run on that tick. */
  method ClosedStaysOpen(w: Wallet, p: Position, d: Date)
    requires p in w.positions && p.IsExpiring(d)
    modifies p
    ensures p.closedAt == Some(d) && p in w.OpenPositions(d)
  {
    p.Close(Some(d), 0.0);
    assert !p.IsExpired(d);
  }
}
