# Options backtesting engine: a verified model

This project models the simulation engine of a small put-selling backtester. The
engine has four parts.

- **Options** (`options.dfy`): a put contract with a strike and an expiration date.
  It has three predicates (in the money, expiring, expired) and an intrinsic value.
- **Ledger** (`ledger.dfy`): a `Position` class and a `Wallet` class.
  - A position holds an option, a signed quantity and an opening cost. Its close
    fields are filled in by `Close`.
  - A wallet holds a cash balance and an append-only list of positions, plus three
    date filters over that list.
- **Market** (`quotetable.dfy`, `markets.dfy`): `HistoricalMarket`, a forward-only
  cursor over a quote table grouped into (date, underlying price) snapshots.
  - It picks the quote nearest an ideal strike and days to expiration.
  - It looks up exact-match bids and asks.
  - It values or executes the close of a position.
- **Strategies** (`strategies.dfy`): a `Strategy` class run once per tick.
  - Each tick handles expiring positions, then open ones, then possibly opens a new one.
  - The class offers two valuations.
  - Its `SellWeeklyPuts` variant writes one put at a time, aiming at an ideal strike
    and days to expiration.

`common.dfy` holds the shared vocabulary:
- `Optional` (Python `None`);
- the `Error` cases the engine can fail with;
- `Result` and `Outcome`;
- an order-preserving `Filter`, the list comprehension the wallet queries use.

`scenarios.dfy` replays the fixtures of the repository's market and strategy tests.

Modelling choices:
- Dates are day numbers counted from 1970-01-01. The weekday is computed as
  `(d + 3) % 7`, with Monday = 0 as in Python's `weekday()`.
- Prices are exact `real`s. Quantities are `int`s.
- Python's run-time failures become error values, as follows:
  - an attribute access or comparison on `None` before the market is first advanced
    gives `Uninitialized`;
  - `StopIteration` gives `Exhausted`;
  - `iloc[0]` on an empty snapshot gives `NoQuotes`;
  - `.values[0]` on an empty selection gives `QuoteNotFound`;
  - the assertions give `SignViolation`, `NotSingleExpiring`, `NonPositiveStrike` and
    `OpenPositionsExist`.
- Objects the code updates in place are classes:
  - `Position` has `const` option, quantity and cost, and mutable close fields;
  - `Wallet` holds `cash` and a `seq` of positions;
  - `HistoricalMarket` holds a cursor and its current fields;
  - `Strategy` holds the market, a wallet it owns, and which variant it is.
- Loops that accumulate are methods with loop invariants, proved against recursive
  specification functions:
  - `CloseTotal` (the close values summed);
  - `IntrinsicExposure`;
  - `MarketExposureAsWritten`.
- The grouping (pandas `groupby`) is the pure function `QuoteTable.GroupBy`. It gives
  one snapshot per distinct key, in ascending key order, with the quotes of each key
  in table order.

Behaviour of the code that the model keeps as written:
- **Grouping key.** The market is described as iterating date by date. The code
  groups by the pair (quote date, underlying last price), and so does the model.
- **No double-close guard.** `Position.Close` overwrites an earlier close
  (`Scenarios.CloseTwice`).
- **Closed positions still count as open.** Being open means only "not past
  expiration". `Ledger.Open` has no `reads` clause, so it cannot depend on the close
  fields. A position closed on its expiration day therefore keeps the entry hook
  from running that tick (`Scenarios.ClosedStaysOpen` and `Strategies.Strategy.Run`).
- **Weekly buy-back leaves cash alone.** The weekly seller's expiring handler closes
  an in-the-money position through the market but does not book the close value. The
  default handler does book it.
- **Ideal days to expiration aim at Saturday.** The code computes `5 - weekday`, so:
  - the target day is always weekday 5, a Saturday;
  - on a Saturday the value is 7;
  - on a Sunday it is -1 (`Strategies.IdealDte`).
- **The strategy test's market constructor.** The strategy test passes a
  `current_date` argument that the market constructor does not take. The model plays
  that test on a market built over the table and advanced once
  (`Scenarios.StrategyTest`).

## Model

| member | source | states |
|---|---|---|
| Options.Option.IsItm | src/options.py:28-30 | a put is in the money exactly when the underlying trades strictly below its strike (definition; its consequences are stated by `IntrinsicValue` and `AtTheMoneyIsWorthless`) |
| Options.Option.IsExpiring | src/options.py:13-14 | the option expires on the day exactly when the day equals its expiration (definition; see `ExpiryTrichotomy`) |
| Options.Option.IsExpired | src/options.py:16-17 | the option is expired on the day exactly when the day is after its expiration (definition; see `ExpiryTrichotomy`) |
| Options.Option.IntrinsicValue | src/options.py:19-25 | never negative; it is the strike minus the underlying when the put is in the money and 0 otherwise; it is positive exactly when the put is in the money |
| Options.ExpiryTrichotomy | src/options.py:13-17 | a day is before the expiration, or the expiration day, or after it, and exactly one of these holds |
| Options.AtTheMoneyIsWorthless | src/options.py:28-30 | a put whose underlying equals its strike is not in the money and has intrinsic value 0 |
| Options.IntrinsicValueMonotone | src/options.py:19-30 | a put's intrinsic value does not grow as the underlying rises |
| Common.Filter | src/wallet.py:30-37 | the list comprehension: keeps only elements that satisfy the predicate, drops none that do, and never grows the list |
| Ledger.Position.constructor | src/wallet.py:2-7 | option, quantity and cost are stored as given; close value and close date are unset |
| Ledger.Position.IsExpired | src/wallet.py:9-10 | delegates to the option: expired exactly when the option is (definition) |
| Ledger.Position.IsExpiring | src/wallet.py:12-13 | delegates to the option: expiring exactly when the option is (definition) |
| Ledger.Position.Close | src/wallet.py:15-17 | sets the close date and value unconditionally, storing the date as given (unset included) and overwriting any earlier close; only the position changes |
| Ledger.Wallet.constructor | src/wallet.py:21-23 | cash is the given capital; there are no positions |
| Ledger.Wallet.AddPosition | src/wallet.py:25-28 | appends the position; with cash updating, cash drops by quantity × cost, so adding a short at a non-negative cost never lowers cash; without it, cash stays the same |
| Ledger.Wallet.ExpiredPositions | src/wallet.py:30-31 | exactly the wallet's positions past expiration on the day |
| Ledger.Wallet.ExpiringPositions | src/wallet.py:33-34 | exactly the wallet's positions expiring on the day |
| Ledger.Wallet.OpenPositions | src/wallet.py:36-37 | exactly the wallet's positions not past expiration on the day, whether closed or not |
| Ledger.OpenExpiredPartition | src/wallet.py:30-37 | the open and the expired positions split the list: their counts and their multisets add up to the whole |
| Ledger.ExpiringAreOpen | src/wallet.py:33-37 | every expiring position is open, and the expiring positions among the open ones are the expiring positions in the same order |
| Ledger.OpenAfterAppend | src/wallet.py:25-37 | appending a position appends it to the open positions exactly when it is not expired |
| QuoteTable.SortedKeys | src/markets.py:17 | the distinct (date, underlying) keys of the table, strictly ascending |
| QuoteTable.QuotesWithKey | src/markets.py:17 | every row with the key contributes its quote, and every quote comes from a row with that key |
| QuoteTable.QuotesWithKeySingle | src/markets.py:17 | one row contributes its quote exactly when it carries the key, and nothing otherwise |
| QuoteTable.QuotesWithKeyConcat | src/markets.py:17 | the selection keeps table order and duplicates: the quotes of two tables in a row are the first table's quotes followed by the second's |
| QuoteTable.GroupBy | src/markets.py:17 | one snapshot per sorted key, each carrying that key |
| QuoteTable.GroupByProperties | src/markets.py:17-18 | as many snapshots as distinct keys, in strictly ascending key order; each is non-empty and holds exactly its key's quotes in table order, duplicates kept (`QuotesWithKeyConcat`); every row lands in its key's snapshot |
| Markets.Nearest | src/markets.py:56-67 | the first row of a stable sort by (strike distance, dte distance): no row sorts strictly before it, and every earlier row sorts strictly after it, so of the rows tied on both distances the earliest is chosen |
| Markets.FindExact | src/markets.py:90-95 | the first row matching the expiration and strike exactly, or none exactly when no row matches |
| Markets.HistoricalMarket.constructor | src/markets.py:16-21 | the market is valid, its groups are exactly the grouping of the table, nothing is delivered yet, and current date, price and quotes are unset |
| Markets.HistoricalMarket.Len | src/markets.py:23-24 | the number of distinct (date, underlying) keys of the table |
| Markets.HistoricalMarket.Next | src/markets.py:26-44 | makes the next snapshot current and returns its date, price and quotes; the key strictly increases; once exhausted it fails and changes nothing |
| Markets.HistoricalMarket.NearestQuote | src/markets.py:56-67 | fails before the first advance and on an empty snapshot; otherwise the current row `Nearest` picks, which no other row sorts strictly before |
| Markets.HistoricalMarket.SellToOpen | src/markets.py:46-83 | a new short position of one put on the nearest row's strike and expiration, at its bid, with the close fields unset; the market is not changed |
| Markets.HistoricalMarket.Sell | src/markets.py:85-95 | the bid of the first current row quoting exactly the option; fails exactly when no row matches, or before the first advance |
| Markets.HistoricalMarket.Buy | src/markets.py:97-114 | the ask of the first current row quoting exactly the option; fails exactly when no row matches, or before the first advance |
| Markets.HistoricalMarket.CloseValue | src/markets.py:121-125 | an option expiring worthless today closes for 0 without a lookup |
| Markets.CloseValueFromQuotes | src/markets.py:121-135 | otherwise a long closes at bid × quantity and a short at ask × quantity; a failed lookup or a value of the wrong sign makes the close fail |
| Markets.CloseValueSign | src/markets.py:126-135 | a long's close value is never negative and a short's is never positive |
| Markets.CloseSignHolds | src/markets.py:126-135 | with well-formed quotes (bid at least 0, ask at least bid) the sign assertion never fails |
| Markets.HistoricalMarket.Close | src/markets.py:116-140 | returns the close value; a dry run changes nothing; a real close that succeeds stamps the position, through `Position.Close`, with today's date and that value; a failed close leaves it as it was |
| Markets.HistoricalMarket.GetQuotes | src/markets.py:142-154 | unset before the first advance, then the current snapshot's quotes |
| Strategies.IdealDte | src/strategies.py:102-110 | 5 minus the weekday, with 0 replaced by 7: lands on a Saturday; between 1 and 7 from Monday to Saturday; -1 on a Sunday |
| Strategies.IdealStrike | src/strategies.py:112-113 | the underlying times the multiplier: the underlying itself for multiplier 1, positive for positive inputs |
| Strategies.ShortExposureNonPositive | src/strategies.py:65-72 | for a book of short or empty positions the intrinsic valuation never exceeds cash |
| Strategies.SettlementAgreement | src/strategies.py:65-79 | when every position expires worthless today, the intrinsic valuation, the close total and the as-written market valuation all add 0 to cash |
| Strategies.AsWrittenFlipsUnitShorts | src/strategies.py:74-79 | for single short contracts the as-written market sum is minus the close total: the quantity is applied twice |
| Strategies.Strategy.constructor | src/strategies.py:8-10 | the given market and a new wallet holding the capital and no positions |
| Strategies.Strategy.WritePut | src/strategies.py:12-19 | fails for a non-positive ideal strike, or when no row can be chosen, changing nothing; else it appends exactly one new short position from the nearest row and adds its bid to cash |
| Strategies.Strategy.CloseAndBook | src/strategies.py:23-25 | one step of the default handler: closes the position through the market and adds the close value to cash; on failure cash and the position are unchanged |
| Strategies.Strategy.HandleExpiringDefault | src/strategies.py:21-25 | closes each position in order and adds each close value to cash, so on success cash grows by the close total and every position is stamped with today's date and its close value; on the first failing close it stops with that close's error, the positions before it stamped and booked, and the rest untouched |
| Strategies.Strategy.HandleExpiringWeekly | src/strategies.py:115-123 | exactly one expiring position allowed; with one, the result is `WeeklyExpiringOutcome`: unset underlying fails, out of the money passes, in the money passes or fails as the buy-back does; it is stamped if and only if it is in the money and its close succeeds; any other position keeps its close fields; cash and positions never change |
| Strategies.Strategy.HandleExpiring | src/strategies.py:21-25 | the variant dispatch of the expiring handler: the base strategy closes and books every position as the default handler does, with the same result, cash and stamps; the weekly seller fails unless exactly one position expires, otherwise returns `WeeklyExpiringOutcome` for it, never touches cash, and stamps as its own handler does |
| Strategies.Strategy.SettleExpiring | src/strategies.py:50-52 | the handler runs only on today's expiring positions and only if there are any; with none the phase passes and changes nothing; only those positions can be stamped; for the weekly seller the result is `NotSingleExpiring` for several and `WeeklyExpiringOutcome` for one |
| Strategies.Strategy.HandleOpenOrEnter | src/strategies.py:54-63 | with open positions the tick passes and changes nothing; with none the entry hook runs: nothing for the base strategy, one new put from the nearest row for the weekly seller |
| Strategies.Strategy.HandleNoOpenPositions | src/strategies.py:125-132 | the base strategy does nothing; the weekly seller refuses when positions are open, else writes one put at its ideal strike and days to expiration |
| Strategies.Strategy.Run | src/strategies.py:43-63 | the expiring handler runs first and its failure stops the tick; only today's expiring positions can change, and each is stamped with its close exactly as its handler says, every other position keeping its close fields; the entry hook runs exactly when nothing is open; positions only ever grow by at most one; with something open the weekly seller's result is that of its expiring phase (pass with nothing expiring, `WeeklyExpiringOutcome` for one, `NotSingleExpiring` for several); with nothing open it writes a new put from the nearest row, booking its bid |
| Strategies.Strategy.GetCurrentValue | src/strategies.py:65-72 | cash plus the sum of quantity × intrinsic value over the open positions; before the first advance it is the cash when there are no positions and fails otherwise; changes nothing |
| Strategies.Strategy.GetCurrentMarketValue | src/strategies.py:74-79 | cash plus the sum of quantity × dry-run close value over the open positions, as written; changes nothing; fails like the first failing close |
| Strategies.Strategy.SumAsWritten | src/strategies.py:77-79 | the loop of the as-written market valuation: equals the specification sum, or fails with its error |
| Strategies.Strategy.GetMarkToMarketValue | src/strategies.py:74-79 | the corrected market valuation: cash plus the close total of the open positions |
| Scenarios.FirstSnapshot | src/tests/test_markets.py:46-60 | on any one-day table of three rows the market has length 1, and the first advance returns the table's date, price and rows and makes them current |
| Scenarios.MarketTestFirstDate | src/tests/test_markets.py:46-60 | on the market test's table the first advance yields 2020-01-01, price 99 and the three rows |
| Scenarios.IterateAll | src/tests/test_markets.py:62-74 | advancing until exhausted yields every key once, ascending, as many as the market's length |
| Scenarios.AtTheMoneyIsNearest | src/tests/test_strategies.py:39-42 | with ideal strike 99.5 and 3 days, the 100 put is chosen although every row is 7 days out |
| Scenarios.ShortPutValuations | src/tests/test_strategies.py:43-47 | a short 100 put at 99.5 has intrinsic term -0.5, buy-back -1.1, and as-written market term 1.1 |
| Scenarios.FirstTick | src/tests/test_strategies.py:31-44 | one tick of the weekly seller on 2020-01-01 writes the 100 put and leaves cash at 1.0 |
| Scenarios.OpeningNewPositions | src/tests/test_strategies.py:31-48 | cash 1.0, intrinsic valuation 0.5, one open position; as-written market valuation 2.1 and corrected -0.1 |
| Scenarios.StrategyTest | src/tests/test_strategies.py:31-48 | the same outcome with the market built over the test's table and advanced once |
| Scenarios.QuietTick | src/strategies.py:43-63 | a weekly seller whose one position is open and not expiring passes the tick with cash and positions unchanged |
| Scenarios.MissingBuyBackQuote | src/strategies.py:115-123 | a weekly seller whose one expiring put is in the money and has no quote fails the tick with the lookup error, booking nothing |
| Scenarios.CloseTwice | src/wallet.py:15-17 | after two closes the second close's date and value are the ones recorded |
| Scenarios.ClosedStaysOpen | src/wallet.py:36-37 | a position closed on its expiration day is still among that day's open positions |

## Left out

- `1_load.py` and `2_select.py` are not part of this model. They walk the file system, read and write CSV and parquet, and coerce pandas types. This is I/O with no logic of its own.
- `3_main.py` is not part of this model. It drives several strategies with a progress bar, and it refers to strategies that do not exist in the code.
- pandas itself (`groupby`, `sort_values`, `.loc`, `.copy`). It is replaced by sequences of records and the selection functions above.
- Floating point. Prices and the multiplier are exact reals, so rounding and the tests' `pytest.approx` are not modelled.
- `pd.Timestamp` and calendar arithmetic. Dates are day numbers and the weekday is modular arithmetic.
- The commented-out call option and the `@abstractmethod` machinery. Only the put exists. The base strategy's abstract entry hook does nothing, as it does when called in Python.
- `__repr__` methods and the tests' `print` calls, which only produce text.
- The strategy's `get_expiring_positions`, `get_open_positions` and `get_expired_positions` (src/strategies.py:34-41). They are one-line delegations to the wallet queries at the market's current date, and the model uses the wallet queries directly.
- `HandleOpenPositions` has an empty body in every strategy. It is modelled as a method that does nothing and has no row above.
- The eight-week fixture of the iteration test is not replayed literally. `Scenarios.IterateAll` proves the general statement for any table.
- Markets.HistoricalMarket.GetQuotes: ignores the `date` argument, as the code does, so it takes no argument.

## Findings

| source | as written | input that shows it | evidently intended | confidence | as-written member | corrected member |
|---|---|---|---|---|---|---|
| src/strategies.py:78 | adds quantity × `close(position, dry_run=True)`, but the close value already includes the quantity (src/markets.py:127, 132), so the quantity is applied twice | the strategy test: cash 1.0 and one short 100 put with ask 1.1 give 1.0 + (-1)(-1.1) = 2.1 (`Scenarios.OpeningNewPositions`, `Strategies.AsWrittenFlipsUnitShorts`) | cash plus the close value of each open position: 1.0 - 1.1 = -0.1, the value src/tests/test_strategies.py:46 asserts | not executed; the arithmetic follows from the code | Strategies.Strategy.GetCurrentMarketValue | Strategies.Strategy.GetMarkToMarketValue |
