/** The historical market: a forward-only cursor over the grouped quote table that
    executes trades against the current snapshot. */
module Markets {
  import opened Common
  import opened Options
  import opened Ledger
  import opened QuoteTable

  function StrikeDistance(q: Quote, idealStrike: real): real
  {
    Abs(q.strike - idealStrike)
  }

  function DteDistance(q: Quote, idealDte: int): int
  {
    if q.dte >= idealDte then q.dte - idealDte else idealDte - q.dte
  }

  /** `a` sorts strictly before `b` by (strike distance, dte distance). */
  predicate Closer(a: Quote, b: Quote, idealStrike: real, idealDte: int)
  {
    StrikeDistance(a, idealStrike) < StrikeDistance(b, idealStrike)
    || (StrikeDistance(a, idealStrike) == StrikeDistance(b, idealStrike)
        && DteDistance(a, idealDte) < DteDistance(b, idealDte))
  }

  /** The first row after a stable sort by strike distance, then by dte distance:
      no row sorts strictly before it, and every earlier row sorts strictly after it. */
  function Nearest(qs: seq<Quote>, idealStrike: real, idealDte: int): (i: nat)
    requires |qs| > 0
    ensures i < |qs|
    ensures forall j :: 0 <= j < |qs| ==> !Closer(qs[j], qs[i], idealStrike, idealDte)
    ensures forall j :: 0 <= j < i ==> Closer(qs[i], qs[j], idealStrike, idealDte)
  {
    if |qs| == 1 then 0
    else
      var j := Nearest(qs[1..], idealStrike, idealDte) + 1;
      if Closer(qs[j], qs[0], idealStrike, idealDte) then j else 0
  }

  /** The row quotes exactly this contract. */
  predicate Matches(q: Quote, o: Option)
  {
    q.expiration == o.expiration && q.strike == o.strike
  }

  /** The first row quoting exactly `o`, if any. */
  function FindExact(qs: seq<Quote>, o: Option): (r: Optional<nat>)
    ensures r.Some? ==> r.value < |qs| && Matches(qs[r.value], o)
    ensures r.Some? ==> forall j :: 0 <= j < r.value ==> !Matches(qs[j], o)
    ensures r.None? <==> forall j :: 0 <= j < |qs| ==> !Matches(qs[j], o)
  {
    if qs == [] then None
    else if Matches(qs[0], o) then Some(0)
    else match FindExact(qs[1..], o)
      case None => None
      case Some(j) => Some(j + 1)
  }

  class HistoricalMarket {
    /** The quote table the market was built over, and its groups in key order. */
    const table: seq<Row>
    const groups: seq<Snapshot>
    /** How many groups have been delivered so far. */
    var cursor: nat
    var currentDate: Optional<Date>
    var underlyingLast: Optional<real>
    var currentQuotes: Optional<seq<Quote>>

    /** The current fields are unset before the first advance, and afterwards are
        those of the last group delivered. */
    ghost predicate Valid()
      reads this
    {
      && groups == GroupBy(table)
      && |groups| == |KeysOf(table)|
      && (forall i, j :: 0 <= i < j < |groups| ==> KeyLess(SnapshotKey(groups[i]), SnapshotKey(groups[j])))
      && cursor <= |groups|
      && (cursor == 0 ==> currentDate == None && underlyingLast == None && currentQuotes == None)
      && (cursor > 0 ==>
            && currentDate == Some(groups[cursor - 1].date)
            && underlyingLast == Some(groups[cursor - 1].underlyingLast)
            && currentQuotes == Some(groups[cursor - 1].quotes))
    }

    constructor (quotes: seq<Row>)
      ensures Valid() && table == quotes && groups == GroupBy(quotes) && cursor == 0
      ensures currentDate == None && underlyingLast == None && currentQuotes == None
    {
      table := quotes;
      groups := GroupBy(quotes);
      GroupByProperties(quotes);
      cursor := 0;
      currentDate, underlyingLast, currentQuotes := None, None, None;
    }

    /** The number of snapshots: the number of distinct (date, underlying) pairs in the table. */
    function Len(): (n: nat)
      reads this
      requires Valid()
      ensures n == |KeysOf(table)|
    {
      |groups|
    }

    /** Advances to the next group and makes it current, or fails once every group
        has been delivered, leaving the market as it was. */
    method Next() returns (r: Result<(Date, real, seq<Quote>)>)
      requires Valid()
      modifies this
      ensures Valid()
      ensures old(cursor) < |groups| ==>
        && cursor == old(cursor) + 1
        && r == Ok((groups[old(cursor)].date, groups[old(cursor)].underlyingLast, groups[old(cursor)].quotes))
        && currentDate == Some(r.value.0) && underlyingLast == Some(r.value.1) && currentQuotes == Some(r.value.2)
      ensures old(cursor) == |groups| ==>
        && r == Err(Exhausted) && cursor == old(cursor)
        && currentDate == old(currentDate) && underlyingLast == old(underlyingLast) && currentQuotes == old(currentQuotes)
      ensures r.Ok? && old(currentDate).Some? ==>
        KeyLess(Key(old(currentDate).value, old(underlyingLast).value), Key(currentDate.value, underlyingLast.value))
    {
      if cursor == |groups| {
        return Err(Exhausted);
      }
      var g := groups[cursor];
      cursor := cursor + 1;
      currentDate, underlyingLast, currentQuotes := Some(g.date), Some(g.underlyingLast), Some(g.quotes);
      r := Ok((g.date, g.underlyingLast, g.quotes));
    }

    /** The row to write a put from: one no other current row sorts strictly before. */
    function NearestQuote(idealStrike: real, idealDte: int): (r: Result<Quote>)
      reads this
      ensures currentQuotes.None? ==> r == Err(Uninitialized)
      ensures currentQuotes.Some? && currentQuotes.value == [] ==> r == Err(NoQuotes)
      ensures currentQuotes.Some? && currentQuotes.value != [] ==>
        && r.Ok? && r.value in currentQuotes.value
        && (forall q :: q in currentQuotes.value ==> !Closer(q, r.value, idealStrike, idealDte))
        && r.value == currentQuotes.value[Nearest(currentQuotes.value, idealStrike, idealDte)]
    {
      match currentQuotes
      case None => Err(Uninitialized)
      case Some(qs) =>
        if qs == [] then Err(NoQuotes)
        else Ok(qs[Nearest(qs, idealStrike, idealDte)])
    }

    /** Writes one put from the nearest row, priced at its bid. The market is not
        changed and the position is not registered anywhere. */
    method SellToOpen(idealStrike: real, idealDte: int) returns (r: Result<Position>)
      ensures NearestQuote(idealStrike, idealDte).Err? ==> r == Err(NearestQuote(idealStrike, idealDte).error)
      ensures NearestQuote(idealStrike, idealDte).Ok? ==>
        var q := NearestQuote(idealStrike, idealDte).value;
        && r.Ok? && fresh(r.value)
        && r.value.option == Put(q.strike, q.expiration)
        && r.value.quantity == -1 && r.value.cost == q.bid
        && r.value.closeValue == None && r.value.closedAt == None
    {
      var nearest := NearestQuote(idealStrike, idealDte);
      if nearest.Err? {
        return Err(nearest.error);
      }
      var q := nearest.value;
      var p := new Position(Put(q.strike, q.expiration), -1, q.bid);
      r := Ok(p);
    }

    /** The bid of the first current row quoting exactly `o`. */
    function Sell(o: Option): (r: Result<real>)
      reads this
      ensures currentQuotes.None? ==> r == Err(Uninitialized)
      ensures currentQuotes.Some? ==>
        (r == Err(QuoteNotFound) <==> forall q :: q in currentQuotes.value ==> !Matches(q, o))
      ensures r.Ok? ==> exists q :: q in currentQuotes.value && Matches(q, o) && r.value == q.bid
      ensures currentQuotes.Some? && FindExact(currentQuotes.value, o).Some? ==>
        r == Ok(currentQuotes.value[FindExact(currentQuotes.value, o).value].bid)
    {
      match currentQuotes
      case None => Err(Uninitialized)
      case Some(qs) =>
        match FindExact(qs, o)
        case None => Err(QuoteNotFound)
        case Some(i) => Ok(qs[i].bid)
    }

    /** The ask of the first current row quoting exactly `o`. */
    function Buy(o: Option): (r: Result<real>)
      reads this
      ensures currentQuotes.None? ==> r == Err(Uninitialized)
      ensures currentQuotes.Some? ==>
        (r == Err(QuoteNotFound) <==> forall q :: q in currentQuotes.value ==> !Matches(q, o))
      ensures r.Ok? ==> exists q :: q in currentQuotes.value && Matches(q, o) && r.value == q.ask
      ensures currentQuotes.Some? && FindExact(currentQuotes.value, o).Some? ==>
        r == Ok(currentQuotes.value[FindExact(currentQuotes.value, o).value].ask)
    {
      match currentQuotes
      case None => Err(Uninitialized)
      case Some(qs) =>
        match FindExact(qs, o)
        case None => Err(QuoteNotFound)
        case Some(i) => Ok(qs[i].ask)
    }

    /** The option expires worthless today: no trade is needed to close it. */
    predicate ExpiresWorthless(o: Option)
      reads this
    {
      currentDate.Some? && underlyingLast.Some? && o.IsExpiring(currentDate.value) && !o.IsItm(underlyingLast.value)
    }

    /** The credit (positive) or debit (negative) of closing `quantity` contracts of
        `o` now: nothing for a worthless expiry, the bid for a long, the ask for a short. */
    function CloseValue(o: Option, quantity: int): (r: Result<real>)
      reads this
      ensures ExpiresWorthless(o) ==> r == Ok(0.0)
    {
      if ExpiresWorthless(o) then Ok(0.0)
      else if quantity > 0 then
        match Sell(o)
        case Err(e) => Err(e)
        case Ok(bid) => var v := bid * quantity as real; if v >= 0.0 then Ok(v) else Err(SignViolation)
      else
        match Buy(o)
        case Err(e) => Err(e)
        case Ok(ask) => var v := ask * quantity as real; if v <= 0.0 then Ok(v) else Err(SignViolation)
    }

    /** `p` is recorded as closed today, at the value a close would book now. */
    ghost predicate Stamped(p: Position)
      reads this, p
    {
      p.closedAt == currentDate && p.closeValue.Some? && CloseValue(p.option, p.quantity) == Ok(p.closeValue.value)
    }

    /** Values the close of `p`; unless `dryRun`, also stamps `p` as closed today
        with that value. A failed close leaves `p` as it was. */
    method Close(p: Position, dryRun: bool) returns (r: Result<real>)
      modifies if dryRun then {} else {p}
      ensures r == CloseValue(p.option, p.quantity)
      ensures !dryRun && r.Ok? ==> p.closedAt == currentDate && p.closeValue == Some(r.value) && Stamped(p)
      ensures dryRun || r.Err? ==> p.closedAt == old(p.closedAt) && p.closeValue == old(p.closeValue)
    {
      r := CloseValue(p.option, p.quantity);
      if !dryRun && r.Ok? {
        p.Close(currentDate, r.value);
      }
    }

    /** Some position of `ps` is open on the current date. */
    predicate OpenExists(ps: seq<Position>)
      reads this
      requires currentDate.Some?
    {
      Open(ps, currentDate.value) != []
    }

    /** The current snapshot's rows. */
    function GetQuotes(): (r: Optional<seq<Quote>>)
      reads this
      requires Valid()
      ensures cursor == 0 <==> r == None
      ensures cursor > 0 ==> r == Some(groups[cursor - 1].quotes)
    {
      currentQuotes
    }
  }

  /** A close value is asserted to have the sign that closing the position calls for:
      a long is sold (a credit, never negative), a short is bought back (a debit, never
      positive). */
  lemma CloseValueSign(m: HistoricalMarket, o: Option, quantity: int)
    ensures m.CloseValue(o, quantity).Ok? && quantity > 0 ==> m.CloseValue(o, quantity).value >= 0.0
    ensures m.CloseValue(o, quantity).Ok? && quantity <= 0 ==> m.CloseValue(o, quantity).value <= 0.0
  {
  }

  /** Unless the option expires worthless today, a long is closed at the bid and a
      short at the ask of the exact-match quote, times the quantity; a missing quote or an
      unadvanced market makes the close fail, and so does a close value of the wrong sign. */
  lemma CloseValueFromQuotes(m: HistoricalMarket, o: Option, quantity: int)
    ensures !m.ExpiresWorthless(o) && quantity > 0 && m.Sell(o).Err? ==>
      m.CloseValue(o, quantity) == Err(m.Sell(o).error)
    ensures !m.ExpiresWorthless(o) && quantity > 0 && m.Sell(o).Ok? ==>
      && (m.CloseValue(o, quantity).Ok? <==> m.Sell(o).value >= 0.0)
      && (m.CloseValue(o, quantity).Ok? ==> m.CloseValue(o, quantity).value == m.Sell(o).value * quantity as real)
      && (m.CloseValue(o, quantity).Err? ==> m.CloseValue(o, quantity).error == SignViolation)
    ensures !m.ExpiresWorthless(o) && quantity <= 0 && m.Buy(o).Err? ==>
      m.CloseValue(o, quantity) == Err(m.Buy(o).error)
    ensures !m.ExpiresWorthless(o) && quantity <= 0 && m.Buy(o).Ok? ==>
      && (m.CloseValue(o, quantity).Ok? <==> m.Buy(o).value >= 0.0 || quantity == 0)
      && (m.CloseValue(o, quantity).Ok? ==> m.CloseValue(o, quantity).value == m.Buy(o).value * quantity as real)
      && (m.CloseValue(o, quantity).Err? ==> m.CloseValue(o, quantity).error == SignViolation)
  {
    if !m.ExpiresWorthless(o) {
      if quantity > 0 && m.Sell(o).Ok? {
        ScaledSign(m.Sell(o).value, quantity);
      } else if quantity <= 0 && m.Buy(o).Ok? {
        ScaledSign(m.Buy(o).value, quantity);
      }
    }
  }

  /** The sign of a price times a quantity. */
  lemma ScaledSign(price: real, quantity: int)
    ensures quantity > 0 ==> (price * quantity as real >= 0.0 <==> price >= 0.0)
    ensures quantity < 0 ==> (price * quantity as real <= 0.0 <==> price >= 0.0)
    ensures quantity == 0 ==> price * quantity as real == 0.0
  {
    if quantity > 0 && price < 0.0 {
      assert price * quantity as real < 0.0;
    }
    if quantity < 0 && price < 0.0 {
      assert price * quantity as real > 0.0;
    }
  }

  /** With non-negative quotes, closing never trips the sign assertion: it either
      succeeds or fails for a missing quote or an unadvanced market. */
  lemma CloseSignHolds(m: HistoricalMarket, o: Option, quantity: int)
    requires m.currentQuotes.Some? ==> forall q :: q in m.currentQuotes.value ==> WellFormed(q)
    ensures m.CloseValue(o, quantity) != Err(SignViolation)
  {
    if !m.ExpiresWorthless(o) && m.currentQuotes.Some? {
      var qs := m.currentQuotes.value;
      match FindExact(qs, o)
      case None =>
      case Some(i) =>
        assert WellFormed(qs[i]);
        if quantity > 0 {
          assert qs[i].bid * quantity as real >= 0.0;
        } else {
          assert qs[i].ask * quantity as real <= 0.0;
        }
    }
  }
}
