/** The portfolio ledger: positions and the wallet that owns them. */
module Ledger {
  import opened Common
  import opened Options

  /** One holding of an option. The option, the signed quantity (positive = long,
      negative = short) and the opening price per contract are fixed when the
      position is made; the close fields start unset and are filled in by Close. */
  class Position {
    const option: Option
    const quantity: int
    const cost: real
    var closeValue: Optional<real>
    var closedAt: Optional<Date>

    constructor (option: Option, quantity: int, cost: real)
      ensures this.option == option && this.quantity == quantity && this.cost == cost
      ensures closeValue == None && closedAt == None
    {
      this.option := option;
      this.quantity := quantity;
      this.cost := cost;
      closeValue := None;
      closedAt := None;
    }

    predicate IsExpired(d: Date)
    {
      option.IsExpired(d)
    }

    predicate IsExpiring(d: Date)
    {
      option.IsExpiring(d)
    }

    /** Records the close. There is no guard against closing twice: a second call
        overwrites the first. The date is stored as given, unset included. */
    method Close(d: Optional<Date>, value: real)
      modifies this
      ensures closedAt == d && closeValue == Some(value)
    {
      closeValue := Some(value);
      closedAt := d;
    }
  }

  /** The positions of `ps` past their expiration on `d`. */
  function Expired(ps: seq<Position>, d: Date): seq<Position>
  {
    Filter(ps, (p: Position) => p.IsExpired(d))
  }

  /** The positions of `ps` expiring exactly on `d`. */
  function Expiring(ps: seq<Position>, d: Date): seq<Position>
  {
    Filter(ps, (p: Position) => p.IsExpiring(d))
  }

  /** The positions of `ps` not yet past their expiration on `d`, closed or not. */
  function Open(ps: seq<Position>, d: Date): seq<Position>
  {
    Filter(ps, (p: Position) => !p.IsExpired(d))
  }

  /** On any day, the expired and the open positions split the ledger: every entry is
      in exactly one of the two. */
  lemma OpenExpiredPartition(ps: seq<Position>, d: Date)
    ensures |Open(ps, d)| + |Expired(ps, d)| == |ps|
    ensures multiset(Open(ps, d)) + multiset(Expired(ps, d)) == multiset(ps)
  {
    FilterPartition(ps, (p: Position) => !p.IsExpired(d), (p: Position) => p.IsExpired(d));
  }

  /** Every expiring position is open: selecting the expiring ones among the open ones
      gives the expiring positions, in the same order. */
  lemma ExpiringAreOpen(ps: seq<Position>, d: Date)
    ensures Expiring(Open(ps, d), d) == Expiring(ps, d)
    ensures forall p :: p in Expiring(ps, d) ==> p in Open(ps, d)
  {
    FilterNested(ps, (p: Position) => !p.IsExpired(d), (p: Position) => p.IsExpiring(d));
  }

  /** Appending a position to the ledger appends it to the open positions exactly when
      it is not expired; the earlier open positions keep their order. */
  lemma OpenAfterAppend(ps: seq<Position>, p: Position, d: Date)
    ensures Open(ps + [p], d) == Open(ps, d) + (if p.IsExpired(d) then [] else [p])
  {
    FilterConcat(ps, [p], (q: Position) => !q.IsExpired(d));
  }

  /** The cash balance and the append-only list of positions of one strategy. */
  class Wallet {
    var cash: real
    var positions: seq<Position>

    constructor (capital: real)
      ensures cash == capital && positions == []
    {
      cash := capital;
      positions := [];
    }

    /** Registers a position; with `updateCash` the premium is booked, so selling
        (negative quantity) adds to cash and buying takes from it. */
    method AddPosition(p: Position, updateCash: bool)
      modifies this
      ensures positions == old(positions) + [p]
      ensures cash == if updateCash then old(cash) - p.quantity as real * p.cost else old(cash)
      ensures updateCash && p.quantity < 0 && p.cost >= 0.0 ==> cash >= old(cash)
    {
      if updateCash {
        cash := cash - p.quantity as real * p.cost;
      }
      positions := positions + [p];
    }

    function ExpiredPositions(d: Date): (r: seq<Position>)
      reads this
      ensures forall i :: 0 <= i < |r| ==> r[i] in positions && r[i].IsExpired(d)
      ensures forall i :: 0 <= i < |positions| && positions[i].IsExpired(d) ==> positions[i] in r
    {
      Expired(positions, d)
    }

    function ExpiringPositions(d: Date): (r: seq<Position>)
      reads this
      ensures forall i :: 0 <= i < |r| ==> r[i] in positions && r[i].IsExpiring(d)
      ensures forall i :: 0 <= i < |positions| && positions[i].IsExpiring(d) ==> positions[i] in r
    {
      Expiring(positions, d)
    }

    /** Open means "not past expiration": the close fields are not consulted, so a
        position closed today still counts as open today. */
    function OpenPositions(d: Date): (r: seq<Position>)
      reads this
      ensures forall i :: 0 <= i < |r| ==> r[i] in positions && !r[i].IsExpired(d)
      ensures forall i :: 0 <= i < |positions| && !positions[i].IsExpired(d) ==> positions[i] in r
    {
      Open(positions, d)
    }
  }
}
