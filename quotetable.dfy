/** The canonical quote table and its grouping into per-(date, underlying) snapshots. */
module QuoteTable {
  import opened Options

  /** One quoted put contract, as the market keeps it: a row of the table without
      its quote-date and underlying-price columns. */
  datatype Quote = Quote(strike: real, expiration: Date, dte: int, bid: real, ask: real)

  /** One row of the table: a contract quoted on `quoteDate` while the underlying
      last traded at `underlyingLast`. */
  datatype Row = Row(quoteDate: Date, underlyingLast: real, quote: Quote)

  /** The grouping key of a row. */
  datatype Key = Key(date: Date, underlying: real)

  /** The quotes of one group, with the group's key. */
  datatype Snapshot = Snapshot(date: Date, underlyingLast: real, quotes: seq<Quote>)

  function KeyOf(r: Row): Key
  {
    Key(r.quoteDate, r.underlyingLast)
  }

  function SnapshotKey(s: Snapshot): Key
  {
    Key(s.date, s.underlyingLast)
  }

  /** The order of group keys: by date, then by underlying price. */
  predicate KeyLess(a: Key, b: Key)
  {
    a.date < b.date || (a.date == b.date && a.underlying < b.underlying)
  }

  predicate StrictlyAscending(ks: seq<Key>)
  {
    forall i, j :: 0 <= i < j < |ks| ==> KeyLess(ks[i], ks[j])
  }

  /** The distinct keys of a table. */
  function KeysOf(rows: seq<Row>): set<Key>
  {
    set r | r in rows :: KeyOf(r)
  }

  /** Inserts `k` into a strictly ascending key list, unless it is there already. */
  function Insert(k: Key, ks: seq<Key>): (r: seq<Key>)
    requires StrictlyAscending(ks)
    ensures StrictlyAscending(r)
    ensures forall x :: x in r <==> x == k || x in ks
  {
    if ks == [] then [k]
    else if k == ks[0] then ks
    else if KeyLess(k, ks[0]) then [k] + ks
    else
      var rest := Insert(k, ks[1..]);
      assert KeyLess(ks[0], k);
      assert forall j :: 0 <= j < |rest| ==> KeyLess(ks[0], rest[j]) by {
        forall j | 0 <= j < |rest| ensures KeyLess(ks[0], rest[j]) {
          assert rest[j] in rest;
        }
      }
      [ks[0]] + rest
  }

  /** The distinct keys of a table, in ascending order. */
  function SortedKeys(rows: seq<Row>): (ks: seq<Key>)
    ensures StrictlyAscending(ks)
    ensures forall k :: k in ks <==> k in KeysOf(rows)
  {
    if rows == [] then []
    else
      assert KeysOf(rows) == {KeyOf(rows[0])} + KeysOf(rows[1..]) by {
        assert forall r :: r in rows <==> r == rows[0] || r in rows[1..];
      }
      Insert(KeyOf(rows[0]), SortedKeys(rows[1..]))
  }

  /** The quotes of the rows whose key is `k`, in table order. */
  function QuotesWithKey(rows: seq<Row>, k: Key): (qs: seq<Quote>)
    ensures |qs| <= |rows|
    ensures forall r :: r in rows && KeyOf(r) == k ==> r.quote in qs
    ensures forall q :: q in qs ==> Row(k.date, k.underlying, q) in rows
  {
    if rows == [] then []
    else (if KeyOf(rows[0]) == k then [rows[0].quote] else []) + QuotesWithKey(rows[1..], k)
  }

  /** A single row contributes its quote exactly when it carries the key. */
  lemma QuotesWithKeySingle(r: Row, k: Key)
    ensures QuotesWithKey([r], k) == if KeyOf(r) == k then [r.quote] else []
  {
  }

  /** The selection keeps table order and every duplicate: the quotes of two tables
      one after the other are the quotes of the first followed by those of the second. */
  lemma {:induction false} QuotesWithKeyConcat(a: seq<Row>, b: seq<Row>, k: Key)
    ensures QuotesWithKey(a + b, k) == QuotesWithKey(a, k) + QuotesWithKey(b, k)
  {
    if a == [] {
      assert a + b == b;
    } else {
      assert (a + b)[1..] == a[1..] + b;
      QuotesWithKeyConcat(a[1..], b, k);
    }
  }

  /** A strictly ascending list has no repeated key. */
  lemma {:induction false} AscendingDistinct(ks: seq<Key>)
    requires StrictlyAscending(ks)
    ensures |set k | k in ks| == |ks|
  {
    if ks != [] {
      AscendingDistinct(ks[1..]);
      assert (set k | k in ks) == {ks[0]} + (set k | k in ks[1..]);
      assert ks[0] !in ks[1..];
    }
  }

  /** The table grouped by (date, underlying): the i-th snapshot carries the i-th
      smallest key and the quotes of that key in table order. */
  function GroupBy(rows: seq<Row>): (g: seq<Snapshot>)
    ensures |g| == |SortedKeys(rows)|
    ensures forall i :: 0 <= i < |g| ==> SnapshotKey(g[i]) == SortedKeys(rows)[i]
  {
    var ks := SortedKeys(rows);
    seq(|ks|, i requires 0 <= i < |ks| => Snapshot(ks[i].date, ks[i].underlying, QuotesWithKey(rows, ks[i])))
  }

  /** The grouping has one snapshot per distinct key, in strictly ascending key order;
      no snapshot is empty; each holds exactly the quotes of its key, in table order;
      and every row of the table lands in the snapshot of its key. */
  lemma GroupByProperties(rows: seq<Row>)
    ensures |GroupBy(rows)| == |KeysOf(rows)|
    ensures forall i, j :: 0 <= i < j < |GroupBy(rows)| ==>
      KeyLess(SnapshotKey(GroupBy(rows)[i]), SnapshotKey(GroupBy(rows)[j]))
    ensures forall i :: 0 <= i < |GroupBy(rows)| ==>
      && SnapshotKey(GroupBy(rows)[i]) in KeysOf(rows)
      && GroupBy(rows)[i].quotes == QuotesWithKey(rows, SnapshotKey(GroupBy(rows)[i]))
      && |GroupBy(rows)[i].quotes| > 0
    ensures forall r :: r in rows ==>
      exists i :: 0 <= i < |GroupBy(rows)| && SnapshotKey(GroupBy(rows)[i]) == KeyOf(r)
        && r.quote in GroupBy(rows)[i].quotes
  {
    var ks := SortedKeys(rows);
    var g := GroupBy(rows);
    AscendingDistinct(ks);
    assert (set k | k in ks) == KeysOf(rows);
    forall i | 0 <= i < |g|
      ensures SnapshotKey(g[i]) in KeysOf(rows)
      ensures g[i].quotes == QuotesWithKey(rows, SnapshotKey(g[i]))
      ensures |g[i].quotes| > 0
    {
      assert ks[i] in ks;
      var r :| r in rows && KeyOf(r) == ks[i];
      assert r.quote in g[i].quotes;
    }
    forall r | r in rows
      ensures exists i :: 0 <= i < |g| && SnapshotKey(g[i]) == KeyOf(r) && r.quote in g[i].quotes
    {
      assert KeyOf(r) in KeysOf(rows);
      var i :| 0 <= i < |ks| && ks[i] == KeyOf(r);
      assert SnapshotKey(g[i]) == KeyOf(r) && r.quote in g[i].quotes;
    }
  }

  /** The input contract on quotes: non-negative days to expiration and bid, and an
      ask no lower than the bid. */
  predicate WellFormed(q: Quote)
  {
    q.dte >= 0 && q.bid >= 0.0 && q.ask >= q.bid
  }
}
