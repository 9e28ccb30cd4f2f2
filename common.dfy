/** Shared vocabulary: optional values, the engine's error taxonomy, results,
    and an order-preserving filter over sequences (the Python list comprehension
    `[x for x in xs if keep(x)]`). */
module Common {

  /** A value that may be unset (Python `None`). */
  datatype Optional<+T> = None | Some(value: T)

  /** The ways an operation of the engine fails. */
  datatype Error =
    | Uninitialized        // a query on a market that has not been advanced (attribute of None)
    | Exhausted            // advancing past the last snapshot (StopIteration)
    | NoQuotes             // selecting from an empty snapshot (iloc[0] on an empty frame)
    | QuoteNotFound        // no row matches an exact (expiration, strike) lookup (values[0] on an empty selection)
    | SignViolation        // the sign assertion on a close value fails
    | NotSingleExpiring    // a single-position strategy sees more than one expiring position
    | NonPositiveStrike    // write_put called with an ideal strike that is not positive
    | OpenPositionsExist   // the entry hook called while positions are still open

  datatype Result<+T> = Ok(value: T) | Err(error: Error)

  /** The outcome of an operation that returns nothing. */
  datatype Outcome = Pass | Fail(error: Error)

  /** The elements of `s` that satisfy `keep`, in their original order. */
  function Filter<T>(s: seq<T>, keep: T -> bool): (r: seq<T>)
    ensures |r| <= |s|
    ensures forall i :: 0 <= i < |r| ==> r[i] in s && keep(r[i])
    ensures forall i :: 0 <= i < |s| && keep(s[i]) ==> s[i] in r
  {
    if s == [] then []
    else if keep(s[0]) then [s[0]] + Filter(s[1..], keep)
    else Filter(s[1..], keep)
  }

  /** Filtering distributes over concatenation: the filter keeps the relative order. */
  lemma {:induction false} FilterConcat<T>(a: seq<T>, b: seq<T>, keep: T -> bool)
    ensures Filter(a + b, keep) == Filter(a, keep) + Filter(b, keep)
  {
    if a == [] {
      assert a + b == b;
    } else {
      assert (a + b)[1..] == a[1..] + b;
      FilterConcat(a[1..], b, keep);
    }
  }

  /** Filtering by a predicate and by its negation splits a sequence into two parts
      whose elements, counted with multiplicity, are exactly those of the sequence. */
  lemma {:induction false} FilterPartition<T>(s: seq<T>, keep: T -> bool, drop: T -> bool)
    requires forall x :: drop(x) == !keep(x)
    ensures |Filter(s, keep)| + |Filter(s, drop)| == |s|
    ensures multiset(Filter(s, keep)) + multiset(Filter(s, drop)) == multiset(s)
  {
    if s != [] {
      FilterPartition(s[1..], keep, drop);
      assert s == [s[0]] + s[1..];
      assert multiset(s) == multiset{s[0]} + multiset(s[1..]);
    }
  }

  /** Filtering a filtered sequence by a stronger predicate is the same as filtering by it directly. */
  lemma {:induction false} FilterNested<T>(s: seq<T>, outer: T -> bool, inner: T -> bool)
    requires forall x :: inner(x) ==> outer(x)
    ensures Filter(Filter(s, outer), inner) == Filter(s, inner)
  {
    if s != [] {
      FilterNested(s[1..], outer, inner);
    }
  }
}
