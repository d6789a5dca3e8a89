/**
 * The orders the queries sort by. LINQ's `OrderBy` and SQL's `ORDER BY`
 * only promise a result that is non-decreasing in the key and a
 * permutation of their input; the model sorts with a stable insertion
 * sort and proves exactly those two facts.
 */
module Ordering {
  import opened Common

  /** `leq` relates every pair one way or the other and is transitive. */
  ghost predicate TotalPreorder<T(!new)>(leq: (T, T) -> bool)
  {
    && (forall a, b :: leq(a, b) || leq(b, a))
    && (forall a, b, c :: leq(a, b) && leq(b, c) ==> leq(a, c))
  }

  /** The keys of the elements never decrease: every element's key is `leq` every later element's. */
  ghost predicate SortedBy<T, K>(xs: seq<T>, key: T -> K, leq: (K, K) -> bool)
  {
    forall i, j :: 0 <= i < j < |xs| ==> leq(key(xs[i]), key(xs[j]))
  }

  /** Inserts `x` before the first element whose key its own key is `leq` to. */
  function Insert<T, K(!new)>(x: T, xs: seq<T>, key: T -> K, leq: (K, K) -> bool): (r: seq<T>)
    requires TotalPreorder(leq)
    requires SortedBy(xs, key, leq)
    ensures SortedBy(r, key, leq)
    ensures multiset(r) == multiset(xs) + multiset{x}
  {
    if xs == [] then [x]
    else if leq(key(x), key(xs[0])) then
      assert forall j :: 0 < j < |xs| ==> leq(key(x), key(xs[j])) by {
        forall j | 0 < j < |xs| ensures leq(key(x), key(xs[j])) {
          assert leq(key(xs[0]), key(xs[j]));
        }
      }
      [x] + xs
    else
      var rest := Insert(x, xs[1..], key, leq);
      assert xs == [xs[0]] + xs[1..];
      KeepsHeadFirst(xs, x, rest, key, leq);
      [xs[0]] + rest
  }

  /** The head of a sorted list stays first when the rest gains an element not below it. */
  lemma KeepsHeadFirst<T, K>(xs: seq<T>, x: T, rest: seq<T>, key: T -> K, leq: (K, K) -> bool)
    requires xs != [] && SortedBy(xs, key, leq) && SortedBy(rest, key, leq)
    requires leq(key(xs[0]), key(x))
    requires multiset(rest) == multiset(xs[1..]) + multiset{x}
    ensures SortedBy([xs[0]] + rest, key, leq)
  {
    var ys := [xs[0]] + rest;
    forall i, j | 0 <= i < j < |ys| ensures leq(key(ys[i]), key(ys[j])) {
      if i > 0 {
        assert ys[i] == rest[i - 1] && ys[j] == rest[j - 1];
      } else {
        var e := rest[j - 1];
        assert e in multiset(rest);
        if e != x {
          assert e in multiset(xs[1..]);
          var k :| 0 <= k < |xs[1..]| && xs[1..][k] == e;
          assert xs[k + 1] == e;
        }
      }
    }
  }

  /** LINQ's `OrderBy(key)`: a stable sort of `xs` by `key` under `leq`. */
  function SortBy<T, K(!new)>(xs: seq<T>, key: T -> K, leq: (K, K) -> bool): (r: seq<T>)
    requires TotalPreorder(leq)
    ensures SortedBy(r, key, leq)
    ensures multiset(r) == multiset(xs)
  {
    if xs == [] then []
    else
      assert xs == [xs[0]] + xs[1..];
      Insert(xs[0], SortBy(xs[1..], key, leq), key, leq)
  }

  /** Ordinal string comparison: character by character, a proper prefix first. */
  predicate OrdinalLeq(a: string, b: string)
  {
    if a == [] then true
    else if b == [] then false
    else if a[0] != b[0] then a[0] < b[0]
    else OrdinalLeq(a[1..], b[1..])
  }

  lemma {:induction false} OrdinalTotal(a: string, b: string)
    ensures OrdinalLeq(a, b) || OrdinalLeq(b, a)
  {
    if a != [] && b != [] && a[0] == b[0] {
      OrdinalTotal(a[1..], b[1..]);
    }
  }

  lemma {:induction false} OrdinalTransitive(a: string, b: string, c: string)
    requires OrdinalLeq(a, b) && OrdinalLeq(b, c)
    ensures OrdinalLeq(a, c)
  {
    if a != [] && b != [] && c != [] && a[0] == b[0] && b[0] == c[0] {
      OrdinalTransitive(a[1..], b[1..], c[1..]);
    }
  }

  lemma {:induction false} OrdinalAntisymmetric(a: string, b: string)
    requires OrdinalLeq(a, b) && OrdinalLeq(b, a)
    ensures a == b
  {
    if a != [] && b != [] {
      OrdinalAntisymmetric(a[1..], b[1..]);
      assert a == [a[0]] + a[1..] && b == [b[0]] + b[1..];
    }
  }

  /**
   * The order SQLite gives a nullable TEXT column under `ORDER BY`:
   * NULL before every string, strings by the BINARY collation, which on
   * well-formed text is the order of code points.
   */
  predicate NullsFirst(a: Option<string>, b: Option<string>)
  {
    a.None? || (b.Some? && OrdinalLeq(a.value, b.value))
  }

  lemma NullsFirstIsTotalPreorder()
    ensures TotalPreorder(NullsFirst)
  {
    forall a, b ensures NullsFirst(a, b) || NullsFirst(b, a) {
      if a.Some? && b.Some? {
        OrdinalTotal(a.value, b.value);
      }
    }
    forall a, b, c | NullsFirst(a, b) && NullsFirst(b, c) ensures NullsFirst(a, c) {
      if a.Some? {
        OrdinalTransitive(a.value, b.value, c.value);
      }
    }
  }

  /** The order of instants. */
  predicate InstantLeq(a: Instant, b: Instant)
  {
    a <= b
  }

  lemma InstantLeqIsTotalPreorder()
    ensures TotalPreorder(InstantLeq)
  {
  }
}
