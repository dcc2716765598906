/** Sorting by a string key (Python's `sorted` / `list.sort(key=...)`, which are stable) and
    order-preserving filtering (list comprehensions and boolean masks). */
module Sequences {
  import opened Wrappers
  import opened Text

  predicate SortedBy<T>(s: seq<T>, key: T -> string) {
    forall i, j :: 0 <= i < j < |s| ==> Below(key(s[i]), key(s[j]))
  }

  /** Inserts `x` in front of the first element whose key is not below it; `x` therefore
      stays in front of elements with an equal key. */
  function Insert<T>(x: T, s: seq<T>, key: T -> string): (r: seq<T>)
    requires SortedBy(s, key)
    ensures SortedBy(r, key)
    ensures multiset(r) == multiset(s) + multiset{x}
  {
    if s == [] then [x]
    else if Below(key(x), key(s[0])) then
      assert forall j :: 0 <= j < |s| ==> Below(key(x), key(s[j])) by {
        forall j | 0 <= j < |s| ensures Below(key(x), key(s[j])) {
          if j > 0 { BelowTransitive(key(x), key(s[0]), key(s[j])); }
        }
      }
      [x] + s
    else
      BelowTotal(key(x), key(s[0]));
      var t := Insert(x, s[1..], key);
      assert s == [s[0]] + s[1..];
      assert forall j :: 0 <= j < |t| ==> Below(key(s[0]), key(t[j])) by {
        forall j | 0 <= j < |t| ensures Below(key(s[0]), key(t[j])) {
          assert t[j] in multiset(t);
          assert t[j] == x || t[j] in multiset(s[1..]);
        }
      }
      [s[0]] + t
  }

  /** Stable insertion sort by `key`. */
  function SortBy<T>(s: seq<T>, key: T -> string): (r: seq<T>)
    ensures SortedBy(r, key)
    ensures multiset(r) == multiset(s)
    ensures |r| == |s|
  {
    if s == [] then []
    else
      assert s == [s[0]] + s[1..];
      Insert(s[0], SortBy(s[1..], key), key)
  }

  /** Keeps the elements satisfying `keep`, in their order. Defined on the last element so
      that it follows a loop that appends while it scans. */
  function Filter<T>(s: seq<T>, keep: T -> bool): (r: seq<T>)
    ensures |r| <= |s|
    ensures forall i :: 0 <= i < |r| ==> r[i] in s && keep(r[i])
    ensures forall i :: 0 <= i < |s| && keep(s[i]) ==> s[i] in r
  {
    if s == [] then []
    else
      var last := s[|s| - 1];
      assert s == s[..|s| - 1] + [last];
      Filter(s[..|s| - 1], keep) + (if keep(last) then [last] else [])
  }

  /** Filtering distributes over concatenation: the kept elements keep their relative order. */
  lemma {:induction false} FilterAppend<T>(a: seq<T>, b: seq<T>, keep: T -> bool)
    ensures Filter(a + b, keep) == Filter(a, keep) + Filter(b, keep)
  {
    if b == [] {
      assert a + b == a;
    } else {
      var b' := b[..|b| - 1];
      assert (a + b)[..|a + b| - 1] == a + b';
      assert (a + b)[|a + b| - 1] == b[|b| - 1];
      FilterAppend(a, b', keep);
    }
  }

  /** Each element occurs in the result exactly as often as in the input when it is kept, and
      not at all otherwise. */
  lemma {:induction false} FilterCount<T>(s: seq<T>, keep: T -> bool, x: T)
    ensures multiset(Filter(s, keep))[x] == if keep(x) then multiset(s)[x] else 0
  {
    if s != [] {
      var s' := s[..|s| - 1];
      assert s == s' + [s[|s| - 1]];
      FilterCount(s', keep, x);
    }
  }

  /** What one filter keeps and its complement keeps add up to the input. */
  lemma {:induction false} FilterPartition<T>(s: seq<T>, keep: T -> bool, drop: T -> bool)
    requires forall x :: drop(x) == !keep(x)
    ensures |Filter(s, keep)| + |Filter(s, drop)| == |s|
  {
    if s != [] {
      FilterPartition(s[..|s| - 1], keep, drop);
    }
  }

  /** The first item `attempt` succeeds on, with its index and what it produced; None when it
      succeeds on none (a `for` loop that returns from a `try` and otherwise goes on). */
  function FirstSome<F, D>(items: seq<F>, attempt: F -> Option<D>): (r: Option<(nat, D)>)
    ensures r.Some? ==> r.value.0 < |items| && attempt(items[r.value.0]) == Some(r.value.1)
    ensures r.Some? ==> forall j :: 0 <= j < r.value.0 ==> attempt(items[j]).None?
    ensures r.None? <==> forall j :: 0 <= j < |items| ==> attempt(items[j]).None?
  {
    if items == [] then None
    else match attempt(items[0])
      case Some(d) => Some((0, d))
      case None =>
        match FirstSome(items[1..], attempt)
        case None => None
        case Some((k, d)) => Some((k + 1, d))
  }
}
