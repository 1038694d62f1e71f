/** A few facts about sequences that the loops below share. */
module Sequences {

  /** The first `n` elements, or all. */
  function Take<T>(s: seq<T>, n: nat): seq<T> { if n < |s| then s[..n] else s }

  /** A list being built, its next element and what is still to come. */
  lemma Reassociate<T>(a: seq<T>, x: T, b: seq<T>)
    ensures a + ([x] + b) == (a + [x]) + b
  {}

  lemma Assoc<T>(a: seq<T>, b: seq<T>, c: seq<T>)
    ensures a + (b + c) == (a + b) + c
  {}

  /** A list whose last element is being widened in place. */
  lemma LastOf<T>(out: seq<T>, done: seq<T>, cur: T, next: T)
    requires out == done + [cur]
    ensures out[|out| - 1] == cur && out[|out| - 1 := next] == done + [next]
  {}

  /** The `t`-th elements from the back agree. */
  predicate SameFromEnd<T(==)>(a: seq<T>, b: seq<T>, t: nat)
    requires t < |a| && t < |b|
  {
    a[|a| - 1 - t] == b[|b| - 1 - t]
  }

  /** What `f` makes of the first `n` elements … */
  function Each<T, U>(f: T -> U, s: seq<T>, n: nat): (out: seq<U>)
    requires n <= |s|
    ensures |out| == n
  {
    if n == 0 then [] else Each(f, s, n - 1) + [f(s[n - 1])]
  }

  lemma {:induction false} EachAt<T, U>(f: T -> U, s: seq<T>, n: nat, k: nat)
    requires k < n <= |s|
    ensures Each(f, s, n)[k] == f(s[k])
  {
    if k < n - 1 { EachAt(f, s, n - 1, k); }
  }

  /** … and the lists it makes of them, one after the other. */
  function Gather<T, U>(f: T -> seq<U>, s: seq<T>, n: nat): seq<U>
    requires n <= |s|
  {
    if n == 0 then [] else Gather(f, s, n - 1) + f(s[n - 1])
  }

  lemma {:induction false} GatherNone<T, U>(f: T -> seq<U>, s: seq<T>, n: nat)
    requires n <= |s|
    ensures Gather(f, s, n) == [] <==> forall k | 0 <= k < n :: f(s[k]) == []
  {
    if n > 0 { GatherNone(f, s, n - 1); }
  }

  // ----- The smallest change between two sequences -----

  /** `u + s + v` became `u + t + v`, and no smaller change makes that: the changed parts begin apart,
      and end apart unless one of them is empty. */
  predicate Replaces<T(==)>(u: seq<T>, s: seq<T>, t: seq<T>, v: seq<T>) {
    && (s + v == [] || t + v == [] || (s + v)[0] != (t + v)[0])
    && (s == [] || t == [] || s[|s| - 1] != t[|t| - 1])
  }

  lemma HeadAt<T>(u: seq<T>, x: seq<T>, a: seq<T>)
    requires a == u + x
    ensures (forall q | 0 <= q < |u| :: a[q] == u[q]) && (x != [] ==> a[|u|] == x[0])
  {}

  lemma FromIs<T>(u: seq<T>, x: seq<T>, y: seq<T>, a: seq<T>, b: seq<T>, from: nat)
    requires a == u + x && b == u + y && (x == [] || y == [] || x[0] != y[0])
    requires from <= |a| && from <= |b| && (forall q | 0 <= q < from :: a[q] == b[q]) && (from == |a| || from == |b| || a[from] != b[from])
    ensures from == |u|
  {
    HeadAt(u, x, a);
    HeadAt(u, y, b);
  }

  lemma TailAt<T>(x: seq<T>, y: seq<T>, v: seq<T>, a: seq<T>, b: seq<T>)
    requires a == x + v && b == y + v
    ensures forall k: nat | k < |v| :: SameFromEnd(a, b, k)
    ensures x != [] && y != [] ==> (SameFromEnd(a, b, |v|) <==> x[|x| - 1] == y[|y| - 1])
  {}

  lemma BehindIs<T>(u: seq<T>, s: seq<T>, t: seq<T>, v: seq<T>, a: seq<T>, b: seq<T>, limit: nat, n: nat)
    requires a == u + s + v && b == u + t + v && Replaces(u, s, t, v)
    requires n <= limit == (if |a| <= |b| then |a| else |b|) - |u|
    requires (forall k | 0 <= k < n :: SameFromEnd(a, b, k)) && (n == limit || !SameFromEnd(a, b, n))
    ensures n == |v|
  {
    TailAt(u + s, u + t, v, a, b);
  }

  // ----- Lists and their elements -----

  function Once(b: bool): nat { if b then 1 else 0 }

  /** The elements whose id is another one. */
  function Others<T>(xs: seq<T>, idOf: T -> string, id: string): seq<T> {
    if xs == [] then []
    else
      var last := xs[|xs| - 1];
      Others(xs[..|xs| - 1], idOf, id) + (if idOf(last) != id then [last] else [])
  }
}
