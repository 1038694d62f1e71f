/** A stable sort by a pair of integers, as the kernel's comparators order things. */
module Sorting {

  /** Lexicographic order of two keys. */
  predicate Leq(a: (int, int), b: (int, int)) { a.0 < b.0 || (a.0 == b.0 && a.1 <= b.1) }

  ghost predicate Sorted<T(!new)>(s: seq<T>, key: T -> (int, int)) {
    forall i, j | 0 <= i < j < |s| :: Leq(key(s[i]), key(s[j]))
  }

  /** `x` goes behind everything that does not come after it. */
  function Insert<T>(x: T, s: seq<T>, key: T -> (int, int)): seq<T> {
    if s == [] || Leq(key(s[|s| - 1]), key(x)) then s + [x]
    else Insert(x, s[..|s| - 1], key) + [s[|s| - 1]]
  }

  function SortBy<T>(s: seq<T>, key: T -> (int, int)): seq<T> {
    if s == [] then [] else Insert(s[|s| - 1], SortBy(s[..|s| - 1], key), key)
  }

  lemma {:induction false} InsertIs<T>(x: T, s: seq<T>, key: T -> (int, int))
    ensures multiset(Insert(x, s, key)) == multiset(s) + multiset{x}
    ensures |Insert(x, s, key)| == |s| + 1
    ensures forall y :: y in Insert(x, s, key) <==> y in s || y == x
    decreases |s|
  {
    if s != [] && !Leq(key(s[|s| - 1]), key(x)) {
      InsertIs(x, s[..|s| - 1], key);
      assert s == s[..|s| - 1] + [s[|s| - 1]];
    }
  }

  lemma {:induction false} InsertSorted<T(!new)>(x: T, s: seq<T>, key: T -> (int, int))
    requires Sorted(s, key)
    ensures Sorted(Insert(x, s, key), key)
    decreases |s|
  {
    if s != [] {
      var init, last := s[..|s| - 1], s[|s| - 1];
      if Leq(key(last), key(x)) {
        var r := s + [x];
        forall i | 0 <= i < |s| ensures Leq(key(s[i]), key(x)) {
          assert i < |s| - 1 ==> Leq(key(s[i]), key(last));
        }
        assert forall i, j | 0 <= i < j < |r| :: Leq(key(r[i]), key(r[j]));
      } else {
        InsertSorted(x, init, key);
        InsertIs(x, init, key);
        var t := Insert(x, init, key);
        var r := t + [last];
        forall i | 0 <= i < |t| ensures Leq(key(t[i]), key(last)) {
          assert t[i] in t;
          if t[i] in init {
            var k :| 0 <= k < |init| && init[k] == t[i];
            assert s[k] == t[i];
          }
        }
        assert forall i, j | 0 <= i < j < |r| :: Leq(key(r[i]), key(r[j]));
      }
    }
  }

  /** The result is ordered and holds the same elements. */
  lemma {:induction false} SortByIs<T(!new)>(s: seq<T>, key: T -> (int, int))
    ensures Sorted(SortBy(s, key), key)
    ensures multiset(SortBy(s, key)) == multiset(s) && |SortBy(s, key)| == |s|
    ensures forall y :: y in SortBy(s, key) <==> y in s
    decreases |s|
  {
    if s != [] {
      var init, last := s[..|s| - 1], s[|s| - 1];
      SortByIs(init, key);
      SortStep(s, SortBy(init, key), key);
    }
  }

  lemma SortStep<T(!new)>(s: seq<T>, t: seq<T>, key: T -> (int, int))
    requires s != [] && Sorted(t, key) && multiset(t) == multiset(s[..|s| - 1]) && |t| == |s| - 1
    ensures var out := Insert(s[|s| - 1], t, key);
            && Sorted(out, key) && multiset(out) == multiset(s) && |out| == |s|
            && forall y :: y in out <==> y in s
  {
    var init, last := s[..|s| - 1], s[|s| - 1];
    var out := Insert(last, t, key);
    InsertSorted(last, t, key);
    InsertIs(last, t, key);
    assert s == init + [last];
    forall y ensures y in out <==> y in s { assert y in multiset(out) <==> y in multiset(s); }
  }

  /** What is in order stays as it is. */
  lemma {:induction false} SortByIdentity<T(!new)>(s: seq<T>, key: T -> (int, int))
    requires Sorted(s, key)
    ensures SortBy(s, key) == s
    decreases |s|
  {
    if s != [] {
      var init, last := s[..|s| - 1], s[|s| - 1];
      assert s == init + [last];
      SortByIdentity(init, key);
      if init != [] { assert Leq(key(s[|s| - 2]), key(last)); }
    }
  }

  // ----- Sequences that hang together pairwise -----

  /** Every element is fine by itself and stands in `rel` to every later one. */
  ghost predicate Chain<T(!new)>(s: seq<T>, ok: T -> bool, rel: (T, T) -> bool) {
    && (forall k | 0 <= k < |s| :: ok(s[k]))
    && (forall k, l | 0 <= k < l < |s| :: rel(s[k], s[l]))
  }

  lemma ChainParts<T(!new)>(a: seq<T>, b: seq<T>, ok: T -> bool, rel: (T, T) -> bool)
    requires Chain(a + b, ok, rel)
    ensures Chain(a, ok, rel) && Chain(b, ok, rel)
    ensures forall x, y | x in a && y in b :: rel(x, y)
  {
    var c := a + b;
    assert forall k | 0 <= k < |a| :: a[k] == c[k];
    assert forall k | 0 <= k < |b| :: b[k] == c[|a| + k];
    forall x, y | x in a && y in b ensures rel(x, y) {
      var k :| 0 <= k < |a| && a[k] == x;
      var l :| 0 <= l < |b| && b[l] == y;
      assert rel(c[k], c[|a| + l]);
    }
    forall k, l | 0 <= k < l < |b| ensures rel(b[k], b[l]) { assert rel(c[|a| + k], c[|a| + l]); }
  }

  lemma ChainAt<T(!new)>(s: seq<T>, ok: T -> bool, rel: (T, T) -> bool, k: nat, l: nat)
    requires Chain(s, ok, rel) && k < |s| && l < |s|
    ensures ok(s[k]) && ok(s[l])
    ensures k < l ==> rel(s[k], s[l])
    ensures l < k ==> rel(s[l], s[k])
  {}

  lemma ChainConcat<T(!new)>(a: seq<T>, b: seq<T>, ok: T -> bool, rel: (T, T) -> bool)
    requires Chain(a, ok, rel) && Chain(b, ok, rel)
    requires forall x, y | x in a && y in b :: rel(x, y)
    ensures Chain(a + b, ok, rel)
  {
    var c := a + b;
    assert forall k | 0 <= k < |c| :: c[k] == if k < |a| then a[k] else b[k - |a|];
  }

  /** An element that stands in `rel` to every other, one way or the other, is inserted at its
      place when the keys follow `rel`. */
  lemma {:induction false} ChainInsert<T(!new)>(x: T, s: seq<T>, key: T -> (int, int), ok: T -> bool, rel: (T, T) -> bool)
    requires Chain(s, ok, rel) && ok(x)
    requires forall y | y in s :: rel(y, x) || rel(x, y)
    requires forall y, z | ok(y) && ok(z) && rel(y, z) :: Leq(key(y), key(z)) && !Leq(key(z), key(y))
    requires forall y, z, w | rel(y, z) && rel(z, w) :: rel(y, w)
    ensures Chain(Insert(x, s, key), ok, rel)
    decreases |s|
  {
    if s == [] {
      assert Insert(x, s, key) == [x];
    } else {
      var init, last := s[..|s| - 1], s[|s| - 1];
      assert s == init + [last] && last in s;
      ChainParts(init, [last], ok, rel);
      assert ok(last);
      if rel(last, x) {
        forall y | y in s ensures rel(y, x) { if y in init { assert rel(y, last); } }
        ChainConcat(s, [x], ok, rel);
      } else {
        ChainInsert(x, init, key, ok, rel);
        InsertIs(x, init, key);
        ChainConcat(Insert(x, init, key), [last], ok, rel);
      }
    }
  }

  lemma ChainSorted<T(!new)>(s: seq<T>, key: T -> (int, int), ok: T -> bool, rel: (T, T) -> bool)
    requires Chain(s, ok, rel)
    requires forall y, z | ok(y) && ok(z) && rel(y, z) :: Leq(key(y), key(z))
    ensures Sorted(s, key) && SortBy(s, key) == s
  {
    SortByIdentity(s, key);
  }

  lemma {:induction false} InsertApart<T(!new)>(x: T, s: seq<T>, key: T -> (int, int), ok: T -> bool, rel: (T, T) -> bool)
    requires Chain(s, ok, rel) && ok(x) && (forall y | y in s :: rel(y, x)) && forall y, z | rel(y, z) :: rel(z, y)
    ensures Chain(Insert(x, s, key), ok, rel)
    decreases |s|
  {
    if s == [] || Leq(key(s[|s| - 1]), key(x)) {
      ChainConcat(s, [x], ok, rel);
    } else {
      var init, last := s[..|s| - 1], s[|s| - 1];
      assert s == init + [last];
      ChainParts(init, [last], ok, rel);
      InsertApart(x, init, key, ok, rel);
      InsertIs(x, init, key);
      ChainConcat(Insert(x, init, key), [last], ok, rel);
    }
  }

  /** Sorting keeps what holds of any two elements, in either order. */
  lemma {:induction false} SortByChain<T(!new)>(s: seq<T>, key: T -> (int, int), ok: T -> bool, rel: (T, T) -> bool)
    requires Chain(s, ok, rel) && forall y, z | rel(y, z) :: rel(z, y)
    ensures Chain(SortBy(s, key), ok, rel)
    decreases |s|
  {
    if s != [] {
      var init, last := s[..|s| - 1], s[|s| - 1];
      assert s == init + [last];
      ChainParts(init, [last], ok, rel);
      SortByChain(init, key, ok, rel);
      SortByIs(init, key);
      InsertApart(last, SortBy(init, key), key, ok, rel);
    }
  }

  lemma LastIsLast<T(!new)>(a: seq<T>, x: T, y: T, ok: T -> bool, rel: (T, T) -> bool)
    requires Chain(a + [x], ok, rel) && y in a + [x]
    ensures y == x || rel(y, x)
  {
    ChainParts(a, [x], ok, rel);
  }

  lemma LastsAgree<T(!new)>(p: seq<T>, x: T, q: seq<T>, y: T, ok: T -> bool, rel: (T, T) -> bool)
    requires Chain(p + [x], ok, rel) && Chain(q + [y], ok, rel) && forall z :: z in p + [x] <==> z in q + [y]
    requires forall z, w | rel(z, w) :: !rel(w, z)
    ensures x == y && x !in p && x !in q
  {
    assert x in p + [x] && y in q + [y];
    LastIsLast(p, x, y, ok, rel);
    LastIsLast(q, y, x, ok, rel);
    ChainParts(p, [x], ok, rel);
    ChainParts(q, [y], ok, rel);
  }

  lemma WithoutLast<T(!new)>(p: seq<T>, q: seq<T>, x: T)
    requires (forall z :: z in p + [x] <==> z in q + [x]) && x !in p && x !in q
    ensures forall z :: z in p <==> z in q
  {
    forall z ensures z in p <==> z in q { assert z in p + [x] <==> z in p || z == x; assert z in q + [x] <==> z in q || z == x; }
  }

  /** Two lists of the same elements that both follow a strict order are one list. */
  lemma {:induction false} ChainUnique<T(!new)>(a: seq<T>, b: seq<T>, ok: T -> bool, rel: (T, T) -> bool)
    requires Chain(a, ok, rel) && Chain(b, ok, rel) && forall x :: x in a <==> x in b
    requires forall x, y | rel(x, y) :: !rel(y, x)
    ensures a == b
    decreases |a|
  {
    assert b != [] ==> b[0] in b;
    if a != [] {
      assert a[0] in b;
      var p, q, x, y := a[..|a| - 1], b[..|b| - 1], a[|a| - 1], b[|b| - 1];
      assert a == p + [x] && b == q + [y];
      LastsAgree(p, x, q, y, ok, rel);
      ChainParts(p, [x], ok, rel);
      ChainParts(q, [x], ok, rel);
      WithoutLast(p, q, x);
      ChainUnique(p, q, ok, rel);
    }
  }
}
