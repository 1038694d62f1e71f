/** One-letter tolerance between two words. */
module Typo {

  predicate Substituted(a: string, b: string) {
    |a| == |b| && exists k | 0 <= k < |a| :: a[..k] == b[..k] && a[k + 1..] == b[k + 1..]
  }

  /** `short` is `long` with one letter taken out. */
  predicate Dropped(long: string, short: string) {
    |long| == |short| + 1 &&
    exists k | 0 <= k < |long| :: long[..k] == short[..k] && long[k + 1..] == short[k..]
  }

  predicate OneEdit(a: string, b: string) {
    Substituted(a, b) || Dropped(a, b) || Dropped(b, a)
  }

  /** `a` and `b` are one text with at most one letter in one place of `a` and at most one in the same
      place of `b`. */
  ghost predicate ApartAt(a: string, b: string, u: string, x: string, y: string, v: string) {
    a == u + x + v && b == u + y + v && |x| <= 1 && |y| <= 1 && |x| + |y| >= 1
  }

  lemma OneEditIs(a: string, b: string)
    ensures OneEdit(a, b) <==> exists u, x, y, v :: ApartAt(a, b, u, x, y, v)
  {
    if Substituted(a, b) {
      var k :| 0 <= k < |a| && a[..k] == b[..k] && a[k + 1..] == b[k + 1..];
      ReplacedAt(a, b, k);
    }
    if Dropped(a, b) { DroppedApart(a, b); }
    if Dropped(b, a) {
      DroppedApart(b, a);
      var u, x, y, v :| ApartAt(b, a, u, x, y, v);
      assert ApartAt(a, b, u, y, x, v);
    }
    if u, x, y, v :| ApartAt(a, b, u, x, y, v) { ApartIsEdit(a, b, u, x, y, v); }
  }

  lemma DroppedApart(long: string, short: string)
    requires Dropped(long, short)
    ensures exists u, x, y, v :: ApartAt(long, short, u, x, y, v)
  {
    var k :| 0 <= k < |long| && long[..k] == short[..k] && long[k + 1..] == short[k..];
    LeftOutAt(long, short, k);
  }

  lemma ReplacedAt(a: string, b: string, k: nat)
    requires |a| == |b| && k < |a| && a[..k] == b[..k] && a[k + 1..] == b[k + 1..]
    ensures ApartAt(a, b, a[..k], [a[k]], [b[k]], a[k + 1..])
  {}

  lemma LeftOutAt(long: string, short: string, k: nat)
    requires k < |long| && |long| == |short| + 1 && long[..k] == short[..k] && long[k + 1..] == short[k..]
    ensures ApartAt(long, short, long[..k], [long[k]], "", long[k + 1..])
  {}

  lemma ApartIsEdit(a: string, b: string, u: string, x: string, y: string, v: string)
    requires ApartAt(a, b, u, x, y, v)
    ensures OneEdit(a, b)
  {
    var k := |u|;
    assert a[..k] == u == b[..k];
    assert a[k + |x|..] == v == b[k + |y|..];
  }

  /** Equal, or two words of four letters or more that are one edit apart. */
  predicate Close(a: string, b: string) {
    a == b || (|a| >= 4 && |b| >= 4 && OneEdit(a, b))
  }

  /** Where the two cursors of the scan stand relative to each other. */
  ghost predicate Cursors(a: string, b: string, i: nat, j: nat, diff: nat) {
    && i <= |a| && j <= |b| && diff <= 1
    && (if |a| > |b| then i == j + diff else if |b| > |a| then j == i + diff else i == j)
  }

  /** The letters read so far agree, but for one mismatch at `k` when `diff` is 1. */
  ghost predicate ReadSoFar(a: string, b: string, i: nat, j: nat, diff: nat, k: nat)
    requires i <= |a| && j <= |b|
  {
    if diff == 0 then i == j && forall t | 0 <= t < i :: a[t] == b[t]
    else
      && k < |a| && k < |b| && (forall t | 0 <= t < k :: a[t] == b[t]) && a[k] != b[k]
      && (if |a| > |b| then k < i == j + 1 && forall t | k <= t < j :: a[t + 1] == b[t]
          else if |b| > |a| then k < j == i + 1 && forall t | k <= t < i :: a[t] == b[t + 1]
          else k < i == j && forall t | k < t < i :: a[t] == b[t])
  }

  lemma SubstitutedLetter(a: string, b: string, p: nat, q: nat)
    requires |a| == |b| && p < |a| && a[..p] == b[..p] && a[p + 1..] == b[p + 1..]
    requires q < |a| && q != p
    ensures a[q] == b[q]
  {
    if q < p {
      assert a[..p][q] == b[..p][q];
    } else {
      assert a[p + 1..][q - p - 1] == b[p + 1..][q - p - 1];
    }
  }

  lemma DroppedLetter(long: string, short: string, p: nat, q: nat)
    requires |long| == |short| + 1 && p < |long| && long[..p] == short[..p] && long[p + 1..] == short[p..]
    requires q < |short|
    ensures short[q] == if q < p then long[q] else long[q + 1]
  {
    if q < p {
      assert long[..p][q] == short[..p][q];
    } else {
      assert long[p + 1..][q - p] == short[p..][q - p];
    }
  }

  /** A letter at `k` and a later one after the shift both disagree: nothing was dropped. */
  lemma NotDropped(long: string, short: string, j: nat, k: nat)
    requires |long| == |short| + 1 && k <= j < |short|
    requires long[k] != short[k] && long[j + 1] != short[j]
    ensures !Dropped(long, short)
  {
    forall p | 0 <= p < |long| && long[..p] == short[..p] ensures long[p + 1..] != short[p..] {
      if long[p + 1..] == short[p..] {
        DroppedLetter(long, short, p, if p <= k then j else k);
      }
    }
  }

  /** A second mismatch rules out every single edit. */
  lemma SecondMismatch(a: string, b: string, i: nat, j: nat, k: nat)
    requires i < |a| && j < |b| && Cursors(a, b, i, j, 1) && ReadSoFar(a, b, i, j, 1, k)
    requires a[i] != b[j]
    requires -1 <= |a| - |b| <= 1
    ensures a != b && !OneEdit(a, b)
  {
    if Substituted(a, b) {
      var p :| 0 <= p < |a| && a[..p] == b[..p] && a[p + 1..] == b[p + 1..];
      SubstitutedLetter(a, b, p, if p == k then i else k);
    }
    if |a| > |b| { NotDropped(a, b, j, k); }
    if |b| > |a| { NotDropped(b, a, i, k); }
  }

  /** When one word runs out, at most one letter of the other is left, and it is the edit. */
  lemma ScanFinished(a: string, b: string, i: nat, j: nat, diff: nat, k: nat)
    requires i <= |a| && j <= |b| && (i == |a| || j == |b|)
    requires -1 <= |a| - |b| <= 1 && Cursors(a, b, i, j, diff) && ReadSoFar(a, b, i, j, diff, k)
    ensures a == b || OneEdit(a, b)
  {
    if diff == 0 {
      if |a| > |b| {
        assert a[..j] == b[..j] && a[j + 1..] == b[j..];
      } else if |b| > |a| {
        assert b[..i] == a[..i] && b[i + 1..] == a[i..];
      } else {
        assert a == b;
      }
    } else {
      if |a| > |b| {
        assert a[..k] == b[..k] && a[k + 1..] == b[k..];
      } else if |b| > |a| {
        assert b[..k] == a[..k] && b[k + 1..] == a[k..];
      } else {
        assert a[..k] == b[..k] && a[k + 1..] == b[k + 1..];
      }
    }
  }

  /** The greedy two-cursor scan neither misses nor over-accepts a one-letter slip. */
  method TypoEq(a: string, b: string) returns (r: bool)
    ensures r <==> Close(a, b)
  {
    if a == b { return true; }
    if (if |a| >= |b| then |a| - |b| else |b| - |a|) > 1 || |a| < 4 || |b| < 4 { return false; }

    var i, j, diff := 0, 0, 0;
    ghost var k := 0;
    while i < |a| && j < |b|
      invariant i <= |a| && j <= |b|
      invariant Cursors(a, b, i, j, diff) && ReadSoFar(a, b, i, j, diff, k)
      decreases |a| - i + |b| - j
    {
      if a[i] == b[j] {
        i, j := i + 1, j + 1;
      } else {
        if diff == 1 {
          SecondMismatch(a, b, i, j, k);
          return false;
        }
        diff, k := 1, i;
        if |a| > |b| { i := i + 1; }
        else if |b| > |a| { j := j + 1; }
        else { i, j := i + 1, j + 1; }
      }
    }
    ScanFinished(a, b, i, j, diff, k);
    return true;
  }
}
