/** The variant syntax of an answer key: `"Jeg (liker|elsker) det"` is two sentences,
    `"(nå|)"` makes a word optional, and groups nest and multiply out. */
module AnswerKey {
  import opened Options
  import opened Text

  // ----- The expansion, as the engine performs it -----

  predicate IsParen(c: char) { c == '(' || c == ')' }

  function NextParen(s: string, k: nat): (j: nat)
    requires k <= |s|
    ensures k <= j <= |s| && (j < |s| ==> IsParen(s[j]))
    ensures forall t | k <= t < j :: !IsParen(s[t])
    decreases |s| - k
  {
    if k == |s| || IsParen(s[k]) then k else NextParen(s, k + 1)
  }

  /** The leftmost match of `\(([^()]*\|[^()]*)\)` from `k` on: where it opens and closes. */
  function FindGroup(s: string, k: nat): (g: Option<(nat, nat)>)
    requires k <= |s|
    ensures g.Some? ==> k <= g.value.0 < g.value.1 < |s| && s[g.value.0] == '('
    decreases |s| - k
  {
    if k == |s| then None
    else
      var j := NextParen(s, k + 1);
      if s[k] == '(' && j < |s| && s[j] == ')' && '|' in s[k + 1..j] then Some((k, j))
      else FindGroup(s, k + 1)
  }

  function CountOpen(s: string): nat {
    if s == "" then 0 else (if s[0] == '(' then 1 else 0) + CountOpen(s[1..])
  }

  function Collapsed(parts: seq<string>): seq<string> { seq(|parts|, k requires 0 <= k < |parts| => Collapse(parts[k])) }

  /** First occurrences only, as a JavaScript `Set` keeps them. */
  function Distinct(xs: seq<string>): seq<string> {
    if xs == [] then []
    else
      var init := Distinct(xs[..|xs| - 1]);
      if xs[|xs| - 1] in init then init else init + [xs[|xs| - 1]]
  }

  /** Every sentence collapsed; blank ones and repetitions dropped, the first of each kept. */
  function Tidy(out: seq<string>): seq<string> { Distinct(NonEmpty(Collapsed(out))) }

  function ExpandRef(ref: string): seq<string>
    decreases CountOpen(ref), 1, 0
  {
    var source := Trim(ref);
    if source == "" then []
    else
      match FindGroup(source, 0)
      case None => [Collapse(source)]
      case Some((i, j)) =>
        var pre, body, post := source[..i], source[i + 1..j], source[j + 1..];
        OpenFalls(ref, i, j);
        Tidy(ExpandEach(pre, Split(body, '|'), 0, post, CountOpen(ref)))
  }

  function ExpandEach(pre: string, alts: seq<string>, k: nat, post: string, ghost bound: nat): seq<string>
    requires k <= |alts| && forall alt | alt in alts :: CountOpen(pre + alt + post) < bound
    decreases bound, 0, |alts| - k
  {
    if k == |alts| then []
    else ExpandRef(pre + alts[k] + post) + ExpandEach(pre, alts, k + 1, post, bound)
  }

  /** The recursion of the source, whose loop is `ExpandLoop`. */
  method Expand(ref: string) returns (out: seq<string>)
    ensures out == ExpandRef(ref)
    decreases CountOpen(ref), 1
  {
    var source := Trim(ref);
    if source == "" { return []; }
    var found := FindGroup(source, 0);
    if found.None? { return [Collapse(source)]; }
    var (i, j) := found.value;
    ExpandUnfold(ref, source, i, j);
    var pre, alts, post := source[..i], Split(source[i + 1..j], '|'), source[j + 1..];
    var each := ExpandLoop(pre, alts, post, CountOpen(ref));
    out := Tidy(each);
  }

  /** The accumulating loop over the alternatives of one group. */
  method ExpandLoop(pre: string, alts: seq<string>, post: string, ghost bound: nat) returns (out: seq<string>)
    requires forall alt | alt in alts :: CountOpen(pre + alt + post) < bound
    ensures out == ExpandEach(pre, alts, 0, post, bound)
    decreases bound, 0
  {
    out := [];
    ghost var all := ExpandEach(pre, alts, 0, post, bound);
    for k := 0 to |alts|
      invariant out + ExpandEach(pre, alts, k, post, bound) == all
    {
      var more := Expand(pre + alts[k] + post);
      ghost var rest := ExpandEach(pre, alts, k + 1, post, bound);
      assert all == out + (more + rest) == (out + more) + rest;
      out := out + more;
    }
  }

  // ----- Termination: every rewrite removes one opening parenthesis -----

  lemma {:induction false} CountOpenConcat(a: string, b: string)
    ensures CountOpen(a + b) == CountOpen(a) + CountOpen(b)
  {
    if a == "" {
      assert a + b == b;
    } else {
      assert (a + b)[1..] == a[1..] + b;
      CountOpenConcat(a[1..], b);
    }
  }

  lemma {:induction false} CountOpenTrim(s: string)
    ensures CountOpen(TrimStart(s)) == CountOpen(s)
  {
    if s != "" && IsSpace(s[0]) { CountOpenTrim(s[1..]); }
  }

  lemma {:induction false} CountOpenTrimEnd(s: string)
    ensures CountOpen(TrimEnd(s)) == CountOpen(s)
    decreases |s|
  {
    if s != "" && IsSpace(s[|s| - 1]) {
      CountOpenTrimEnd(s[..|s| - 1]);
      assert s == s[..|s| - 1] + [s[|s| - 1]];
      CountOpenConcat(s[..|s| - 1], [s[|s| - 1]]);
    }
  }

  lemma {:induction false} CountOpenPart(body: string, c: char, alt: string)
    requires alt in Split(body, c)
    ensures CountOpen(alt) <= CountOpen(body)
  {
    if body != "" {
      var rest := Split(body[1..], c);
      if body[0] == c {
        if alt != "" { CountOpenPart(body[1..], c, alt); }
      } else if alt == [body[0]] + rest[0] {
        CountOpenPart(body[1..], c, rest[0]);
      } else {
        assert alt in rest[1..];
        CountOpenPart(body[1..], c, alt);
      }
    }
  }

  lemma OpenFalls(ref: string, i: nat, j: nat)
    requires i < j < |Trim(ref)| && Trim(ref)[i] == '('
    ensures var s := Trim(ref);
            forall alt | alt in Split(s[i + 1..j], '|') ::
              CountOpen(s[..i] + alt + s[j + 1..]) < CountOpen(ref)
  {
    var s := Trim(ref);
    var pre, body, post := s[..i], s[i + 1..j], s[j + 1..];
    CountOpenTrim(ref);
    CountOpenTrimEnd(TrimStart(ref));
    assert s == (pre + "(" + body) + ([s[j]] + post) && [s[j]] + post == s[j..];
    CountOpenConcat(pre + "(" + body, [s[j]] + post);
    CountOpenConcat(pre + "(", body);
    CountOpenConcat(pre, "(");
    CountOpenConcat([s[j]], post);
    assert CountOpen("(") == 1;
    forall alt | alt in Split(body, '|') ensures CountOpen(pre + alt + post) < CountOpen(ref) {
      CountOpenPart(body, '|', alt);
      CountOpenConcat(pre + alt, post);
      CountOpenConcat(pre, alt);
    }
  }

  lemma {:induction false} DistinctKeeps(xs: seq<string>)
    ensures forall x :: x in Distinct(xs) <==> x in xs
    ensures forall k, l | 0 <= k < l < |Distinct(xs)| :: Distinct(xs)[k] != Distinct(xs)[l]
    decreases |xs|
  {
    if xs != [] {
      DistinctKeeps(xs[..|xs| - 1]);
      assert xs == xs[..|xs| - 1] + [xs[|xs| - 1]];
    }
  }

  lemma {:induction false} NonEmptyKeeps(xs: seq<string>)
    ensures forall x :: x in NonEmpty(xs) <==> x in xs && x != ""
  {
    if xs != [] {
      NonEmptyKeeps(xs[1..]);
      assert xs == [xs[0]] + xs[1..];
    }
  }

  lemma {:induction false} ExpandEachInto(pre: string, alts: seq<string>, k: nat, post: string, bound: nat, t: nat, x: string)
    requires forall alt | alt in alts :: CountOpen(pre + alt + post) < bound
    requires k <= t < |alts| && x in ExpandRef(pre + alts[t] + post)
    ensures x in ExpandEach(pre, alts, k, post, bound)
    decreases |alts| - k
  {
    var first, rest := ExpandRef(pre + alts[k] + post), ExpandEach(pre, alts, k + 1, post, bound);
    if k < t { ExpandEachInto(pre, alts, k + 1, post, bound, t, x); }
    InConcat(first, rest, x);
    assert ExpandEach(pre, alts, k, post, bound) == first + rest;
  }

  lemma {:induction false} ExpandEachFrom(pre: string, alts: seq<string>, k: nat, post: string, bound: nat, x: string) returns (t: nat)
    requires k <= |alts| && forall alt | alt in alts :: CountOpen(pre + alt + post) < bound
    requires x in ExpandEach(pre, alts, k, post, bound)
    ensures k <= t < |alts| && x in ExpandRef(pre + alts[t] + post)
    decreases |alts| - k
  {
    InConcat(ExpandRef(pre + alts[k] + post), ExpandEach(pre, alts, k + 1, post, bound), x);
    if x in ExpandRef(pre + alts[k] + post) {
      t := k;
    } else {
      t := ExpandEachFrom(pre, alts, k + 1, post, bound, x);
    }
  }

  lemma InConcat(xs: seq<string>, ys: seq<string>, x: string)
    ensures x in xs + ys <==> x in xs || x in ys
  {}

  lemma TidyHas(each: seq<string>, x: string)
    ensures x in Tidy(each) <==> x in Collapsed(each) && x != ""
  {
    DistinctKeeps(NonEmpty(Collapsed(each)));
    NonEmptyKeeps(Collapsed(each));
  }

  /** A collapsed text is its own collapse, and has a word unless it is empty. */
  lemma CollapsedText(s: string)
    ensures var x := Collapse(s);
            Collapse(x) == x && (x != "" <==> Fields(x) != [])
  {
    CollapseCanonical(s, s);
    CollapseIsJoin(s);
    if Fields(s) != [] { JoinEdges(Fields(s)); }
  }

  lemma ExpandUnfold(ref: string, s: string, i: nat, j: nat)
    requires s == Trim(ref) && s != "" && FindGroup(s, 0) == Some((i, j))
    ensures forall alt | alt in Split(s[i + 1..j], '|') :: CountOpen(s[..i] + alt + s[j + 1..]) < CountOpen(ref)
    ensures ExpandRef(ref) ==
            Tidy(ExpandEach(s[..i], Split(s[i + 1..j], '|'), 0, s[j + 1..], CountOpen(ref)))
  {
    OpenFalls(ref, i, j);
    var pre, alts, post, bound := s[..i], Split(s[i + 1..j], '|'), s[j + 1..], CountOpen(ref);
    var each := ExpandEach(pre, alts, 0, post, bound);
    assert ExpandRef(ref) == Tidy(each);
  }

  /** Whatever is written in the key, its variants are non-empty, whitespace-collapsed and
      pairwise different. */
  lemma ExpandRefTidy(ref: string)
    ensures forall x | x in ExpandRef(ref) :: x != "" && Collapse(x) == x && Fields(x) != []
    ensures forall k, l | 0 <= k < l < |ExpandRef(ref)| :: ExpandRef(ref)[k] != ExpandRef(ref)[l]
  {
    var s := Trim(ref);
    if s != "" {
      match FindGroup(s, 0)
      case None =>
        TrimEmpty(ref);
        FieldsTrim(ref);
        CollapseCanonical(s, s);
        CollapsedText(s);
        assert Fields(Collapse(s)) == Fields(ref) != [];
      case Some((i, j)) =>
        ExpandUnfold(ref, s, i, j);
        var each := ExpandEach(s[..i], Split(s[i + 1..j], '|'), 0, s[j + 1..], CountOpen(ref));
        TidyIsTidy(each);
    }
  }

  lemma TidyIsTidy(each: seq<string>)
    ensures forall x | x in Tidy(each) :: x != "" && Collapse(x) == x && Fields(x) != []
    ensures forall k, l | 0 <= k < l < |Tidy(each)| :: Tidy(each)[k] != Tidy(each)[l]
  {
    DistinctKeeps(NonEmpty(Collapsed(each)));
    forall x | x in Tidy(each) ensures x != "" && Collapse(x) == x && Fields(x) != [] {
      TidyHas(each, x);
      var k :| 0 <= k < |each| && x == Collapse(each[k]);
      CollapsedText(each[k]);
    }
  }
}
