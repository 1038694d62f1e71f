/** Which accepted spellings a dictation may have so that no longer checking capitals never makes
    an exact word wrong: spellings that do not run into one another. */
module AcceptedSpellings {
  import opened Text
  import opened Tokens
  import opened Classify
  import opened DictationDiff
  import opened DiffAccounting

  /** One accepted spelling and the letter it stands for. */
  datatype Sub = Sub(pattern: string, letter: string)

  function SubsEach(letter: string, spellings: seq<string>, k: nat): seq<Sub>
    requires k <= |spellings|
    decreases |spellings| - k
  {
    if k == |spellings| then []
    else (if spellings[k] == "" then [] else [Sub(spellings[k], letter)]) + SubsEach(letter, spellings, k + 1)
  }

  /** The spellings of a pack in the order they are replaced. */
  function SubsFrom(accepted: seq<(string, seq<string>)>, k: nat): seq<Sub>
    requires k <= |accepted|
    decreases |accepted| - k
  {
    if k == |accepted| then [] else SubsEach(accepted[k].0, accepted[k].1, 0) + SubsFrom(accepted, k + 1)
  }

  function Apply(w: string, subs: seq<Sub>): string
    decreases |subs|
  {
    if subs == [] then w
    else Apply(if subs[0].pattern == "" then w else ReplaceAll(w, subs[0].pattern, subs[0].letter), subs[1..])
  }

  lemma {:induction false} ApplyConcat(w: string, a: seq<Sub>, b: seq<Sub>)
    ensures Apply(w, a + b) == Apply(Apply(w, a), b)
    decreases |a|
  {
    if a == [] {
      assert a + b == b;
    } else {
      assert (a + b)[1..] == a[1..] + b;
      ApplyConcat(if a[0].pattern == "" then w else ReplaceAll(w, a[0].pattern, a[0].letter), a[1..], b);
    }
  }

  lemma {:induction false} AcceptEachIsApply(w: string, letter: string, spellings: seq<string>, k: nat)
    requires k <= |spellings|
    ensures AcceptEach(w, letter, spellings, k) == Apply(w, SubsEach(letter, spellings, k))
    decreases |spellings| - k
  {
    if k < |spellings| {
      var rest := SubsEach(letter, spellings, k + 1);
      if spellings[k] == "" {
        AcceptEachIsApply(w, letter, spellings, k + 1);
        assert [] + rest == rest;
      } else {
        AcceptEachIsApply(ReplaceAll(w, spellings[k], letter), letter, spellings, k + 1);
        assert ([Sub(spellings[k], letter)] + rest)[1..] == rest;
      }
    }
  }

  lemma {:induction false} AcceptIsApply(w: string, accepted: seq<(string, seq<string>)>, k: nat)
    requires k <= |accepted|
    ensures AcceptFrom(w, accepted, k) == Apply(w, SubsFrom(accepted, k))
    decreases |accepted| - k
  {
    if k < |accepted| {
      var own := SubsEach(accepted[k].0, accepted[k].1, 0);
      AcceptEachIsApply(w, accepted[k].0, accepted[k].1, 0);
      AcceptIsApply(Apply(w, own), accepted, k + 1);
      ApplyConcat(w, own, SubsFrom(accepted, k + 1));
    }
  }

  // ----- Spellings that do not run into one another -----

  predicate StartsWith(s: string, p: string) { |p| <= |s| && s[..|p|] == p }

  /** An occurrence of `q` may begin at place `k` of `p`, inside it or running out of it. */
  predicate Meets(p: string, q: string, k: nat)
    requires k <= |p|
  {
    StartsWith(p[k..], q) || StartsWith(q, p[k..])
  }

  predicate NoMeet(p: string, q: string, from: nat) { forall k | from <= k < |p| :: !Meets(p, q, k) }

  predicate Disjoint(a: string, b: string) { forall c | c in a :: c !in b }

  /** No spelling overlaps itself or another, and no letter has a character of a spelling. */
  predicate Apart(subs: seq<Sub>) {
    && (forall i | 0 <= i < |subs| :: subs[i].pattern != "" && subs[i].letter != "")
    && (forall i, j | 0 <= i < |subs| && 0 <= j < |subs| ::
          NoMeet(subs[i].pattern, subs[j].pattern, if i == j then 1 else 0) && Disjoint(subs[i].letter, subs[j].pattern))
  }

  lemma DisjointNoMeet(l: string, q: string)
    requires Disjoint(l, q) && q != ""
    ensures NoMeet(l, q, 0)
  {
    forall k | 0 <= k < |l| ensures !Meets(l, q, k) {
      assert l[k..][0] == l[k] && l[k] in l;
      SameFront(l[k..], q);
    }
  }

  lemma SameFront(t: string, q: string)
    requires t != "" && q != ""
    ensures StartsWith(t, q) || StartsWith(q, t) ==> t[0] == q[0]
  {
    if StartsWith(t, q) { assert t[..|q|][0] == t[0]; }
    if StartsWith(q, t) { assert q[..|t|][0] == q[0]; }
  }

  lemma NoMeetTail(p: string, q: string, from: nat)
    requires NoMeet(p, q, from) && p != "" && from <= 1
    ensures NoMeet(p[1..], q, 0)
  {
    forall k | 0 <= k < |p[1..]| ensures !Meets(p[1..], q, k) {
      assert p[1..][k..] == p[k + 1..];
      assert !Meets(p, q, k + 1);
    }
  }

  lemma StartsWithin(t: string, r: string, q: string)
    requires StartsWith(t + r, q)
    ensures StartsWith(t, q) || StartsWith(q, t)
  {
    if |q| <= |t| {
      assert (t + r)[..|q|] == t[..|q|];
    } else {
      assert q[..|t|] == (t + r)[..|q|][..|t|] == t;
    }
  }

  lemma ReplaceNext(s: string, q: string, m: string)
    requires q != ""
    ensures StartsWith(s, q) ==> ReplaceAll(s, q, m) == m + ReplaceAll(s[|q|..], q, m)
    ensures !StartsWith(s, q) && s != "" ==> ReplaceAll(s, q, m) == [s[0]] + ReplaceAll(s[1..], q, m)
  {
    if |s| < |q| && s != "" { assert s == [s[0]] + s[1..]; }
  }

  /** Nothing is replaced in `t` when no occurrence begins there. */
  lemma {:induction false} ReplaceSkips(t: string, r: string, q: string, m: string)
    requires q != "" && forall k | 0 <= k < |t| :: !StartsWith(t[k..] + r, q)
    ensures ReplaceAll(t + r, q, m) == t + ReplaceAll(r, q, m)
    decreases |t|
  {
    if t == "" {
      assert t + r == r;
    } else {
      var u := t[1..];
      assert t[0..] == t && (t + r)[1..] == u + r && t == [t[0]] + u;
      forall k | 0 <= k < |u| ensures !StartsWith(u[k..] + r, q) { assert u[k..] == t[k + 1..]; }
      ReplaceSkips(u, r, q, m);
      ReplaceNext(t + r, q, m);
    }
  }

  lemma ReplaceOver(t: string, r: string, q: string, m: string)
    requires q != "" && NoMeet(t, q, 0)
    ensures ReplaceAll(t + r, q, m) == t + ReplaceAll(r, q, m)
  {
    forall k | 0 <= k < |t| ensures !StartsWith(t[k..] + r, q) {
      assert !Meets(t, q, k);
      if StartsWith(t[k..] + r, q) { StartsWithin(t[k..], r, q); }
    }
    ReplaceSkips(t, r, q, m);
  }

  // ----- Replacing some of the occurrences -----

  /** `y` is `x` with some occurrences of `p` replaced by `l`. */
  ghost predicate Part(x: string, y: string, p: string, l: string)
    requires p != ""
    decreases |x|
  {
    if x == "" then y == ""
    else
      || (StartsWith(x, p) && StartsWith(y, l) && Part(x[|p|..], y[|l|..], p, l))
      || (y != "" && x[0] == y[0] && Part(x[1..], y[1..], p, l))
  }

  lemma {:induction false} PartPrefix(s: string, x: string, y: string, p: string, l: string)
    requires p != "" && Part(x, y, p, l)
    ensures Part(s + x, s + y, p, l)
    decreases |s|
  {
    if s == "" {
      assert s + x == x && s + y == y;
    } else {
      PartPrefix(s[1..], x, y, p, l);
      assert (s + x)[1..] == s[1..] + x && (s + y)[1..] == s[1..] + y;
    }
  }

  lemma PartStep(x: string, y: string, p: string, l: string)
    requires p != "" && Part(x, y, p, l)
    ensures Part(p + x, l + y, p, l)
  {
    assert (p + x)[|p|..] == x && (l + y)[|l|..] == y;
    assert (p + x)[..|p|] == p && (l + y)[..|l|] == l;
  }

  lemma {:induction false} PartSelf(x: string, p: string, l: string)
    requires p != ""
    ensures Part(x, x, p, l)
    decreases |x|
  {
    if x != "" { PartSelf(x[1..], p, l); }
  }

  /** Replacing never makes a new occurrence of `q`. */
  lemma {:induction false} PartFront(x: string, y: string, p: string, l: string, q: string)
    requires p != "" && l != "" && Part(x, y, p, l) && Disjoint(l, q) && StartsWith(y, q)
    ensures StartsWith(x, q)
    decreases |q|
  {
    if q != "" {
      SameFront(y, q);
      SameFront(y, l);
      assert l[0] in l && q[0] in q;
      assert x[0] == y[0] && Part(x[1..], y[1..], p, l);
      assert y[1..][..|q[1..]|] == y[..|q|][1..] == q[1..];
      PartFront(x[1..], y[1..], p, l, q[1..]);
      assert x[..|q|] == [x[0]] + x[1..][..|q| - 1] == [q[0]] + q[1..];
    }
  }

  /** What no occurrence of `p` touches stays. */
  lemma {:induction false} PartSpan(t: string, r: string, y: string, p: string, l: string)
    requires p != "" && NoMeet(t, p, 0) && Part(t + r, y, p, l)
    ensures StartsWith(y, t) && Part(r, y[|t|..], p, l)
    decreases |t|
  {
    if t == "" {
      assert t + r == r && y[0..] == y;
    } else {
      var x := t + r;
      assert t[0..] == t && !Meets(t, p, 0);
      if StartsWith(x, p) { StartsWithin(t, r, p); }
      assert x[0] == y[0] && x[1..] == t[1..] + r;
      NoMeetTail(t, p, 0);
      PartSpan(t[1..], r, y[1..], p, l);
      assert y == [y[0]] + y[1..] && y[1..] == t[1..] + y[1..][|t| - 1..];
      assert y[|t|..] == y[1..][|t| - 1..] && y[..|t|] == t;
    }
  }

  /** Replacing another spelling afterwards changes nothing about which occurrences remain. */
  lemma {:induction false} PartOther(x: string, y: string, p: string, l: string, q: string, m: string)
    requires p != "" && l != "" && q != "" && Part(x, y, p, l)
    requires NoMeet(q, p, 0) && NoMeet(p, q, 0) && Disjoint(l, q)
    ensures Part(ReplaceAll(x, q, m), ReplaceAll(y, q, m), p, l)
    decreases |x|, 0
  {
    ReplaceNext(x, q, m);
    ReplaceNext(y, q, m);
    if x == "" {
      assert y == "";
    } else if StartsWith(x, q) {
      assert x == q + x[|q|..];
      PartSpan(q, x[|q|..], y, p, l);
      PartOther(x[|q|..], y[|q|..], p, l, q, m);
      PartPrefix(m, ReplaceAll(x[|q|..], q, m), ReplaceAll(y[|q|..], q, m), p, l);
    } else if StartsWith(x, p) && StartsWith(y, l) && Part(x[|p|..], y[|l|..], p, l) {
      PartOtherReplaced(x[|p|..], y[|l|..], p, l, q, m);
      assert x == p + x[|p|..] && y == l + y[|l|..];
    } else {
      if StartsWith(y, q) { PartFront(x, y, p, l, q); }
      PartOther(x[1..], y[1..], p, l, q, m);
      PartPrefix([x[0]], ReplaceAll(x[1..], q, m), ReplaceAll(y[1..], q, m), p, l);
    }
  }

  lemma {:induction false} PartOtherReplaced(x: string, y: string, p: string, l: string, q: string, m: string)
    requires p != "" && l != "" && q != "" && Part(x, y, p, l)
    requires NoMeet(q, p, 0) && NoMeet(p, q, 0) && Disjoint(l, q)
    ensures Part(ReplaceAll(p + x, q, m), ReplaceAll(l + y, q, m), p, l)
    decreases |x|, 1
  {
    PartOther(x, y, p, l, q, m);
    DisjointNoMeet(l, q);
    ReplaceOver(p, x, q, m);
    ReplaceOver(l, y, q, m);
    PartStep(ReplaceAll(x, q, m), ReplaceAll(y, q, m), p, l);
  }

  /** Replacing all of a spelling makes up for having replaced some of it. */
  lemma {:induction false} PartSame(x: string, y: string, p: string, l: string)
    requires p != "" && l != "" && Part(x, y, p, l) && NoMeet(p, p, 1) && Disjoint(l, p)
    ensures ReplaceAll(x, p, l) == ReplaceAll(y, p, l)
    decreases |x|
  {
    ReplaceNext(x, p, l);
    ReplaceNext(y, p, l);
    if x == "" {
      assert y == "";
    } else if StartsWith(x, p) && StartsWith(y, l) && Part(x[|p|..], y[|l|..], p, l) {
      PartSame(x[|p|..], y[|l|..], p, l);
      DisjointNoMeet(l, p);
      ReplaceOver(l, y[|l|..], p, l);
      assert y == l + y[|l|..];
    } else if StartsWith(x, p) {
      PartKept(x, y, p, l);
      PartSame(x[|p|..], y[|p|..], p, l);
    } else {
      if StartsWith(y, p) { PartFront(x, y, p, l, p); }
      PartSame(x[1..], y[1..], p, l);
    }
  }

  lemma PartKept(x: string, y: string, p: string, l: string)
    requires p != "" && StartsWith(x, p) && y != "" && x[0] == y[0] && Part(x[1..], y[1..], p, l) && NoMeet(p, p, 1)
    ensures StartsWith(y, p) && Part(x[|p|..], y[|p|..], p, l)
  {
    var r := x[|p|..];
    assert x == p + r && x[1..] == p[1..] + r;
    NoMeetTail(p, p, 1);
    PartSpan(p[1..], r, y[1..], p, l);
    assert y == [y[0]] + y[1..] && y[1..] == p[1..] + y[1..][|p| - 1..];
    assert y[|p|..] == y[1..][|p| - 1..] && y[..|p|] == p;
  }

  lemma {:induction false} PartIgnored(x: string, y: string, subs: seq<Sub>, k: nat, i: nat)
    requires Apart(subs) && k <= i < |subs| && Part(x, y, subs[i].pattern, subs[i].letter)
    ensures Apply(x, subs[k..]) == Apply(y, subs[k..])
    decreases i - k
  {
    var rest, q, m := subs[k..], subs[k].pattern, subs[k].letter;
    assert rest[0] == subs[k] && rest[1..] == subs[k + 1..];
    assert NoMeet(subs[i].pattern, q, if i == k then 1 else 0) && Disjoint(subs[i].letter, q);
    if k == i {
      PartSame(x, y, q, m);
    } else {
      assert NoMeet(q, subs[i].pattern, 0);
      PartOther(x, y, subs[i].pattern, subs[i].letter, q, m);
      PartIgnored(ReplaceAll(x, q, m), ReplaceAll(y, q, m), subs, k + 1, i);
    }
  }

  // ----- Capitals -----

  /** Lower-casing works letter by letter. */
  ghost predicate CharWise(abc: Alphabet) { forall a: string, b: string :: abc.lower(a + b) == abc.lower(a) + abc.lower(b) }

  ghost predicate LowerCase(abc: Alphabet, w: string) { forall c | c in w :: abc.lower([c]) == [c] }

  lemma {:induction false} LowerFixed(abc: Alphabet, w: string)
    requires CharWise(abc) && LowerCase(abc, w)
    ensures abc.lower(w) == w
  {
    if w == "" {
      assert abc.lower("" + "") == abc.lower("") + abc.lower("");
      assert "" + "" == "";
    } else {
      LowerFixed(abc, w[1..]);
      assert w == [w[0]] + w[1..];
      assert abc.lower([w[0]] + w[1..]) == abc.lower([w[0]]) + abc.lower(w[1..]);
    }
  }

  lemma {:induction false} PartLower(abc: Alphabet, w: string, p: string, l: string)
    requires CharWise(abc) && p != "" && abc.lower(p) == p && abc.lower(l) == l
    ensures Part(abc.lower(w), abc.lower(ReplaceAll(w, p, l)), p, l)
    decreases |w|
  {
    if |w| < |p| {
      PartSelf(abc.lower(w), p, l);
    } else if w[..|p|] == p {
      var r := w[|p|..];
      PartLower(abc, r, p, l);
      assert w == p + r;
      PartStep(abc.lower(r), abc.lower(ReplaceAll(r, p, l)), p, l);
    } else {
      var r := w[1..];
      PartLower(abc, r, p, l);
      assert w == [w[0]] + r;
      PartPrefix(abc.lower([w[0]]), abc.lower(r), abc.lower(ReplaceAll(r, p, l)), p, l);
    }
  }

  ghost predicate LowerSubs(abc: Alphabet, subs: seq<Sub>) {
    forall i | 0 <= i < |subs| :: LowerCase(abc, subs[i].pattern) && LowerCase(abc, subs[i].letter)
  }

  /** Reading a word before it is lower-cased does not change how it reads afterwards. */
  lemma {:induction false} ReadingEarly(abc: Alphabet, w: string, subs: seq<Sub>, k: nat)
    requires CharWise(abc) && Apart(subs) && LowerSubs(abc, subs) && k <= |subs|
    ensures Apply(abc.lower(Apply(w, subs[k..])), subs) == Apply(abc.lower(w), subs)
    decreases |subs| - k
  {
    if k < |subs| {
      var p, l := subs[k].pattern, subs[k].letter;
      assert subs[k..][0] == subs[k] && subs[k..][1..] == subs[k + 1..] && subs[0..] == subs;
      LowerFixed(abc, p);
      LowerFixed(abc, l);
      PartLower(abc, w, p, l);
      PartIgnored(abc.lower(w), abc.lower(ReplaceAll(w, p, l)), subs, 0, k);
      ReadingEarly(abc, ReplaceAll(w, p, l), subs, k + 1);
    }
  }

  /** The accepted spellings of a pack keep out of one another's way and are in lower case. */
  ghost predicate Tidy(pack: Pack, abc: Alphabet) {
    CharWise(abc) && Apart(SubsFrom(pack.accepted, 0)) && LowerSubs(abc, SubsFrom(pack.accepted, 0))
  }

  lemma ReadingsRefine(pack: Pack, abc: Alphabet, v: string, w: string)
    requires Tidy(pack, abc) && AcceptFrom(v, pack.accepted, 0) == AcceptFrom(w, pack.accepted, 0)
    ensures AcceptFrom(abc.lower(v), pack.accepted, 0) == AcceptFrom(abc.lower(w), pack.accepted, 0)
  {
    var subs := SubsFrom(pack.accepted, 0);
    assert subs[0..] == subs;
    AcceptIsApply(v, pack.accepted, 0);
    AcceptIsApply(w, pack.accepted, 0);
    AcceptIsApply(abc.lower(v), pack.accepted, 0);
    AcceptIsApply(abc.lower(w), pack.accepted, 0);
    ReadingEarly(abc, v, subs, 0);
    ReadingEarly(abc, w, subs, 0);
  }

  /** For a pack whose spellings keep out of one another's way, no longer checking capitals or
      punctuation never makes fewer words exact, on any two sentences. */
  lemma TidyNeverLoses(r: Rules, loose: Marking)
    requires Looser(loose, r.marking) && LettersPlain(r.pack) && Tidy(r.pack, r.abc)
    ensures NeverLoses(r, loose)
  {
    forall e: DcToken, g: DcToken | Wordly(r.abc, e.w) && Wordly(r.abc, g.w) && SameKey(r.marking, r.pack, r.abc)(e, g)
      ensures SameKey(loose, r.pack, r.abc)(e, g)
    {
      KeyIs(r.marking, r.pack, r.abc, e, g);
      KeyIs(loose, r.pack, r.abc, e, g);
      if r.marking.caseSensitive && !loose.caseSensitive { ReadingsRefine(r.pack, r.abc, e.w, g.w); }
    }
    LooserFindsMoreIff(r, loose);
  }

  // ----- One accepted spelling: the exact condition -----

  /** The spelling read from `k` on is a beginning of the spelling. */
  predicate SelfMeet(s: string, k: nat)
    requires k <= |s|
  {
    s[k..] == s[..|s| - k]
  }

  predicate Overlaps(s: string) { exists k | 1 <= k < |s| :: SelfMeet(s, k) }

  function LeastMeet(s: string, k: nat): (m: nat)
    requires k < |s| && exists j | k <= j < |s| :: SelfMeet(s, j)
    ensures k <= m < |s| && SelfMeet(s, m) && forall j | k <= j < m :: !SelfMeet(s, j)
    decreases |s| - k
  {
    if SelfMeet(s, k) then k else LeastMeet(s, k + 1)
  }

  ghost predicate Plain(w: string) { forall c | c in w :: !IsSpace(c) && c != '\U{1}' }

  /** A pack that accepts one spelling `s` of `letter`, both in lower case and without a character
      in common; `cap` is a capital of the spelling's first character. */
  ghost predicate OneSpelling(pack: Pack, abc: Alphabet, s: string, letter: string, cap: char) {
    && pack.accepted == [(letter, [s])] && s != "" && letter != "" && Disjoint(letter, s)
    && CharWise(abc) && LowerCase(abc, s) && LowerCase(abc, letter)
    && cap !in s && abc.lower([cap]) == [s[0]]
    && Plain(s) && Plain(letter) && Plain([cap])
  }

  lemma OneReading(pack: Pack, s: string, letter: string, w: string)
    requires pack.accepted == [(letter, [s])] && s != ""
    ensures AcceptFrom(w, pack.accepted, 0) == ReplaceAll(w, s, letter)
  {
    assert AcceptEach(w, letter, [s], 0) == AcceptEach(ReplaceAll(w, s, letter), letter, [s], 1);
  }

  lemma NoOverlapIsTidy(pack: Pack, abc: Alphabet, s: string, letter: string, cap: char)
    requires OneSpelling(pack, abc, s, letter, cap) && !Overlaps(s)
    ensures Tidy(pack, abc)
  {
    assert SubsEach(letter, [s], 1) == [] && SubsFrom(pack.accepted, 1) == [];
    assert SubsFrom(pack.accepted, 0) == [Sub(s, letter)];
    forall k | 1 <= k < |s| ensures !Meets(s, s, k) { assert !SelfMeet(s, k); }
  }

  /** Where the spelling meets itself, an occurrence that begins in its repeated part moves the
      meeting forward. */
  lemma EarlierMeet(s: string, j: nat, k: nat)
    requires j < k < |s| && SelfMeet(s, k) && StartsWith(s[j..k] + s, s)
    ensures SelfMeet(s, j)
  {
    var u := s[j..k] + s;
    assert s[j..] == s[j..k] + s[k..];
    assert u[..|s| - j] == s[j..k] + s[..|s| - k];
    assert u[..|s|][..|s| - j] == u[..|s| - j];
  }

  /** No occurrence of the spelling reaches into the letter. */
  lemma ShortOfLetter(t: string, s: string, letter: string)
    requires |t| < |s| && letter != "" && Disjoint(letter, s)
    ensures !StartsWith(t + letter, s)
  {
    assert (t + letter)[|t|] == letter[0];
    assert s[|t|] in s && letter[0] in letter;
    FrontAt(t + letter, s, |t|);
  }

  lemma FrontAt(x: string, s: string, k: nat)
    requires k < |s|
    ensures StartsWith(x, s) ==> x[k] == s[k]
  {
    if StartsWith(x, s) { assert x[..|s|][k] == x[k]; }
  }

  lemma LetterStays(t: string, s: string, letter: string)
    requires |t| < |s| && letter != "" && Disjoint(letter, s)
    ensures ReplaceAll(t + letter, s, letter) == t + letter
  {
    forall k | 0 <= k < |t| ensures !StartsWith(t[k..] + letter, s) { ShortOfLetter(t[k..], s, letter); }
    ReplaceSkips(t, letter, s, letter);
    DisjointNoMeet(letter, s);
    ReplaceOver(letter, "", s, letter);
    assert letter + "" == letter;
  }

  /** The two words that fall apart: the first ends in the letter, the second in its spelling, and
      in lower case the second holds the spelling one step earlier. */
  function LetterWord(cap: char, s: string, letter: string, k: nat): string
    requires 1 <= k < |s|
  {
    [cap] + s[1..k] + letter
  }

  function SpeltWord(cap: char, s: string, k: nat): string
    requires 1 <= k < |s|
  {
    [cap] + s[1..k] + s
  }

  lemma CapitalsAgree(s: string, letter: string, cap: char, k: nat)
    requires 1 <= k < |s| && SelfMeet(s, k) && (forall j | 1 <= j < k :: !SelfMeet(s, j))
    requires letter != "" && Disjoint(letter, s) && cap !in s
    ensures ReplaceAll(SpeltWord(cap, s, k), s, letter) == ReplaceAll(LetterWord(cap, s, letter, k), s, letter)
  {
    var t := [cap] + s[1..k];
    forall j | 0 <= j < |t| ensures !StartsWith(t[j..] + s, s) {
      if j == 0 {
        SameFront(t + s, s);
        assert s[0] in s;
      } else {
        assert t[j..] == s[j..k];
        if StartsWith(s[j..k] + s, s) { EarlierMeet(s, j, k); }
      }
    }
    ReplaceSkips(t, s, s, letter);
    ReplaceNext(s, s, letter);
    assert s[|s|..] == "" && letter + "" == letter;
    LetterStays(t, s, letter);
  }

  lemma LowerCaseDiffers(s: string, letter: string, k: nat)
    requires 1 <= k < |s| && SelfMeet(s, k) && letter != "" && Disjoint(letter, s)
    ensures ReplaceAll(s[..k] + s, s, letter) != ReplaceAll(s[..k] + letter, s, letter)
  {
    var x := s[..k] + s;
    assert x[..|s|] == s[..k] + s[..|s| - k] == s[..k] + s[k..] == s;
    ReplaceNext(x, s, letter);
    assert ReplaceAll(x, s, letter)[0] == letter[0];
    LetterStays(s[..k], s, letter);
    assert (s[..k] + letter)[0] == s[0];
    assert s[0] in s && letter[0] in letter;
  }

  lemma LowerOfCapital(abc: Alphabet, cap: char, s: string, k: nat, r: string)
    requires CharWise(abc) && 1 <= k < |s| && LowerCase(abc, s) && LowerCase(abc, r) && abc.lower([cap]) == [s[0]]
    ensures abc.lower([cap] + s[1..k] + r) == s[..k] + r
  {
    LowerFixed(abc, s[1..k]);
    LowerFixed(abc, r);
    assert abc.lower(([cap] + s[1..k]) + r) == abc.lower([cap] + s[1..k]) + abc.lower(r);
    assert abc.lower([cap] + s[1..k]) == abc.lower([cap]) + abc.lower(s[1..k]);
    assert [s[0]] + s[1..k] == s[..k];
  }

  lemma PlainIsWordly(abc: Alphabet, w: string)
    requires w != "" && abc.lower(w) != "" && Plain(w) && Plain(abc.lower(w))
    ensures Wordly(abc, w)
  {}

  /** A spelling that overlaps itself makes two words exact with capitals checked and not without. */
  lemma OverlapLoses(r: Rules, loose: Marking, s: string, letter: string, cap: char)
    requires OneSpelling(r.pack, r.abc, s, letter, cap) && Overlaps(s)
    requires r.marking.caseSensitive && !loose.caseSensitive
    ensures !Refines(r.marking, loose, r.pack, r.abc)
  {
    var k := LeastMeet(s, 1);
    var v, w := LetterWord(cap, s, letter, k), SpeltWord(cap, s, k);
    LowerOfCapital(r.abc, cap, s, k, letter);
    LowerOfCapital(r.abc, cap, s, k, s);
    PlainIsWordly(r.abc, v);
    PlainIsWordly(r.abc, w);
    CapitalsAgree(s, letter, cap, k);
    LowerCaseDiffers(s, letter, k);
    OneReading(r.pack, s, letter, v);
    OneReading(r.pack, s, letter, w);
    OneReading(r.pack, s, letter, s[..k] + letter);
    OneReading(r.pack, s, letter, s[..k] + s);
    FallApart(r.marking, loose, r.pack, r.abc, v, w);
  }

  lemma FallApart(m: Marking, loose: Marking, pack: Pack, abc: Alphabet, v: string, w: string)
    requires Wordly(abc, v) && Wordly(abc, w) && m.caseSensitive && !loose.caseSensitive && LettersPlain(pack)
    requires AcceptFrom(v, pack.accepted, 0) == AcceptFrom(w, pack.accepted, 0)
    requires AcceptFrom(abc.lower(v), pack.accepted, 0) != AcceptFrom(abc.lower(w), pack.accepted, 0)
    ensures !Refines(m, loose, pack, abc)
  {
    var e, g := DcToken(0, v, ""), DcToken(0, w, "");
    KeyIs(m, pack, abc, e, g);
    KeyIs(loose, pack, abc, e, g);
  }

  /** For a pack that accepts one spelling, no longer checking capitals never makes fewer words
      exact, on any two sentences, exactly when the spelling does not overlap itself: `ae` for `æ`
      is safe, `aa` for `å` is not. */
  lemma OneSpellingIff(r: Rules, loose: Marking, s: string, letter: string, cap: char)
    requires OneSpelling(r.pack, r.abc, s, letter, cap)
    requires Looser(loose, r.marking) && r.marking.caseSensitive && !loose.caseSensitive
    ensures NeverLoses(r, loose) <==> !Overlaps(s)
  {
    LooserFindsMoreIff(r, loose);
    if Overlaps(s) {
      OverlapLoses(r, loose, s, letter, cap);
    } else {
      NoOverlapIsTidy(r.pack, r.abc, s, letter, cap);
      assert LettersPlain(r.pack);
      TidyNeverLoses(r, loose);
    }
  }
}
