/** A reference meaning for the answer-key syntax, and the proof that `expandRef` computes it.

    A pattern is literal text with groups; a group offers two or more alternatives, each a
    pattern again, so groups may stand side by side or inside one another.  The meaning of a
    pattern is the set of sentences obtained by choosing one alternative in every group. */
module AlternationGrammar {
  import opened Options
  import opened Text
  import opened AnswerKey

  datatype Pat = End | Chr(c: char, rest: Pat) | Group(alts: Alts, rest: Pat)
  datatype Alts = Last(p: Pat) | Or(p: Pat, more: Alts)

  /** Literal text carries no parenthesis, and no bar inside a group; every group carries a bar. */
  predicate WellFormed(p: Pat, inside: bool)
    decreases p
  {
    match p
    case End => true
    case Chr(c, r) => !IsParen(c) && (inside ==> c != '|') && WellFormed(r, inside)
    case Group(a, r) => a.Or? && AltsWellFormed(a) && WellFormed(r, inside)
  }

  predicate AltsWellFormed(a: Alts)
    decreases a
  {
    WellFormed(a.p, true) && (a.Or? ==> AltsWellFormed(a.more))
  }

  function Render(p: Pat): string
    decreases p
  {
    match p
    case End => ""
    case Chr(c, r) => [c] + Render(r)
    case Group(a, r) => "(" + RenderAlts(a) + ")" + Render(r)
  }

  function RenderAlts(a: Alts): string
    decreases a
  {
    match a
    case Last(p) => Render(p)
    case Or(p, m) => Render(p) + "|" + RenderAlts(m)
  }

  ghost function Means(p: Pat): set<string>
    decreases p
  {
    match p
    case End => {""}
    case Chr(c, r) => set s | s in Means(r) :: [c] + s
    case Group(a, r) => Product(AltsMean(a), Means(r))
  }

  ghost function AltsMean(a: Alts): set<string>
    decreases a
  {
    match a
    case Last(p) => Means(p)
    case Or(p, m) => Means(p) + AltsMean(m)
  }

  ghost function Product(xs: set<string>, ys: set<string>): set<string> {
    set x, y | x in xs && y in ys :: x + y
  }

  // ----- The group the engine picks: the last one opened before the first one closes -----

  predicate HasGroup(p: Pat) {
    match p
    case End => false
    case Chr(_, r) => HasGroup(r)
    case Group(_, _) => true
  }

  predicate AltsHaveGroup(a: Alts) {
    HasGroup(a.p) || (a.Or? && AltsHaveGroup(a.more))
  }

  datatype Cut = Cut(pre: string, alts: seq<string>, post: string)

  function RenderedAlts(a: Alts): (r: seq<string>)
    ensures |r| >= 1
  {
    match a
    case Last(p) => [Render(p)]
    case Or(p, m) => [Render(p)] + RenderedAlts(m)
  }

  /** The rendered pattern around the picked group. */
  function CutAt(p: Pat): (cut: Cut)
    requires HasGroup(p)
    ensures |cut.alts| >= 1
    decreases p
  {
    match p
    case Chr(c, r) => var cut := CutAt(r); cut.(pre := [c] + cut.pre)
    case Group(a, r) =>
      if AltsHaveGroup(a) then
        var cut := CutAlts(a);
        Cut("(" + cut.pre, cut.alts, cut.post + ")" + Render(r))
      else Cut("", RenderedAlts(a), Render(r))
  }

  function CutAlts(a: Alts): (cut: Cut)
    requires AltsHaveGroup(a)
    ensures |cut.alts| >= 1
    decreases a
  {
    match a
    case Last(p) => CutAt(p)
    case Or(p, m) =>
      if HasGroup(p) then var cut := CutAt(p); cut.(post := cut.post + "|" + RenderAlts(m))
      else var cut := CutAlts(m); cut.(pre := Render(p) + "|" + cut.pre)
  }

  function Append(p: Pat, q: Pat): Pat {
    match p
    case End => q
    case Chr(c, r) => Chr(c, Append(r, q))
    case Group(a, r) => Group(a, Append(r, q))
  }

  function AltAt(a: Alts, k: nat): Pat {
    if a.Last? || k == 0 then a.p else AltAt(a.more, k - 1)
  }

  /** The pattern with its picked group replaced by the group's k-th alternative. */
  function Choose(p: Pat, k: nat): Pat
    requires HasGroup(p)
    decreases p
  {
    match p
    case Chr(c, r) => Chr(c, Choose(r, k))
    case Group(a, r) =>
      if AltsHaveGroup(a) then Group(ChooseAlts(a, k), r) else Append(AltAt(a, k), r)
  }

  function ChooseAlts(a: Alts, k: nat): Alts
    requires AltsHaveGroup(a)
    decreases a
  {
    match a
    case Last(p) => Last(Choose(p, k))
    case Or(p, m) => if HasGroup(p) then Or(Choose(p, k), m) else Or(p, ChooseAlts(m, k))
  }

  function JoinBar(alts: seq<string>): string {
    if alts == [] then "" else if |alts| == 1 then alts[0] else alts[0] + "|" + JoinBar(alts[1..])
  }

  predicate Plain(s: string) { forall c | c in s :: !IsParen(c) }

  predicate PlainAlts(alts: seq<string>) {
    forall k | 0 <= k < |alts| :: Plain(alts[k]) && '|' !in alts[k]
  }

  // ----- Shape of the rendered pattern -----

  lemma {:induction false} PlainRender(p: Pat, inside: bool)
    requires WellFormed(p, inside) && !HasGroup(p)
    ensures Plain(Render(p)) && (inside ==> '|' !in Render(p))
    ensures Means(p) == {Render(p)}
    decreases p
  {
    match p
    case End =>
    case Chr(c, r) => PlainRender(r, inside);
  }

  lemma {:induction false} PlainRenderAlts(a: Alts)
    requires AltsWellFormed(a) && !AltsHaveGroup(a)
    ensures PlainAlts(RenderedAlts(a))
    ensures JoinBar(RenderedAlts(a)) == RenderAlts(a)
    ensures a.Or? ==> |RenderedAlts(a)| >= 2
    decreases a
  {
    PlainRender(a.p, true);
    if a.Or? {
      PlainRenderAlts(a.more);
      assert RenderedAlts(a)[1..] == RenderedAlts(a.more);
    }
  }

  /** The text is this cut put together again, around a plain group with something to choose. */
  ghost predicate CutOf(cut: Cut, s: string) {
    && s == cut.pre + "(" + JoinBar(cut.alts) + ")" + cut.post
    && ')' !in cut.pre && PlainAlts(cut.alts) && |cut.alts| >= 2
  }

  /** More text before a cut, around it and behind it. */
  lemma CutBehind(a: string, cut: Cut, s: string)
    requires CutOf(cut, s) && ')' !in a
    ensures CutOf(cut.(pre := a + cut.pre), a + s)
  {}

  lemma CutInside(cut: Cut, s: string, tail: string)
    requires CutOf(cut, s)
    ensures CutOf(Cut("(" + cut.pre, cut.alts, cut.post + ")" + tail), "(" + s + ")" + tail)
  {}

  lemma CutBefore(cut: Cut, s: string, bar: string, tail: string)
    requires CutOf(cut, s)
    ensures CutOf(cut.(post := cut.post + bar + tail), s + bar + tail)
  {}

  lemma CutInGroup(a: Alts, r: Pat)
    requires AltsHaveGroup(a) && CutOf(CutAlts(a), RenderAlts(a))
    ensures CutOf(CutAt(Group(a, r)), Render(Group(a, r)))
  {
    CutInside(CutAlts(a), RenderAlts(a), Render(r));
  }

  lemma CutAtPlain(a: Alts, r: Pat)
    requires a.Or? && AltsWellFormed(a) && !AltsHaveGroup(a)
    ensures CutOf(CutAt(Group(a, r)), Render(Group(a, r)))
  {
    PlainRenderAlts(a);
  }

  lemma {:induction false} CutRenders(p: Pat, inside: bool)
    requires WellFormed(p, inside) && HasGroup(p)
    ensures CutOf(CutAt(p), Render(p))
    decreases p
  {
    match p
    case Chr(c, r) =>
      CutRenders(r, inside);
      CutBehind([c], CutAt(r), Render(r));
    case Group(a, r) =>
      if AltsHaveGroup(a) {
        CutAltsRenders(a);
        CutInGroup(a, r);
      } else {
        CutAtPlain(a, r);
      }
  }

  lemma {:induction false} CutAltsRenders(a: Alts)
    requires AltsWellFormed(a) && AltsHaveGroup(a)
    ensures CutOf(CutAlts(a), RenderAlts(a))
    decreases a
  {
    if HasGroup(a.p) {
      CutRenders(a.p, true);
      if a.Or? { CutBefore(CutAt(a.p), Render(a.p), "|", RenderAlts(a.more)); }
    } else {
      PlainRender(a.p, true);
      CutAltsRenders(a.more);
      CutBehind(Render(a.p) + "|", CutAlts(a.more), RenderAlts(a.more));
    }
  }

  // ----- Choosing an alternative -----

  lemma {:induction false} AppendRenders(p: Pat, q: Pat, inside: bool)
    ensures Render(Append(p, q)) == Render(p) + Render(q)
    ensures WellFormed(p, inside) && WellFormed(q, inside) ==> WellFormed(Append(p, q), inside)
    decreases p
  {
    match p
    case End =>
    case Chr(c, r) => AppendRenders(r, q, inside);
    case Group(a, r) => AppendRenders(r, q, inside);
  }

  lemma {:induction false} AppendMeans(p: Pat, q: Pat)
    ensures Means(Append(p, q)) == Product(Means(p), Means(q))
    decreases p
  {
    match p
    case End => ProductUnit(Means(q));
    case Chr(c, r) =>
      AppendMeans(r, q);
      PrefixProduct(c, Means(r), Means(q));
    case Group(a, r) =>
      AppendMeans(r, q);
      ProductAssociative(AltsMean(a), Means(r), Means(q));
  }

  lemma ProductUnit(ys: set<string>)
    ensures Product({""}, ys) == ys
  {
    forall y | y in ys ensures y in Product({""}, ys) { assert y == "" + y; }
    forall z | z in Product({""}, ys) ensures z in ys {
      var x, y :| x in {""} && y in ys && z == x + y;
      assert z == y;
    }
  }

  lemma PrefixProduct(c: char, xs: set<string>, ys: set<string>)
    ensures (set s | s in Product(xs, ys) :: [c] + s) == Product(set s | s in xs :: [c] + s, ys)
  {
    var l, r := set s | s in Product(xs, ys) :: [c] + s, Product(set s | s in xs :: [c] + s, ys);
    forall z | z in l ensures z in r {
      var x, y :| x in xs && y in ys && z == [c] + (x + y);
      assert z == ([c] + x) + y;
    }
    forall z | z in r ensures z in l {
      var x, y :| x in xs && y in ys && z == ([c] + x) + y;
      assert z == [c] + (x + y) && x + y in Product(xs, ys);
    }
  }

  lemma ProductAssociative(xs: set<string>, ys: set<string>, zs: set<string>)
    ensures Product(xs, Product(ys, zs)) == Product(Product(xs, ys), zs)
  {
    forall w | w in Product(xs, Product(ys, zs)) ensures w in Product(Product(xs, ys), zs) {
      var x, y, z :| x in xs && y in ys && z in zs && w == x + (y + z);
      assert w == (x + y) + z && x + y in Product(xs, ys);
    }
    forall w | w in Product(Product(xs, ys), zs) ensures w in Product(xs, Product(ys, zs)) {
      var x, y, z :| x in xs && y in ys && z in zs && w == (x + y) + z;
      assert w == x + (y + z) && y + z in Product(ys, zs);
    }
  }

  lemma {:induction false} AltAtIs(a: Alts, k: nat)
    requires k < |RenderedAlts(a)|
    ensures Render(AltAt(a, k)) == RenderedAlts(a)[k]
    ensures Means(AltAt(a, k)) <= AltsMean(a)
    ensures AltsWellFormed(a) ==> WellFormed(AltAt(a, k), true)
    decreases a
  {
    if a.Or? && k > 0 { AltAtIs(a.more, k - 1); }
  }

  lemma {:induction false} AltsMeanSome(a: Alts, s: string) returns (k: nat)
    requires s in AltsMean(a)
    ensures k < |RenderedAlts(a)| && s in Means(AltAt(a, k))
    decreases a
  {
    if s in Means(a.p) {
      k := 0;
    } else {
      k := AltsMeanSome(a.more, s);
      k := k + 1;
    }
  }

  /** A pattern that is well formed inside a group is well formed outside one. */
  lemma {:induction false} Outward(p: Pat)
    requires WellFormed(p, true)
    ensures WellFormed(p, false)
    decreases p
  {
    match p
    case End =>
    case Chr(c, r) => Outward(r);
    case Group(a, r) => Outward(r);
  }

  lemma {:induction false} ChooseIs(p: Pat, k: nat, inside: bool)
    requires WellFormed(p, inside) && HasGroup(p) && k < |CutAt(p).alts|
    ensures Render(Choose(p, k)) == CutAt(p).pre + CutAt(p).alts[k] + CutAt(p).post
    ensures WellFormed(Choose(p, k), inside)
    ensures Means(Choose(p, k)) <= Means(p)
    decreases p
  {
    match p
    case Chr(c, r) =>
      var cut := CutAt(r);
      ChooseIs(r, k, inside);
      assert [c] + (cut.pre + cut.alts[k] + cut.post) == ([c] + cut.pre) + cut.alts[k] + cut.post;
    case Group(a, r) =>
      if AltsHaveGroup(a) {
        ChooseAltsIs(a, k);
        ProductMonotone(AltsMean(ChooseAlts(a, k)), AltsMean(a), Means(r));
        ChooseNested(CutAlts(a), k, Render(r));
      } else {
        ChooseInnermost(a, r, k, inside);
      }
  }

  lemma ChooseNested(cut: Cut, k: nat, tail: string)
    requires k < |cut.alts|
    ensures "(" + (cut.pre + cut.alts[k] + cut.post) + ")" + tail
         == ("(" + cut.pre) + cut.alts[k] + (cut.post + ")" + tail)
  {}

  lemma ChooseInnermost(a: Alts, r: Pat, k: nat, inside: bool)
    requires AltsWellFormed(a) && WellFormed(r, inside) && k < |RenderedAlts(a)|
    ensures var q := Append(AltAt(a, k), r);
            && Render(q) == RenderedAlts(a)[k] + Render(r)
            && WellFormed(q, inside) && Means(q) <= Product(AltsMean(a), Means(r))
  {
    AltAtIs(a, k);
    if !inside { Outward(AltAt(a, k)); }
    AppendRenders(AltAt(a, k), r, inside);
    AppendMeans(AltAt(a, k), r);
    ProductMonotone(Means(AltAt(a, k)), AltsMean(a), Means(r));
  }

  lemma ProductMonotone(xs: set<string>, xs': set<string>, ys: set<string>)
    requires xs <= xs'
    ensures Product(xs, ys) <= Product(xs', ys)
  {}

  lemma {:induction false} ChooseAltsIs(a: Alts, k: nat)
    requires AltsWellFormed(a) && AltsHaveGroup(a) && k < |CutAlts(a).alts|
    ensures RenderAlts(ChooseAlts(a, k)) == CutAlts(a).pre + CutAlts(a).alts[k] + CutAlts(a).post
    ensures AltsWellFormed(ChooseAlts(a, k)) && ChooseAlts(a, k).Or? == a.Or?
    ensures AltsMean(ChooseAlts(a, k)) <= AltsMean(a)
    decreases a
  {
    if HasGroup(a.p) { ChooseIs(a.p, k, true); } else { ChooseAltsIs(a.more, k); }
  }

  /** Every sentence of the pattern survives one of the choices. */
  lemma {:induction false} SomeChoice(p: Pat, s: string) returns (k: nat)
    requires HasGroup(p) && s in Means(p)
    ensures k < |CutAt(p).alts| && s in Means(Choose(p, k))
    decreases p
  {
    match p
    case Chr(c, r) =>
      var t :| t in Means(r) && s == [c] + t;
      k := SomeChoice(r, t);
    case Group(a, r) =>
      var x, y :| x in AltsMean(a) && y in Means(r) && s == x + y;
      if AltsHaveGroup(a) {
        k := SomeAltsChoice(a, x);
      } else {
        k := AltsMeanSome(a, x);
        AppendMeans(AltAt(a, k), r);
      }
  }

  lemma {:induction false} SomeAltsChoice(a: Alts, s: string) returns (k: nat)
    requires AltsHaveGroup(a) && s in AltsMean(a)
    ensures k < |CutAlts(a).alts| && s in AltsMean(ChooseAlts(a, k))
    decreases a
  {
    if HasGroup(a.p) {
      if s in Means(a.p) { k := SomeChoice(a.p, s); } else { k := 0; }
    } else if s in Means(a.p) {
      k := 0;
    } else {
      k := SomeAltsChoice(a.more, s);
    }
  }

  // ----- The engine finds exactly that group -----

  lemma {:induction false} NextParenIs(s: string, k: nat, j: nat)
    requires k <= j <= |s| && (forall t | k <= t < j :: !IsParen(s[t])) && (j < |s| ==> IsParen(s[j]))
    ensures NextParen(s, k) == j
    decreases j - k
  {
    if k < j { NextParenIs(s, k + 1, j); }
  }

  lemma {:induction false} FindGroupIs(pre: string, body: string, post: string, k: nat)
    requires k <= |pre| && ')' !in pre && Plain(body) && '|' in body
    ensures FindGroup(pre + "(" + body + ")" + post, k) == Some((|pre|, |pre| + 1 + |body|))
    decreases |pre| - k
  {
    var s := pre + "(" + body + ")" + post;
    var close := |pre| + 1 + |body|;
    if k == |pre| {
      NextParenIs(s, k + 1, close);
      assert s[k + 1..close] == body;
    } else {
      var j := NextParen(s, k + 1);
      assert s[|pre|] == '(' && j <= |pre|;
      assert s[j] != ')' by { if j < |pre| { assert s[j] == pre[j]; } }
      FindGroupIs(pre, body, post, k + 1);
    }
  }

  lemma {:induction false} NoGroupFound(s: string, k: nat)
    requires Plain(s) && k <= |s|
    ensures FindGroup(s, k) == None
    decreases |s| - k
  {
    if k < |s| { NoGroupFound(s, k + 1); }
  }

  lemma {:induction false} SplitBars(alts: seq<string>)
    requires PlainAlts(alts) && |alts| >= 1
    ensures Split(JoinBar(alts), '|') == alts && Plain(JoinBar(alts))
    ensures |alts| >= 2 ==> '|' in JoinBar(alts)
  {
    if |alts| == 1 {
      SplitWord(alts[0], "", '|');
    } else {
      SplitBars(alts[1..]);
      SplitWord(alts[0], JoinBar(alts[1..]), '|');
      assert alts == [alts[0]] + alts[1..];
    }
  }

  lemma {:induction false} TrimStartAround(a: string, b: string)
    requires b != "" && !IsSpace(b[0])
    ensures TrimStart(a + b) == TrimStart(a) + b
  {
    if a == "" {
      assert a + b == b;
    } else if IsSpace(a[0]) {
      assert (a + b)[1..] == a[1..] + b;
      TrimStartAround(a[1..], b);
    }
  }

  lemma {:induction false} TrimEndAround(a: string, b: string)
    requires a != "" && !IsSpace(a[|a| - 1])
    ensures TrimEnd(a + b) == a + TrimEnd(b)
    decreases |b|
  {
    var s := a + b;
    if b == "" {
      assert s == a;
    } else if IsSpace(b[|b| - 1]) {
      assert s[..|s| - 1] == a + b[..|b| - 1];
      TrimEndAround(a, b[..|b| - 1]);
    }
  }

  /** Trimming the context of a group does not change what is expanded around it. */
  lemma {:induction false} ContextTrim(pre: string, x: string, post: string)
    ensures Trim(TrimStart(pre) + x + TrimEnd(post)) == Trim(pre + x + post)
    decreases |pre|
  {
    if pre != "" && IsSpace(pre[0]) {
      assert (pre + x + post)[1..] == pre[1..] + x + post;
      ContextTrim(pre[1..], x, post);
    } else {
      TrailingTrim(pre + x, post);
    }
  }

  lemma {:induction false} TrailingTrim(a: string, b: string)
    ensures Trim(a + TrimEnd(b)) == Trim(a + b)
    decreases |b|
  {
    if b != "" && IsSpace(b[|b| - 1]) {
      var t := a + b[..|b| - 1];
      assert a + b == t + [b[|b| - 1]];
      TrimDropLast(t, b[|b| - 1]);
      TrailingTrim(a, b[..|b| - 1]);
    }
  }

  lemma {:induction false} TrimDropLast(t: string, c: char)
    requires IsSpace(c)
    ensures Trim(t + [c]) == Trim(t)
  {
    if t == "" {
      assert TrimStart(t + [c]) == TrimStart("");
    } else if IsSpace(t[0]) {
      assert (t + [c])[1..] == t[1..] + [c];
      TrimDropLast(t[1..], c);
    } else {
      assert (t + [c])[..|t|] == t;
    }
  }

  /** The result of one level of the recursion, for any sufficient bound. */
  lemma ExpandLevel(ref: string, s: string, i: nat, j: nat, alts: seq<string>, bound: nat)
    requires s == Trim(ref) && s != "" && FindGroup(s, 0) == Some((i, j)) && alts == Split(s[i + 1..j], '|')
    requires forall alt | alt in alts :: CountOpen(s[..i] + alt + s[j + 1..]) < bound
    ensures ExpandRef(ref) == Tidy(ExpandEach(s[..i], alts, 0, s[j + 1..], bound))
  {
    ExpandUnfold(ref, s, i, j);
    ExpandEachBound(s[..i], alts, 0, s[j + 1..], CountOpen(ref), bound);
  }

  lemma ExpandRefTrim(a: string, b: string)
    requires Trim(a) == Trim(b)
    ensures ExpandRef(a) == ExpandRef(b)
  {
    var s := Trim(a);
    if s != "" && FindGroup(s, 0).Some? {
      var (i, j) := FindGroup(s, 0).value;
      OpenFalls(b, i, j);
      ExpandLevel(a, s, i, j, Split(s[i + 1..j], '|'), CountOpen(b));
      ExpandLevel(b, s, i, j, Split(s[i + 1..j], '|'), CountOpen(b));
    }
  }

  lemma {:induction false} ExpandEachBound(pre: string, alts: seq<string>, k: nat, post: string, m: nat, n: nat)
    requires k <= |alts|
    requires forall alt | alt in alts :: CountOpen(pre + alt + post) < m
    requires forall alt | alt in alts :: CountOpen(pre + alt + post) < n
    ensures ExpandEach(pre, alts, k, post, m) == ExpandEach(pre, alts, k, post, n)
    decreases |alts| - k
  {
    if k < |alts| { ExpandEachBound(pre, alts, k + 1, post, m, n); }
  }

  /** The engine's regular expression matches the picked group. */
  lemma GroupFound(p: Pat, pre: string, body: string, post: string)
    requires WellFormed(p, false) && HasGroup(p)
    requires var cut := CutAt(p);
             pre == TrimStart(cut.pre) && body == JoinBar(cut.alts) && post == TrimEnd(cut.post)
    ensures var s := Trim(Render(p));
            && s == pre + "(" + body + ")" + post
            && FindGroup(s, 0) == Some((|pre|, |pre| + 1 + |body|))
    ensures Split(body, '|') == CutAt(p).alts
  {
    var cut := CutAt(p);
    CutRenders(p, false);
    SplitBars(cut.alts);
    TrimmedGroup(Render(p), cut.pre, body, cut.post);
    TrimStartSuffix(cut.pre);
    FindGroupIs(pre, body, post, 0);
  }

  lemma Around(s: string, pre: string, body: string, post: string)
    requires s == pre + "(" + body + ")" + post
    ensures s[..|pre|] == pre && s[|pre| + 1..|pre| + 1 + |body|] == body && s[|pre| + |body| + 2..] == post
  {}

  lemma TrimmedGroup(s: string, a: string, body: string, b: string)
    requires s == a + "(" + body + ")" + b
    ensures Trim(s) == TrimStart(a) + "(" + body + ")" + TrimEnd(b)
  {
    var left, right := "(" + body + ")" + b, TrimStart(a) + "(" + body + ")";
    assert s == a + left;
    TrimStartAround(a, left);
    assert TrimStart(s) == right + b;
    TrimEndAround(right, b);
  }

  /** One level of the recursion, read off the pattern. */
  lemma ExpandPattern(p: Pat) returns (bound: nat)
    requires WellFormed(p, false) && HasGroup(p)
    ensures var cut := CutAt(p);
            && (forall alt | alt in cut.alts :: CountOpen(TrimStart(cut.pre) + alt + TrimEnd(cut.post)) < bound)
            && ExpandRef(Render(p)) == Tidy(ExpandEach(TrimStart(cut.pre), cut.alts, 0, TrimEnd(cut.post), bound))
  {
    var ref, cut := Render(p), CutAt(p);
    var pre, body, post := TrimStart(cut.pre), JoinBar(cut.alts), TrimEnd(cut.post);
    var s, i, j := Trim(ref), |pre|, |pre| + 1 + |body|;
    GroupFound(p, pre, body, post);
    Around(s, pre, body, post);
    bound := CountOpen(ref);
    OpenFalls(ref, i, j);
    ExpandLevel(ref, s, i, j, cut.alts, bound);
  }

  lemma ExpandChosen(p: Pat, k: nat)
    requires WellFormed(p, false) && HasGroup(p) && k < |CutAt(p).alts|
    ensures ExpandRef(TrimStart(CutAt(p).pre) + CutAt(p).alts[k] + TrimEnd(CutAt(p).post))
         == ExpandRef(Render(Choose(p, k)))
  {
    var cut := CutAt(p);
    ChooseIs(p, k, false);
    ContextTrim(cut.pre, cut.alts[k], cut.post);
    ExpandRefTrim(TrimStart(cut.pre) + cut.alts[k] + TrimEnd(cut.post), Render(Choose(p, k)));
  }

  /** Every variant of the pattern is a variant of one of its choices … */
  lemma ExpandGroupFrom(p: Pat, x: string) returns (k: nat, y: string)
    requires WellFormed(p, false) && HasGroup(p) && x in ExpandRef(Render(p))
    ensures k < |CutAt(p).alts| && y in ExpandRef(Render(Choose(p, k))) && x == Collapse(y) && x != ""
  {
    var cut := CutAt(p);
    var bound := ExpandPattern(p);
    TidyHas(ExpandEach(TrimStart(cut.pre), cut.alts, 0, TrimEnd(cut.post), bound), x);
    k, y := CollectedFrom(TrimStart(cut.pre), cut.alts, TrimEnd(cut.post), bound, x);
    ExpandChosen(p, k);
  }

  /** … and every variant of a choice is one of the pattern. */
  lemma ExpandGroupInto(p: Pat, k: nat, y: string)
    requires WellFormed(p, false) && HasGroup(p) && k < |CutAt(p).alts|
    requires y in ExpandRef(Render(Choose(p, k))) && Collapse(y) != ""
    ensures Collapse(y) in ExpandRef(Render(p))
  {
    var cut := CutAt(p);
    var bound := ExpandPattern(p);
    TidyHas(ExpandEach(TrimStart(cut.pre), cut.alts, 0, TrimEnd(cut.post), bound), Collapse(y));
    ExpandChosen(p, k);
    CollectedInto(TrimStart(cut.pre), cut.alts, TrimEnd(cut.post), bound, k, y);
  }

  lemma {:induction false} TrimStartSuffix(s: string)
    ensures forall c | c in TrimStart(s) :: c in s
  {
    if s != "" && IsSpace(s[0]) { TrimStartSuffix(s[1..]); }
  }

  lemma CollectedFrom(pre: string, alts: seq<string>, post: string, bound: nat, x: string)
    returns (k: nat, y: string)
    requires forall alt | alt in alts :: CountOpen(pre + alt + post) < bound
    requires x in Collapsed(ExpandEach(pre, alts, 0, post, bound))
    ensures k < |alts| && y in ExpandRef(pre + alts[k] + post) && x == Collapse(y)
  {
    var each := ExpandEach(pre, alts, 0, post, bound);
    var t :| 0 <= t < |each| && x == Collapse(each[t]);
    y := each[t];
    k := ExpandEachFrom(pre, alts, 0, post, bound, y);
  }

  lemma CollectedInto(pre: string, alts: seq<string>, post: string, bound: nat, k: nat, y: string)
    requires forall alt | alt in alts :: CountOpen(pre + alt + post) < bound
    requires k < |alts| && y in ExpandRef(pre + alts[k] + post)
    ensures Collapse(y) in Collapsed(ExpandEach(pre, alts, 0, post, bound))
  {
    var each := ExpandEach(pre, alts, 0, post, bound);
    ExpandEachInto(pre, alts, 0, post, bound, k, y);
    var t :| 0 <= t < |each| && each[t] == y;
    assert Collapsed(each)[t] == Collapse(y);
  }

  /** `expandRef` returns exactly the non-empty, whitespace-collapsed sentences of the pattern,
      each once. */
  lemma {:induction false} ExpandRefDenotes(p: Pat, x: string)
    requires WellFormed(p, false)
    ensures x in ExpandRef(Render(p)) <==>
            x != "" && exists m | m in Means(p) :: x == Collapse(m)
    decreases CountOpen(Render(p))
  {
    if !HasGroup(p) {
      LiteralDenotes(p, x);
    } else {
      if x in ExpandRef(Render(p)) {
        var k, y := ExpandGroupFrom(p, x);
        ChooseIs(p, k, false);
        ChooseSmaller(p, k);
        ExpandRefDenotes(Choose(p, k), y);
        var m :| m in Means(Choose(p, k)) && y == Collapse(m);
        CollapseCanonical(m, m);
      }
      if x != "" && exists m | m in Means(p) :: x == Collapse(m) {
        var m :| m in Means(p) && x == Collapse(m);
        var k := SomeChoice(p, m);
        ChooseIs(p, k, false);
        ChooseSmaller(p, k);
        ExpandRefDenotes(Choose(p, k), x);
        CollapseCanonical(m, m);
        ExpandGroupInto(p, k, x);
      }
    }
  }

  lemma LiteralDenotes(p: Pat, x: string)
    requires WellFormed(p, false) && !HasGroup(p)
    ensures x in ExpandRef(Render(p)) <==> x != "" && exists m | m in Means(p) :: x == Collapse(m)
  {
    PlainRender(p, false);
    var s := Render(p);
    TrimStartSuffix(s);
    TrimEndEdge(TrimStart(s));
    NoGroupFound(Trim(s), 0);
    TrimEmpty(s);
    FieldsTrim(s);
    CollapseCanonical(Trim(s), s);
    CollapseIsJoin(s);
    if Fields(s) != [] { JoinEdges(Fields(s)); }
  }

  lemma ChooseSmaller(p: Pat, k: nat)
    requires WellFormed(p, false) && HasGroup(p) && k < |CutAt(p).alts|
    ensures CountOpen(Render(Choose(p, k))) < CountOpen(Render(p))
  {
    var cut := CutAt(p);
    var alt := cut.alts[k];
    CutRenders(p, false);
    ChooseIs(p, k, false);
    NoOpen(alt);
    var tail := JoinBar(cut.alts) + ")" + cut.post;
    assert Render(p) == (cut.pre + "(") + tail;
    CountOpenConcat(cut.pre + "(", tail);
    CountOpenConcat(cut.pre, "(");
    assert CountOpen("(") == 1;
    CountOpenConcat(JoinBar(cut.alts) + ")", cut.post);
    CountOpenConcat(cut.pre + alt, cut.post);
    CountOpenConcat(cut.pre, alt);
  }

  lemma {:induction false} NoOpen(s: string)
    requires Plain(s)
    ensures CountOpen(s) == 0
  {
    if s != "" { assert s[0] in s; NoOpen(s[1..]); }
  }
}
