/** Whitespace, words and joining, as the kernel's string helpers see them. */
module Text {

  /** What `\s` and `trim()` call whitespace. */
  predicate IsSpace(c: char) {
    || c == ' ' || '\U{9}' <= c <= '\U{D}' || c == '\U{A0}' || c == '\U{1680}'
    || '\U{2000}' <= c <= '\U{200A}' || c == '\U{2028}' || c == '\U{2029}'
    || c == '\U{202F}' || c == '\U{205F}' || c == '\U{3000}' || c == '\U{FEFF}'
  }

  function TrimStart(s: string): string {
    if s != "" && IsSpace(s[0]) then TrimStart(s[1..]) else s
  }

  function TrimEnd(s: string): string {
    if s != "" && IsSpace(s[|s| - 1]) then TrimEnd(s[..|s| - 1]) else s
  }

  function Trim(s: string): string { TrimEnd(TrimStart(s)) }

  /** `text.replace(/\s+/g, ' ')` */
  function Squash(s: string): string
    decreases |s|
  {
    if s == "" then ""
    else if IsSpace(s[0]) then TrimStartShorter(s); " " + Squash(TrimStart(s))
    else [s[0]] + Squash(s[1..])
  }

  function Collapse(s: string): string { Trim(Squash(s)) }

  /** `s.split(c)` */
  function Split(s: string, c: char): (parts: seq<string>)
    ensures |parts| >= 1
  {
    if s == "" then [""]
    else
      var rest := Split(s[1..], c);
      if s[0] == c then [""] + rest else [[s[0]] + rest[0]] + rest[1..]
  }

  /** `s.indexOf(c, k)`, or the length when there is none. */
  function IndexOf(s: string, c: char, k: nat): (i: nat)
    requires k <= |s|
    ensures k <= i <= |s| && (i < |s| ==> s[i] == c) && forall t | k <= t < i :: s[t] != c
    decreases |s| - k
  {
    if k == |s| || s[k] == c then k else IndexOf(s, c, k + 1)
  }

  function NonEmpty(parts: seq<string>): seq<string> {
    if parts == [] then []
    else (if parts[0] == "" then [] else [parts[0]]) + NonEmpty(parts[1..])
  }

  /** `collapse(text).split(' ').filter(Boolean)` */
  function Words(s: string): seq<string> { NonEmpty(Split(Collapse(s), ' ')) }

  /** `parts.join(' ')` */
  function Join(parts: seq<string>): string {
    if parts == [] then "" else if |parts| == 1 then parts[0]
    else parts[0] + " " + Join(parts[1..])
  }

  // ----- A reference reading: the maximal runs of non-space characters -----

  predicate Clean(w: string) { w != "" && forall c | c in w :: !IsSpace(c) }

  predicate AllClean(ws: seq<string>) { forall w | w in ws :: Clean(w) }

  function WordLen(s: string): (n: nat)
    ensures n <= |s|
    ensures forall k | 0 <= k < n :: !IsSpace(s[k])
    ensures n == |s| || IsSpace(s[n])
  {
    if s == "" || IsSpace(s[0]) then 0 else 1 + WordLen(s[1..])
  }

  function Fields(s: string): (ws: seq<string>)
    ensures AllClean(ws)
    decreases |s|
  {
    if s == "" then []
    else if IsSpace(s[0]) then Fields(s[1..])
    else [s[..WordLen(s)]] + Fields(s[WordLen(s)..])
  }

  /** The fields of each part, one after the other. */
  function FieldsAll(parts: seq<string>): seq<string> {
    if parts == [] then [] else Fields(parts[0]) + FieldsAll(parts[1..])
  }

  lemma TrimStartShorter(s: string)
    ensures |TrimStart(s)| <= |s|
    ensures s != "" && IsSpace(s[0]) ==> |TrimStart(s)| < |s|
  {}

  lemma {:induction false} WordLenUnique(s: string, n: nat)
    requires n <= |s| && (forall k | 0 <= k < n :: !IsSpace(s[k])) && (n == |s| || IsSpace(s[n]))
    ensures WordLen(s) == n
  {}

  lemma {:induction false} FieldsTrimStart(s: string)
    ensures Fields(TrimStart(s)) == Fields(s)
  {
    if s != "" && IsSpace(s[0]) { FieldsTrimStart(s[1..]); }
  }

  /** A trailing space adds no field. */
  lemma FieldsDropTrailing(t: string, c: char)
    requires IsSpace(c)
    ensures Fields(t + [c]) == Fields(t)
  {
    FieldsGap(t, c, "");
    assert t + [c] + "" == t + [c] && Fields(t) + [] == Fields(t);
  }

  lemma {:induction false} FieldsGap(a: string, c: char, b: string)
    requires IsSpace(c)
    ensures Fields(a + [c] + b) == Fields(a) + Fields(b)
    decreases |a|
  {
    var s := a + [c] + b;
    if a == "" {
      assert s[1..] == b;
    } else if IsSpace(a[0]) {
      assert s[1..] == a[1..] + [c] + b;
      FieldsGap(a[1..], c, b);
    } else {
      var n := WordLen(a);
      WordLenUnique(s, n);
      var rest := a[n..];
      assert s[..n] == a[..n];
      assert s[n..] == rest + [c] + b;
      FieldsGap(rest, c, b);
      assert [a[..n]] + (Fields(rest) + Fields(b)) == ([a[..n]] + Fields(rest)) + Fields(b);
    }
  }

  lemma {:induction false} FieldsTrimEnd(s: string)
    ensures Fields(TrimEnd(s)) == Fields(s)
    decreases |s|
  {
    if s != "" && IsSpace(s[|s| - 1]) {
      var t := s[..|s| - 1];
      assert s == t + [s[|s| - 1]];
      FieldsDropTrailing(t, s[|s| - 1]);
      FieldsTrimEnd(t);
    }
  }

  lemma FieldsTrim(s: string)
    ensures Fields(Trim(s)) == Fields(s)
  {
    FieldsTrimStart(s);
    FieldsTrimEnd(TrimStart(s));
  }

  /** Trimming leaves nothing exactly when there is no word. */
  lemma {:induction false} TrimEmpty(s: string)
    ensures Trim(s) == "" <==> Fields(s) == []
  {
    FieldsTrim(s);
    TrimStartEdge(s);
    TrimEndEdge(TrimStart(s));
    var t := Trim(s);
    if t != "" {
      assert t[0] == TrimStart(s)[0];
    }
  }

  lemma {:induction false} TrimStartEdge(s: string)
    ensures var t := TrimStart(s); t != "" ==> !IsSpace(t[0])
  {
    if s != "" && IsSpace(s[0]) { TrimStartEdge(s[1..]); }
  }

  lemma {:induction false} TrimEndEdge(s: string)
    ensures var t := TrimEnd(s); t <= s && (t != "" ==> !IsSpace(t[|t| - 1]))
    decreases |s|
  {
    if s != "" && IsSpace(s[|s| - 1]) { TrimEndEdge(s[..|s| - 1]); }
  }

  /** A text with no space at either edge is its own trim. */
  lemma TrimIdentity(s: string)
    requires s == "" || (!IsSpace(s[0]) && !IsSpace(s[|s| - 1]))
    ensures Trim(s) == s
  {}

  // ----- `collapse` and `words` agree with the reference reading -----

  lemma {:induction false} SquashWord(s: string, n: nat)
    requires n <= |s| && forall k | 0 <= k < n :: !IsSpace(s[k])
    ensures Squash(s) == s[..n] + Squash(s[n..])
  {
    if n > 0 {
      SquashWord(s[1..], n - 1);
      assert s[1..][n - 1..] == s[n..] && s[..n] == [s[0]] + s[1..][..n - 1];
    } else {
      assert s[n..] == s;
    }
  }

  lemma {:induction false} TrimEndPrefix(a: string, b: string)
    requires b != "" && !IsSpace(b[0])
    ensures TrimEnd(a + b) == a + TrimEnd(b)
    decreases |b|
  {
    var s := a + b;
    if IsSpace(b[|b| - 1]) {
      assert s[..|s| - 1] == a + b[..|b| - 1];
      TrimEndPrefix(a, b[..|b| - 1]);
    }
  }

  /** A text that starts with a word is that word, then nothing or a gap and the next word. */
  lemma SquashNext(s: string, w: string, rest: string, d: string)
    requires s != "" && !IsSpace(s[0])
    requires w == s[..WordLen(s)] && rest == s[WordLen(s)..] && d == TrimStart(rest)
    ensures |d| < |s| && Fields(s) == [w] + Fields(d)
    ensures d != "" ==> Squash(d) != "" && !IsSpace(Squash(d)[0]) && !IsSpace(d[0]) && Fields(d) != []
    ensures w != "" && !IsSpace(w[|w| - 1])
    ensures Squash(s) == w + (if rest == "" then "" else " " + Squash(d))
    ensures rest == "" ==> d == ""
  {
    SquashWord(s, WordLen(s));
    TrimStartShorter(rest);
    TrimStartEdge(rest);
    FieldsTrimStart(rest);
  }

  lemma {:induction false} CollapseFromWord(s: string)
    requires s != "" ==> !IsSpace(s[0])
    ensures TrimEnd(Squash(s)) == Join(Fields(s))
    decreases |s|
  {
    if s != "" {
      var w, rest := s[..WordLen(s)], s[WordLen(s)..];
      var d := TrimStart(rest);
      SquashNext(s, w, rest, d);
      CollapseFromWord(d);
      WordThenRest(w, rest == "", Squash(d), Fields(d));
    }
  }

  lemma WordThenRest(w: string, last: bool, tail: string, ws: seq<string>)
    requires w != "" && !IsSpace(w[|w| - 1]) && TrimEnd(tail) == Join(ws)
    requires (tail == "" <==> ws == []) && (tail != "" ==> !IsSpace(tail[0])) && (last ==> tail == "")
    ensures TrimEnd(w + (if last then "" else " " + tail)) == Join([w] + ws)
  {
    if tail == "" {
      TrimEndIdentity(w);
      assert w + "" == w && " " + tail == " ";
    } else {
      assert w + (" " + tail) == (w + " ") + tail;
      TrimEndPrefix(w + " ", tail);
      JoinCons(w, ws);
    }
  }

  lemma JoinCons(w: string, ws: seq<string>)
    requires ws != []
    ensures Join([w] + ws) == w + " " + Join(ws)
  {
    assert ([w] + ws)[1..] == ws;
  }

  lemma TrimEndIdentity(w: string)
    requires w != "" && !IsSpace(w[|w| - 1])
    ensures TrimEnd(w) == w && TrimEnd(w + " ") == w
  {
    assert (w + " ")[..|w|] == w;
  }

  lemma CollapseIsJoin(s: string)
    ensures Collapse(s) == Join(Fields(s))
  {
    TrimStartEdge(s);
    FieldsTrimStart(s);
    TrimStartShorter(s);
    CollapseFromWord(TrimStart(s));
    if s != "" && IsSpace(s[0]) {
      var d := TrimStart(s);
      assert Squash(s) == " " + Squash(d);
      assert Squash(s)[1..] == Squash(d);
      assert TrimStart(Squash(d)) == Squash(d);
    } else {
      assert TrimStart(Squash(s)) == Squash(s);
    }
  }

  lemma {:induction false} SplitWord(w: string, rest: string, c: char)
    requires c !in w
    ensures Split(w, c) == [w]
    ensures Split(w + [c] + rest, c) == [w] + Split(rest, c)
  {
    var s := w + [c] + rest;
    if w == "" {
      assert s[1..] == rest;
    } else {
      SplitWord(w[1..], rest, c);
      assert s[1..] == w[1..] + [c] + rest;
      assert w == [w[0]] + w[1..];
    }
  }

  lemma {:induction false} SplitJoin(ws: seq<string>)
    requires AllClean(ws)
    ensures NonEmpty(Split(Join(ws), ' ')) == ws
  {
    if ws == [] {
    } else {
      assert Clean(ws[0]);
      if |ws| == 1 {
        SplitWord(ws[0], "", ' ');
      } else {
        SplitWord(ws[0], Join(ws[1..]), ' ');
        SplitJoin(ws[1..]);
      }
    }
  }

  /** `words` yields exactly the maximal runs of non-space characters. */
  lemma WordsAreFields(s: string)
    ensures Words(s) == Fields(s)
  {
    CollapseIsJoin(s);
    SplitJoin(Fields(s));
  }

  // ----- Joining -----

  lemma {:induction false} FieldsOfClean(w: string)
    requires Clean(w)
    ensures Fields(w) == [w]
  {
    WordLenUnique(w, |w|);
    assert w[..|w|] == w && w[|w|..] == "";
  }

  /** The fields of a join are the fields of its parts, in order. */
  lemma {:induction false} FieldsOfJoin(parts: seq<string>)
    ensures Fields(Join(parts)) == FieldsAll(parts)
  {
    if |parts| == 1 {
      assert FieldsAll(parts) == Fields(parts[0]);
    } else if |parts| > 1 {
      FieldsGap(parts[0], ' ', Join(parts[1..]));
      FieldsOfJoin(parts[1..]);
    }
  }

  lemma {:induction false} FieldsAllConcat(a: seq<string>, b: seq<string>)
    ensures FieldsAll(a + b) == FieldsAll(a) + FieldsAll(b)
  {
    if a == [] {
      assert a + b == b;
    } else {
      FieldsAllConcat(a[1..], b);
      assert (a + b)[0] == a[0] && (a + b)[1..] == a[1..] + b;
      var x, y, z := Fields(a[0]), FieldsAll(a[1..]), FieldsAll(b);
      assert x + (y + z) == (x + y) + z;
    }
  }

  lemma {:induction false} FieldsAllClean(ws: seq<string>)
    requires AllClean(ws)
    ensures FieldsAll(ws) == ws
  {
    if ws != [] {
      FieldsOfClean(ws[0]);
      FieldsAllClean(ws[1..]);
    }
  }

  /** `words` undoes `join` on clean words. */
  lemma JoinRoundTrip(ws: seq<string>)
    requires AllClean(ws)
    ensures Fields(Join(ws)) == ws && Words(Join(ws)) == ws
  {
    FieldsOfJoin(ws);
    FieldsAllClean(ws);
    WordsAreFields(Join(ws));
  }

  /** Collapsing twice is collapsing once; only the words of the text matter. */
  lemma CollapseCanonical(s: string, t: string)
    ensures Fields(s) == Fields(t) <==> Collapse(s) == Collapse(t)
    ensures Collapse(Collapse(s)) == Collapse(s)
    ensures Fields(Collapse(s)) == Fields(s)
  {
    CollapseIsJoin(s);
    CollapseIsJoin(t);
    JoinRoundTrip(Fields(s));
    JoinRoundTrip(Fields(t));
    CollapseIsJoin(Collapse(s));
  }

  /** A join of clean words has no space at either edge. */
  lemma {:induction false} JoinEdges(ws: seq<string>)
    requires AllClean(ws) && ws != []
    ensures var s := Join(ws); s != "" && !IsSpace(s[0]) && !IsSpace(s[|s| - 1])
  {
    assert Clean(ws[0]);
    if |ws| > 1 {
      JoinEdges(ws[1..]);
      var s, t := Join(ws), Join(ws[1..]);
      assert s[|s| - 1] == t[|t| - 1];
    }
  }
}
