/** What makes two words of a dictation equal, and what kind of error two unequal words are. */
module Classify {
  import opened Tokens
  import Typo

  /** A word with the punctuation after it; `i` is its position in the sentence. */
  datatype DcToken = DcToken(i: nat, w: string, p: string)

  datatype Near = Strict | FlagOnly | Half
  datatype Marking = Marking(caseSensitive: bool, punctuation: bool, near: Near, extraCost: real)

  /** `fold`: letters that are letters of their own, with the spelling written instead.
      `accepted`: for each letter the spellings accepted as that letter, in order. */
  datatype Pack = Pack(fold: map<char, string>, accepted: seq<(string, seq<string>)>)

  datatype ErrorClass = Punctuation | Case | Diacritic | Slip | Wrong | Boundary

  predicate Nearable(cls: ErrorClass) { cls == Punctuation || cls == Case || cls == Slip }

  // ----- The comparison key -----

  /** `s.split(pattern).join(letter)` */
  function ReplaceAll(s: string, pattern: string, letter: string): string
    requires pattern != ""
    decreases |s|
  {
    if |s| < |pattern| then s
    else if s[..|pattern|] == pattern then letter + ReplaceAll(s[|pattern|..], pattern, letter)
    else [s[0]] + ReplaceAll(s[1..], pattern, letter)
  }

  function AcceptEach(word: string, letter: string, spellings: seq<string>, k: nat): string
    requires k <= |spellings|
    decreases |spellings| - k
  {
    if k == |spellings| then word
    else AcceptEach(if spellings[k] == "" then word else ReplaceAll(word, spellings[k], letter), letter, spellings, k + 1)
  }

  function AcceptFrom(word: string, accepted: seq<(string, seq<string>)>, k: nat): string
    requires k <= |accepted|
    decreases |accepted| - k
  {
    if k == |accepted| then word
    else AcceptFrom(AcceptEach(word, accepted[k].0, accepted[k].1, 0), accepted, k + 1)
  }

  method AcceptSpellings(word: string, pack: Pack) returns (out: string)
    ensures out == AcceptFrom(word, pack.accepted, 0)
  {
    out := word;
    for k := 0 to |pack.accepted|
      invariant AcceptFrom(out, pack.accepted, k) == AcceptFrom(word, pack.accepted, 0)
    {
      var (letter, spellings) := pack.accepted[k];
      ghost var before := out;
      for t := 0 to |spellings|
        invariant AcceptEach(out, letter, spellings, t) == AcceptEach(before, letter, spellings, 0)
      {
        if spellings[t] != "" { out := ReplaceAll(out, spellings[t], letter); }
      }
    }
  }

  function CaseRule(w: string, m: Marking, abc: Alphabet): string {
    if m.caseSensitive then w else abc.lower(w)
  }

  function Reading(t: DcToken, m: Marking, pack: Pack, abc: Alphabet): string {
    AcceptFrom(CaseRule(t.w, m, abc), pack.accepted, 0)
  }

  function CompareKey(t: DcToken, m: Marking, pack: Pack, abc: Alphabet): string {
    if m.punctuation then Reading(t, m, pack, abc) + "\U{1}" + t.p else Reading(t, m, pack, abc)
  }

  /** Two tokens with one comparison key. */
  function SameKey(m: Marking, pack: Pack, abc: Alphabet): (DcToken, DcToken) -> bool {
    (e, g) => CompareKey(e, m, pack, abc) == CompareKey(g, m, pack, abc)
  }

  // ----- The classifier -----

  function FoldFrom(word: string, pack: Pack, k: nat): string
    requires k <= |word|
    decreases |word| - k
  {
    if k == |word| then ""
    else (if word[k] in pack.fold then pack.fold[word[k]] else [word[k]]) + FoldFrom(word, pack, k + 1)
  }

  method Fold(word: string, pack: Pack) returns (out: string)
    ensures out == FoldFrom(word, pack, 0)
  {
    out := "";
    for k := 0 to |word|
      invariant out + FoldFrom(word, pack, k) == FoldFrom(word, pack, 0)
    {
      var piece := if word[k] in pack.fold then pack.fold[word[k]] else [word[k]];
      assert out + (piece + FoldFrom(word, pack, k + 1)) == (out + piece) + FoldFrom(word, pack, k + 1);
      out := out + piece;
    }
  }

  /** One substitution that touches a letter of the fold table … */
  predicate FoldSubstituted(a: string, b: string, pack: Pack) {
    |a| == |b| && exists k | 0 <= k < |a| ::
      a[k] != b[k] && (a[k] in pack.fold || b[k] in pack.fold) && a[..k] == b[..k] && a[k + 1..] == b[k + 1..]
  }

  /** … or one letter of the table left out. */
  predicate FoldDropped(long: string, short: string, pack: Pack) {
    |long| == |short| + 1 && exists k | 0 <= k < |long| ::
      long[k] in pack.fold && long[..k] == short[..k] && long[k + 1..] == short[k..]
  }

  predicate OneEditOnFoldLetter(a: string, b: string, pack: Pack) {
    FoldSubstituted(a, b, pack) || FoldDropped(a, b, pack) || FoldDropped(b, a, pack)
  }

  lemma PrefixAgrees(a: string, b: string, m: nat)
    requires m <= |a| && m <= |b| && a[..m] == b[..m]
    ensures forall q | 0 <= q < m :: a[q] == b[q]
  {
    forall q | 0 <= q < m ensures a[q] == b[q] { assert a[..m][q] == b[..m][q]; }
  }

  /** Letters before the first mismatch agree; dropping any letter of `long` that leaves `short`
      is dropping the same letter as dropping the one at the mismatch. */
  lemma {:induction false} DropAtMismatch(long: string, short: string, k: nat, m: nat)
    requires |long| == |short| + 1 && m < |long| && long[..m] == short[..m] && long[m + 1..] == short[m..]
    requires k < |long| && long[..k] == short[..k] && (k < |short| ==> long[k] != short[k])
    ensures m <= k && long[k + 1..] == short[k..] && long[k] == long[m]
    decreases |long| - m
  {
    PrefixAgrees(long, short, m);
    PrefixAgrees(long, short, k);
    if m < k {
      assert long[m + 1..][0] == short[m..][0];
      assert long[..m + 1] == short[..m + 1];
      assert long[m + 2..] == long[m + 1..][1..] && short[m + 1..] == short[m..][1..];
      DropAtMismatch(long, short, k, m + 1);
    }
  }

  method FirstMismatch(long: string, short: string) returns (k: nat)
    requires |long| == |short| + 1
    ensures k < |long| && long[..k] == short[..k] && (k < |short| ==> long[k] != short[k])
  {
    k := 0;
    while k < |short| && long[k] == short[k]
      invariant k <= |short| && long[..k] == short[..k]
    {
      assert long[..k + 1] == long[..k] + [long[k]] && short[..k + 1] == short[..k] + [short[k]];
      k := k + 1;
    }
  }

  /** The scan that stops at the first mismatch finds a touching edit whenever there is one. */
  method ScanFoldEdit(a: string, b: string, pack: Pack) returns (r: bool)
    ensures r <==> OneEditOnFoldLetter(a, b, pack)
  {
    if |a| == |b| {
      var diffs: seq<nat> := [];
      for t := 0 to |a|
        invariant forall k | 0 <= k < |diffs| :: diffs[k] < t && a[diffs[k]] != b[diffs[k]]
        invariant forall k, l | 0 <= k < l < |diffs| :: diffs[k] < diffs[l]
        invariant forall q | 0 <= q < t && a[q] != b[q] :: q in diffs
      {
        if a[t] != b[t] { diffs := diffs + [t]; }
      }
      if |diffs| != 1 {
        NotOneSubstitution(a, b, diffs, pack);
        return false;
      }
      var k := diffs[0];
      assert a[..k] == b[..k] && a[k + 1..] == b[k + 1..];
      r := a[k] in pack.fold || b[k] in pack.fold;
      OnlySubstitution(a, b, k, pack);
      return;
    }
    if |a| != |b| + 1 && |b| != |a| + 1 { return false; }
    var long, short := if |a| > |b| then a else b, if |a| > |b| then b else a;
    var k := FirstMismatch(long, short);
    if long[k + 1..] != short[k..] {
      if FoldDropped(long, short, pack) {
        var m :| 0 <= m < |long| && long[m] in pack.fold && long[..m] == short[..m] && long[m + 1..] == short[m..];
        DropAtMismatch(long, short, k, m);
      }
      return false;
    }
    if FoldDropped(long, short, pack) {
      var m :| 0 <= m < |long| && long[m] in pack.fold && long[..m] == short[..m] && long[m + 1..] == short[m..];
      DropAtMismatch(long, short, k, m);
    }
    r := long[k] in pack.fold;
  }

  lemma NotOneSubstitution(a: string, b: string, diffs: seq<nat>, pack: Pack)
    requires |a| == |b| && |diffs| != 1
    requires forall k | 0 <= k < |diffs| :: diffs[k] < |a| && a[diffs[k]] != b[diffs[k]]
    requires forall k, l | 0 <= k < l < |diffs| :: diffs[k] < diffs[l]
    requires forall q | 0 <= q < |a| && a[q] != b[q] :: q in diffs
    ensures !FoldSubstituted(a, b, pack)
  {
    forall k | 0 <= k < |a| && a[k] != b[k] ensures !(a[..k] == b[..k] && a[k + 1..] == b[k + 1..]) {
      assert k in diffs;
      var q := if diffs[0] == k then diffs[1] else diffs[0];
      if a[..k] == b[..k] && a[k + 1..] == b[k + 1..] { Typo.SubstitutedLetter(a, b, k, q); }
    }
  }

  lemma OnlySubstitution(a: string, b: string, k: nat, pack: Pack)
    requires |a| == |b| && k < |a| && a[k] != b[k] && a[..k] == b[..k] && a[k + 1..] == b[k + 1..]
    ensures FoldSubstituted(a, b, pack) <==> a[k] in pack.fold || b[k] in pack.fold
  {
    if FoldSubstituted(a, b, pack) {
      var m :| 0 <= m < |a| && a[m] != b[m] && (a[m] in pack.fold || b[m] in pack.fold)
               && a[..m] == b[..m] && a[m + 1..] == b[m + 1..];
      if m != k { Typo.SubstitutedLetter(a, b, m, k); }
    }
  }

  function ClassOf(expected: DcToken, got: DcToken, m: Marking, pack: Pack, abc: Alphabet): ErrorClass {
    var e, g := Reading(expected, m, pack, abc), Reading(got, m, pack, abc);
    var el, gl := abc.lower(e), abc.lower(g);
    if e == g && expected.p != got.p then Punctuation
    else if e != g && el == gl then Case
    else if FoldFrom(el, pack, 0) == FoldFrom(gl, pack, 0) || OneEditOnFoldLetter(el, gl, pack) then Diacritic
    else if |el| >= 4 && (el == gl || Typo.OneEdit(el, gl)) then Slip
    else Wrong
  }

  // ----- Looser marking never compares more words unequal -----

  /** `loose` checks no more than `m`: capitals or punctuation may have been switched off. */
  predicate Looser(loose: Marking, m: Marking) {
    && (loose.caseSensitive ==> m.caseSensitive)
    && (loose.punctuation ==> m.punctuation)
  }

  lemma SeparatorUnique(a: string, p: string, b: string, q: string)
    requires '\U{1}' !in a && '\U{1}' !in b && a + "\U{1}" + p == b + "\U{1}" + q
    ensures a == b && p == q
  {
    var s, t := a + "\U{1}" + p, b + "\U{1}" + q;
    assert s[|a|] == '\U{1}' && t[|b|] == '\U{1}';
    assert forall q | 0 <= q < |a| :: s[q] == a[q] && a[q] in a;
    assert forall q | 0 <= q < |b| :: t[q] == b[q] && b[q] in b;
    assert s[..|a|] == a && t[..|a|] == b;
    assert s[|a| + 1..] == p && t[|a| + 1..] == q;
  }

  /** No letter of the accepted spellings is the separator of the comparison key. */
  ghost predicate LettersPlain(pack: Pack) { forall k | 0 <= k < |pack.accepted| :: '\U{1}' !in pack.accepted[k].0 }

  lemma {:induction false} ReplaceKeepsOut(s: string, pattern: string, letter: string, c: char)
    requires pattern != "" && c !in s && c !in letter
    ensures c !in ReplaceAll(s, pattern, letter)
    decreases |s|
  {
    if |s| >= |pattern| {
      if s[..|pattern|] == pattern { ReplaceKeepsOut(s[|pattern|..], pattern, letter, c); }
      else { ReplaceKeepsOut(s[1..], pattern, letter, c); }
    }
  }

  lemma {:induction false} AcceptEachKeepsOut(word: string, letter: string, spellings: seq<string>, k: nat, c: char)
    requires k <= |spellings| && c !in word && c !in letter
    ensures c !in AcceptEach(word, letter, spellings, k)
    decreases |spellings| - k
  {
    if k < |spellings| {
      if spellings[k] == "" {
        AcceptEachKeepsOut(word, letter, spellings, k + 1, c);
      } else {
        ReplaceKeepsOut(word, spellings[k], letter, c);
        AcceptEachKeepsOut(ReplaceAll(word, spellings[k], letter), letter, spellings, k + 1, c);
      }
    }
  }

  lemma {:induction false} AcceptKeepsOut(word: string, accepted: seq<(string, seq<string>)>, k: nat, c: char)
    requires k <= |accepted| && c !in word && forall t | 0 <= t < |accepted| :: c !in accepted[t].0
    ensures c !in AcceptFrom(word, accepted, k)
    decreases |accepted| - k
  {
    if k < |accepted| {
      AcceptEachKeepsOut(word, accepted[k].0, accepted[k].1, 0, c);
      AcceptKeepsOut(AcceptEach(word, accepted[k].0, accepted[k].1, 0), accepted, k + 1, c);
    }
  }

  /** Keys are equal exactly when the readings are, and the punctuation where it is checked. */
  lemma KeyIs(m: Marking, pack: Pack, abc: Alphabet, e: DcToken, g: DcToken)
    requires LettersPlain(pack) && Wordly(abc, e.w) && Wordly(abc, g.w)
    ensures SameKey(m, pack, abc)(e, g) <==>
              Reading(e, m, pack, abc) == Reading(g, m, pack, abc) && (m.punctuation ==> e.p == g.p)
  {
    AcceptKeepsOut(CaseRule(e.w, m, abc), pack.accepted, 0, '\U{1}');
    AcceptKeepsOut(CaseRule(g.w, m, abc), pack.accepted, 0, '\U{1}');
    if m.punctuation && SameKey(m, pack, abc)(e, g) {
      SeparatorUnique(Reading(e, m, pack, abc), e.p, Reading(g, m, pack, abc), g.p);
    }
  }

  /** Equal keys stay equal when punctuation is no longer checked, whatever the pack accepts, and
      when capitals are no longer checked, for a pack that accepts no spellings. */
  lemma KeyRefines(m: Marking, loose: Marking, pack: Pack, abc: Alphabet, e: DcToken, g: DcToken)
    requires Looser(loose, m) && LettersPlain(pack)
    requires loose.caseSensitive == m.caseSensitive || pack.accepted == []
    requires Wordly(abc, e.w) && Wordly(abc, g.w)
    requires SameKey(m, pack, abc)(e, g)
    ensures SameKey(loose, pack, abc)(e, g)
  {
    KeyIs(m, pack, abc, e, g);
    KeyIs(loose, pack, abc, e, g);
  }
}
