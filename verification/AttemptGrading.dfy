/** The attempt driven by the real graders: a typed sentence judged by the word diff, a set of
    marks by the interval grading. */
module AttemptGrading {
  import opened Ratios
  import opened Options
  import opened Tokens
  import opened Coordinates
  import opened Attempts
  import opened AttemptRuns
  import D = DictationDiff
  import DA = DiffAccounting
  import M = MarkGrading
  import MM = MarkMatching

  // ----- Dictation -----

  /** A typed text for a sentence, or a request for its key. */
  datatype Typed = Typed(id: string, rules: D.Rules, expected: string, text: string, now: Option<int>) | Show(id: string)

  function DictationEvent(exam: Exam, t: Typed): Event {
    match t
    case Show(id) => Reveal(id)
    case Typed(id, rules, expected, text, now) =>
      var d := D.Diff(rules, DA.Sentence(rules.abc, expected), DA.Sentence(rules.abc, text));
      Check(id, now, Graded(d.score, D.Passes(d, exam.threshold)))
  }

  function DictationEvents(exam: Exam, run: seq<Typed>): seq<Event> {
    seq(|run|, k requires 0 <= k < |run| => DictationEvent(exam, run[k]))
  }

  lemma DictationFair(exam: Exam, t: Typed)
    requires t.Typed? ==> Lawful(t.rules.abc)
    ensures Fair(exam, DictationEvent(exam, t))
  {
    if t.Typed? {
      var E, T := DA.Sentence(t.rules.abc, t.expected), DA.Sentence(t.rules.abc, t.text);
      DA.TextDiffAccounts(t.rules, t.expected, t.text);
      DA.PassesIsScore(t.rules, E, T, exam.threshold);
    }
  }

  /** However a learner types, the attempt's score is a share, and passing every sentence at once
      passes the attempt. */
  lemma DictationAttempt(exam: Exam, run: seq<Typed>)
    requires exam.ready != [] && forall k | 0 <= k < |run| :: run[k].Typed? ==> Lawful(run[k].rules.abc)
    ensures var carried := After(exam, DictationEvents(exam, run));
            && 0.0 <= Mean(exam, carried) <= 1.0
            && ((forall k | 0 <= k < |exam.ready| :: StateOf(carried, exam.ready[k]).firstPassed == Some(true)) ==>
                  Mean(exam, carried) * 100.0 >= exam.threshold as real)
  {
    var events := DictationEvents(exam, run);
    forall k | 0 <= k < |events| ensures Fair(exam, events[k]) { DictationFair(exam, run[k]); }
    AttemptVerdict(exam, events);
  }

  // ----- Marks over a passage -----

  datatype Marked = Marked(id: string, key: seq<Run>, marks: seq<Range>) | Ask(id: string)

  /** Marks that cover no token are refused before anything is graded. */
  function HighlightEvent(exam: Exam, p: Passage, penalty: M.Penalty, m: Marked): Event {
    match m
    case Ask(id) => Reveal(id)
    case Marked(id, key, marks) =>
      match SnapMarks(p, marks)
      case Unsnappable(_) => Check(id, None, Unreadable)
      case Snapped(runs) =>
        var g := M.GradeOf(p.ts, key, runs, penalty);
        Check(id, None, Graded(M.ScoreOf(g), M.Passed(g, exam.threshold)))
  }

  function HighlightEvents(exam: Exam, p: Passage, penalty: M.Penalty, run: seq<Marked>): seq<Event> {
    seq(|run|, k requires 0 <= k < |run| => HighlightEvent(exam, p, penalty, run[k]))
  }

  /** The pass, decided in whole numbers, is the score against the threshold. */
  lemma PassedIsScore(g: M.Grade, threshold: int)
    ensures M.Passed(g, threshold) <==> g.total > 0 && M.ScoreOf(g) * 100.0 >= threshold as real
  {
    if g.total > 0 { RatioTest(g.earned2, 2 * g.total, threshold); }
  }

  lemma HighlightFair(exam: Exam, p: Passage, penalty: M.Penalty, m: Marked)
    ensures Fair(exam, HighlightEvent(exam, p, penalty, m))
  {
    if m.Marked? && SnapMarks(p, m.marks).Snapped? {
      var runs := SnapMarks(p, m.marks).runs;
      MM.GradeAddsUp(p.ts, m.key, runs, penalty);
      PassedIsScore(M.GradeOf(p.ts, m.key, runs, penalty), exam.threshold);
    }
  }

  lemma HighlightAttempt(exam: Exam, p: Passage, penalty: M.Penalty, run: seq<Marked>)
    requires exam.ready != []
    ensures var carried := After(exam, HighlightEvents(exam, p, penalty, run));
            && 0.0 <= Mean(exam, carried) <= 1.0
            && ((forall k | 0 <= k < |exam.ready| :: StateOf(carried, exam.ready[k]).firstPassed == Some(true)) ==>
                  Mean(exam, carried) * 100.0 >= exam.threshold as real)
  {
    var events := HighlightEvents(exam, p, penalty, run);
    forall k | 0 <= k < |events| ensures Fair(exam, events[k]) { HighlightFair(exam, p, penalty, run[k]); }
    AttemptVerdict(exam, events);
  }
}
