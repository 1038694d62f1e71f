# Verification of the exercise engines and the outbox relay

This project models, in Dafny, the side-effect-free engines of `packages/shared-kernel` that decide
how a learner's answer is aligned, judged, carried from submit to submit and re-attached after an
edit, together with the playback rules and the outbox relay of `packages/messaging`, and proves what
they promise. Check everything with `dafny verify dfyconfig.toml`.

## How it is laid out

- **Error correction.** `Text` (words and whitespace), `Typo` (the one-letter scan), `AnswerKey` and
  `AlternationGrammar` (the variant syntax and the grammar it denotes), `Alignment` (the
  longest-common-subsequence walk over any word relation, transitive or not), `Spans` (mistakes as a
  patch), `WordOrder` (which differences are one mistake), `Judging` (edits, outcomes, verdict, routing),
  `Wording` (when two texts count as the same), `Verdicts` (what a judgement says), `Approval` (when the
  router approves).
- **Dictation.** `Tokens` (the tokenizer), `Classify` (comparison keys), `DictationDiff` (seams,
  boundary errors, counts, score), `DiffChart` (what every operation stands for), `DiffAccounting` (nothing lost, nothing invented, looser marking),
  `AcceptedSpellings` (when looser marking finds no fewer words), `FocusMisses`, `FocusReanchor`,
  `FocusSurvival` and `FocusConservation` (focus words under sentence edits and joining).
- **Highlighting.** `Sorting` (the comparator sort), `Coordinates` and `Snapping` (ranges, runs,
  paragraphs), `MarkGrading` and `MarkMatching` (the two-pass grader and maximum pairing), `MarkEdits`
  (the mark editor), `Surfaces`, `HighlightReanchor` and `MarkSurvival` (marks under text edits).
- **Attempts.** `Attempts` is the submit step that the dictation and highlight exercises share;
  `AttemptRuns` proves what every run of checks and reveals keeps; `AttemptGrading` drives it with the
  two graders.
- **Inflection tables.** `InflectionTable` (cells, distractors, bank), `Bank`, `TakenForms` (which forms a
  distractor may not be, and their order), `TableGrading`, `TableScores` (what a check counts), `TableRuns`.
- **Playback and outbox.** `Allowance`, `Timecode`, `OutboxProtocol` (overlapping flushes as a state
  machine), `OutboxRelay` (one flush over a store and a broker that may fail).

`Options`, `Sequences` and `Ratios` hold what several modules share.

Code that loops is modelled as a method with the same loops, proved against a specification function;
the lemmas then prove what the function means. A list or set the code pushes to is a variable the
method reassigns, and an absent value is a `None`.

Two places where the code and its comments disagree follow the code. Two groups of deviations merge
when the second starts at most two words after the first ends, not one, and are judged from the first
group merged so far (`WordOrder.RunsJoin`). A focus word behind an edit can
lose its place to a word from inside it (`FocusSurvival.BehindCanBeDisplaced`), although the comment
says it moves along; `FocusSurvival.SentenceFates` says exactly when.

Where a promise fails for some settings, its exact condition is proved beside the failing runs: looser
marking (`DiffAccounting.LooserFindsMoreIff`, `AcceptedSpellings.OneSpellingIff`), listens against the
limit (`Allowance.ListensSpentIff`) and one message an event (`OutboxProtocol.SendsOnceIff`).

The laws assumed about Unicode are in `Tokens.Lawful`: spaces, joiners and the key separator are no
letters, lower-casing a word gives a word, and the separator does not appear by lower-casing.

## Model

| member | source | states |
|---|---|---|
| Spans.SpansArePatch | packages/shared-kernel/src/error-correction/engine.ts:216-290 | The derived groups, raw and merged, patch the faulty sentence into the key: every `[wFrom, wTo)` replaced by `[rFrom, rTo)` gives exactly the key's words; they are in order with an identical word between any two neighbours; none exist exactly when the two sentences have the same words; a merged group holds the same bare words on both sides |
| Spans.CollectRuns | packages/shared-kernel/src/error-correction/engine.ts:223-242 | The loop that collects runs of consecutive deviations produces exactly the specified raw groups |
| Spans.MergeRuns | packages/shared-kernel/src/error-correction/engine.ts:244-261 | The loop that widens the previous group in place produces exactly the specified merged groups |
| Spans.DeriveSpans | packages/shared-kernel/src/error-correction/engine.ts:216-290 | The whole derivation returns the specified spans with their wording |
| WordOrder.GroupsAreMistakes | packages/shared-kernel/src/error-correction/engine.ts:244-261 | The groups are the mistakes made of the runs of differences read from the left: a run joins the mistake before it when it starts at most two words behind it and, from that mistake's first word on, both sides hold the same bare words, each as often; a mistake of more runs than one is a word-order mistake |
| WordOrder.RunsJoin | packages/shared-kernel/src/error-correction/engine.ts:244-261 | Two neighbouring runs end in one group flagged as a word-order mistake exactly when that holds, read from the first run of the group on |
| WordOrder.NoMergeMissed | packages/shared-kernel/src/error-correction/engine.ts:244-261 | At every boundary between two groups the run the later one begins with is not one mistake with the earlier one |
| WordOrder.MiddleRunGoesLeft | packages/shared-kernel/src/error-correction/engine.ts:244-261 | The pair alone does not decide: for a concrete sentence the middle of three runs fits either neighbour, and goes with the first |
| WordOrder.RunsAreDifferences | packages/shared-kernel/src/error-correction/engine.ts:223-242 | A run holds no word that the alignment keeps as it is |
| WordOrder.BareIs | packages/shared-kernel/src/error-correction/engine.ts:77-77 | A bare word is what is left, lower-cased, without the opening marks in front and the closing marks behind |
| WordOrder.SpansAre | packages/shared-kernel/src/error-correction/engine.ts:263-289 | A span stands where its group does, its two wordings read as the two sentences read there, it is an order mistake when the group is one, and soft exactly when an override is filed under its place and wording |
| WordOrder.SpansExist | packages/shared-kernel/src/error-correction/engine.ts:216-219 | There is a span exactly when both sentences have words and their words differ |
| WordOrder.HardAre | packages/shared-kernel/src/error-correction/engine.ts:292-294 | The hard spans are exactly those that are not soft |
| Wording.NormIs | packages/shared-kernel/src/error-correction/engine.ts:60-69 | Two texts are normalised alike exactly when they show the same words with single spaces, lower-cased where case is ignored, or break into the same words with punctuation read as blanks where that is ignored |
| Wording.SameWordingIs | packages/shared-kernel/src/error-correction/engine.ts:60-69 | That is, word by word: the same words, each lower-cased where case is ignored and broken up at its punctuation where punctuation is ignored, when lower-casing goes word by word |
| Wording.WordEqIs | packages/shared-kernel/src/error-correction/engine.ts:104-106 | Two words are equal, or equal up to case where case is ignored; with tolerance they are equal up to case or one edit apart with four letters or more on either side |
| Approval.PassIff | packages/shared-kernel/src/error-correction/engine.ts:410-504 | An answer passes if and only if the check is on and may approve, the student did something, the built sentence has an accepted variant's wording, every mistake was touched and now reads as the key where that is required, and outside the mistakes every word reads as it did and nothing was put in unless such edits are ignored |
| Approval.LocalFixesPass | packages/shared-kernel/src/error-correction/engine.ts:299-504 | For an item with spans, none soft: edits that make every span right where it stands and touch nothing else build the key, fix every span, leave nothing stray, are judged exact, and pass exactly when the check is on and may approve |
| Approval.InPlacePasses | packages/shared-kernel/src/error-correction/engine.ts:299-504 | The particular edits that write each span's fix in place do all of the above |
| Approval.BuiltIsKey | packages/shared-kernel/src/error-correction/engine.ts:299-318 | Local corrections of every group make the built sentence read as the key, word for word |
| Judging.CollectPieces | packages/shared-kernel/src/error-correction/engine.ts:299-318 | The loop of `build` and of `spanState` collects exactly the specified pieces |
| Judging.JudgeSpan | packages/shared-kernel/src/error-correction/engine.ts:358-399 | The scan of one span returns the specified touched, hit, local fix and outcome |
| Judging.JudgeSpans | packages/shared-kernel/src/error-correction/engine.ts:444-445 | Judging all spans returns the specified states |
| Judging.BestOf | packages/shared-kernel/src/error-correction/engine.ts:435-439 | The loop over the accepted variants keeps the first one of highest similarity |
| Judging.JudgeItem | packages/shared-kernel/src/error-correction/engine.ts:410-489 | The whole judgement is the specified one |
| Verdicts.SpanStateIs | packages/shared-kernel/src/error-correction/engine.ts:358-399 | A span is missed when nothing was put in or marked in it, fixed when what stands there now is the key's wording or within tolerance of it word by word, and attempted otherwise |
| Verdicts.StrayIff | packages/shared-kernel/src/error-correction/engine.ts:447-468 | Nothing is stray exactly when, outside the mistakes, every word reads as it did and nothing was put in between |
| Verdicts.TypoOnlyIs | packages/shared-kernel/src/error-correction/engine.ts:441-442 | Only typing errors are left exactly when the sentence has as many words as the variant, each within tolerance of its own and some not the same |
| Verdicts.ClosestVariant | packages/shared-kernel/src/error-correction/engine.ts:435-439 | The variant compared with is the first of those most like the sentence, by twice the words kept over the words of both |
| Verdicts.VerdictIs | packages/shared-kernel/src/error-correction/engine.ts:410-489 | Each verdict exactly under its condition: idle, a variant's wording, every word within tolerance, every mistake fixed, some mistake fixed, the likeness the author asks for, stray edits and whether they block |
| Verdicts.NoKey | packages/shared-kernel/src/error-correction/engine.ts:410-430 | Without a key nothing is compared: no edit is called stray, no mistake fixed, and the answer goes to the teacher |
| Alignment.FillRow | packages/shared-kernel/src/error-correction/engine.ts:121-127 | One row of the table holds the longest-common-subsequence lengths, for any relation |
| Alignment.Align | packages/shared-kernel/src/error-correction/engine.ts:116-167 | The table and the backtrace return the specified walk and its length |
| Alignment.Backtrace | packages/shared-kernel/src/error-correction/engine.ts:130-160 | The backtrace over the filled table emits the specified walk |
| Alignment.Similarity | packages/shared-kernel/src/error-correction/engine.ts:162-166 | The similarity returned is the specified ratio |
| Alignment.WalkIsScript | packages/shared-kernel/src/error-correction/engine.ts:130-160 | The emitted operations spell both sides in order and pair only related words |
| Alignment.AlignIsOptimal | packages/shared-kernel/src/error-correction/engine.ts:116-167 | No edit script of the two sides pairs more words or needs fewer edits, whatever the relation; the number of pairs is the table's corner |
| Alignment.SideAFirst | packages/shared-kernel/src/error-correction/engine.ts:136-150 | While both sides have words left the walk keeps a related pair, and otherwise drops the word of the first side exactly when that loses no pair: of all the best scripts it is the one that turns to that side first |
| Alignment.LcsIsUpperBound | packages/shared-kernel/src/error-correction/engine.ts:120-128 | The table's corner bounds every order-preserving matching, also for relations that are not transitive |
| Alignment.LcsMonotone | packages/shared-kernel/src/dictation/classify.ts:74-82 | A coarser relation never keeps fewer pairs |
| Alignment.SimRange | packages/shared-kernel/src/error-correction/engine.ts:162-166 | The similarity lies in [0, 1] and is 1 exactly when there is something to compare and no edit is needed |
| AnswerKey.Expand | packages/shared-kernel/src/error-correction/engine.ts:35-50 | The recursive expansion with its accumulating loop returns the specified variants, and ends: every call has one opening parenthesis less |
| AnswerKey.ExpandRefTidy | packages/shared-kernel/src/error-correction/engine.ts:35-50 | The variants are non-empty, whitespace-collapsed and pairwise different, for every key |
| AlternationGrammar.ExpandRefDenotes | packages/shared-kernel/src/error-correction/engine.ts:35-50 | For a pattern whose every group carries a bar, nested or side by side, the variants are exactly the non-empty collapsed sentences the alternation grammar denotes |
| Typo.TypoEq | packages/shared-kernel/src/error-correction/engine.ts:80-102 | The two-cursor scan accepts exactly the pairs that are equal, or both at least four letters long and one substitution, insertion or deletion apart |
| Typo.OneEditIs | packages/shared-kernel/src/error-correction/engine.ts:80-102 | One substitution, insertion or deletion: the two words are the same in front and behind, with at most one letter each in between, not both without |
| Text.WordsAreFields | packages/shared-kernel/src/error-correction/engine.ts:71-74 | Collapsing, splitting at spaces and dropping empty parts gives the maximal runs of non-space characters |
| DictationDiff.BoundaryAt | packages/shared-kernel/src/dictation/diff.ts:254-267 | Finds the shortest boundary expression of two or three words at a point of the seam, joined before split |
| DictationDiff.PairSeam | packages/shared-kernel/src/dictation/diff.ts:181-229 | The three loops over a seam emit the specified substitutions, omissions and additions |
| DictationDiff.PairAll | packages/shared-kernel/src/dictation/diff.ts:162-230 | The loop over the raw alignment emits the specified operations |
| DictationDiff.CountOps | packages/shared-kernel/src/dictation/diff.ts:232-239 | The counting loop returns the specified counts |
| DictationDiff.ComputeDiff | packages/shared-kernel/src/dictation/diff.ts:143-248 | The whole diff, score included, is the specified one |
| DiffChart.DiffCharted | packages/shared-kernel/src/dictation/diff.ts:162-230 | What every operation stands for: kept words compare equal, and between kept words none do; there the words are paired in order, two or three for one where their letters run together alike, the fewest first and joined before split, until one side has none left, and the rest is left out or added; each pair has the class, the focus flag and the near flag that its two words give it |
| DiffChart.FoldEditIs | packages/shared-kernel/src/dictation/classify.ts:90-113 | One edit on a fold letter: the two words are the same in front and behind, with one letter replaced, put in or left out in between that the fold table lists |
| DiffChart.ClassOfIs | packages/shared-kernel/src/dictation/classify.ts:116-132 | The class of two unequal words, from how the marking reads them: punctuation when they read alike, case when they differ only in capitals, diacritic when they fold alike or one letter of the table was replaced, left out or put in, a slip when they are otherwise one edit apart and the expected one has four letters, and wrong for the rest |
| DiffChart.NearCredit | packages/shared-kernel/src/dictation/classify.ts:116-132 | A one-for-one substitution is near exactly when near errors count, the word is no focus word, and the two differ only in punctuation, only in capitals, or by one edit on a word of four letters or more that folds differently and touches no letter of the fold table |
| DiffAccounting.DiffLosesNothing | packages/shared-kernel/src/dictation/diff.ts:106-230 | Kept, substituted and omitted words tile the expected words in order, boundary substitutions included; kept, substituted and added words spell the typed words in order; the kept words are a longest common subsequence of the comparison keys |
| DiffAccounting.BoundariesAre | packages/shared-kernel/src/dictation/diff.ts:254-267 | The two sides of every operation called a boundary error glue to the same lower-cased letters |
| DiffAccounting.CountsAddUp | packages/shared-kernel/src/dictation/diff.ts:232-247 | Every expected word is exact, inside a substitution or missing; near and wrong count the substitutions, missing the omissions, extra the additions, and the five together the operations; exact is the longest common subsequence of the keys |
| DiffAccounting.ScoreRange | packages/shared-kernel/src/dictation/diff.ts:241-247 | The doubled numerator never exceeds twice the total, the score lies in [0, 1], and it is full exactly when every word is exact and nothing extra costs |
| DiffAccounting.ScoreIs | packages/shared-kernel/src/dictation/diff.ts:241-247 | The score is the exact words, half the near ones where near earns half, less the price of every word too many, over the words expected and never below zero; the price is the author's, rounded to a whole number and never negative |
| DiffAccounting.PassesIsScore | packages/shared-kernel/src/dictation/diff.ts:270-272 | The pass, decided in whole numbers, is the score against the threshold |
| DiffAccounting.LooserFindsMoreIff | packages/shared-kernel/src/dictation/classify.ts:74-82 | One marking never finds fewer words exact than another, on any two sentences, exactly when every two words equal under the other are equal under it |
| DiffAccounting.LooserFindsMore | packages/shared-kernel/src/dictation/classify.ts:74-82 | No longer checking punctuation never lowers the number of exact words, whatever the pack accepts; nor does no longer checking capitals, for a pack that accepts no spellings, as every preset does |
| DiffAccounting.AcceptedSpellingsCanLose | packages/shared-kernel/src/dictation/classify.ts:64-82 | With an accepted spelling it can: a concrete pair of words is exact while capitals count and not when they do not |
| AcceptedSpellings.OneSpellingIff | packages/shared-kernel/src/dictation/classify.ts:64-82 | For a pack that accepts one spelling of one letter, no longer checking capitals never lowers the number of exact words, on any two sentences, exactly when no proper start of the spelling is also an end of it |
| AcceptedSpellings.TidyNeverLoses | packages/shared-kernel/src/dictation/classify.ts:64-82 | For a pack of any number of lower-case spellings none of which overlaps itself or another, or shares a character with a letter, looser marking never lowers the number of exact words |
| AcceptedSpellings.OverlapLoses | packages/shared-kernel/src/dictation/classify.ts:64-82 | A spelling that overlaps itself makes some two words equal with capitals checked and different without, whatever the spelling and its letter |
| DiffAccounting.TextDiffAccounts | packages/shared-kernel/src/dictation/diff.ts:143-248 | Nothing lost, nothing invented, the counts, the range of the score and full marks, for any two texts, tokenized as the code does |
| Classify.AcceptSpellings | packages/shared-kernel/src/dictation/classify.ts:64-72 | The nested loops rewrite every accepted spelling, in table order |
| Classify.Fold | packages/shared-kernel/src/dictation/classify.ts:84-88 | The folding loop returns the specified word |
| Classify.ScanFoldEdit | packages/shared-kernel/src/dictation/classify.ts:94-113 | The scan accepts exactly the pairs that differ by one edit touching a letter of the fold table |
| Classify.KeyIs | packages/shared-kernel/src/dictation/classify.ts:74-82 | Two words compare equal exactly when their case rule and accepted spellings read alike and, where it is checked, so does their punctuation |
| Classify.KeyRefines | packages/shared-kernel/src/dictation/classify.ts:74-82 | Equal keys stay equal when punctuation is no longer checked, whatever the pack accepts, and when capitals are not, for a pack that accepts no spellings |
| FocusMisses.CollectMissed | packages/shared-kernel/src/dictation/grading.ts:76-82 | The loop over the operations collects the specified missed word indices |
| FocusMisses.FocusVerdict | packages/shared-kernel/src/dictation/grading.ts:76-87 | A focus word is named after a check exactly when the corrected line does not keep it, inside boundary errors as well |
| Coordinates.ToTokenRun | packages/shared-kernel/src/highlight-in-text/coordinates.ts:36-48 | The scan over the tokens returns the specified run |
| Coordinates.ToRunTouches | packages/shared-kernel/src/highlight-in-text/coordinates.ts:36-48 | The run of a range is exactly the tokens it touches, and there is none exactly when it touches none |
| Coordinates.RunRoundTrip | packages/shared-kernel/src/highlight-in-text/coordinates.ts:36-56 | The characters of a run touch exactly that run |
| Coordinates.OnTokensRoundTrip | packages/shared-kernel/src/highlight-in-text/coordinates.ts:51-62 | A range on token edges is the characters of its run |
| Coordinates.ParagraphOfTokens | packages/shared-kernel/src/highlight-in-text/coordinates.ts:70-79 | The two nested loops number each token with its paragraph |
| Coordinates.ParagraphsAre | packages/shared-kernel/src/highlight-in-text/coordinates.ts:70-79 | The number given to a token is that of the paragraph it starts in, or of the last one when it starts behind them all |
| Coordinates.ClampToParagraph | packages/shared-kernel/src/highlight-in-text/coordinates.ts:87-98 | The two loops return the specified clamped run |
| Coordinates.ClampIs | packages/shared-kernel/src/highlight-in-text/coordinates.ts:87-98 | The clamped run lies in one paragraph and is exactly the part of the drag in the origin's paragraph |
| Coordinates.MergeAll | packages/shared-kernel/src/highlight-in-text/coordinates.ts:104-113 | The loop that widens the last run in place returns the specified merged runs |
| Coordinates.MergeRunsIs | packages/shared-kernel/src/highlight-in-text/coordinates.ts:104-113 | Merged runs are sorted and disjoint and cover the same tokens; two neighbouring tokens are in one run exactly when some mark held both, so touching marks stay apart |
| Coordinates.Snap | packages/shared-kernel/src/highlight-in-text/coordinates.ts:128-138 | The loop over the marks returns the specified runs or the index of the first mark over no token |
| Snapping.SnapMarksIs | packages/shared-kernel/src/highlight-in-text/coordinates.ts:128-138 | Snapped runs are sorted, share no token, lie each in one paragraph and cover exactly the union of the clamped marks; a refusal names the first mark over no token |
| Snapping.SnapTwice | packages/shared-kernel/src/highlight-in-text/coordinates.ts:128-138 | Snapping the character ranges of snapped runs gives the same runs |
| Snapping.SnapText | packages/shared-kernel/src/highlight-in-text/coordinates.ts:128-138 | Both hold for the tokens and paragraphs of any text |
| MarkGrading.RunPass | packages/shared-kernel/src/highlight-in-text/grading.ts:86-112 | One pass over the key, exact or near, assigns the specified marks and draws the specified cells |
| MarkGrading.GradeMarks | packages/shared-kernel/src/highlight-in-text/grading.ts:76-121 | The two passes, the leftover marks, the counts and the score are the specified grade |
| MarkMatching.GradeAddsUp | packages/shared-kernel/src/highlight-in-text/grading.ts:76-121 | Exact, near and missed add up to the key; exact, near and false positives to the marks; the score lies in [0, 1] and is full exactly when every span was hit exactly and no mark cost anything |
| MarkMatching.ScoreIsNet | packages/shared-kernel/src/highlight-in-text/grading.ts:112-116 | The score is the exact marks less nothing, half or one for each false positive, over the key, and never below zero |
| MarkMatching.FalsePositiveCosts | packages/shared-kernel/src/highlight-in-text/grading.ts:112-116 | While the score stays positive one false positive more costs exactly nothing, half a mark or one mark |
| MarkMatching.PassAt | packages/shared-kernel/src/highlight-in-text/grading.ts:86-104 | In either pass every span takes the first mark that fits it and that no span before it took, whatever the runs |
| MarkMatching.CellsAre | packages/shared-kernel/src/highlight-in-text/grading.ts:86-117 | The cells are in text order: each mark found exactly where it stands, each found nearly with where the answer is, and each mark left over as a false positive |
| MarkMatching.CellsCount | packages/shared-kernel/src/highlight-in-text/grading.ts:86-117 | Every mark is drawn once |
| MarkMatching.OrdersAgree | packages/shared-kernel/src/highlight-in-text/grading.ts:13-16 | On disjoint key spans and marks, the two-pass order gives every key span the same mark as a span-by-span single pass, and a span is exact exactly when some mark equals it |
| MarkMatching.GradeIsMaximum | packages/shared-kernel/src/highlight-in-text/grading.ts:76-121 | On disjoint key spans and marks, exact and near together are the size of a largest one-to-one pairing of key spans with overlapping marks |
| MarkEdits.ToggleGood | packages/shared-kernel/src/highlight-in-text/edits.ts:89-106 | Toggling takes out exactly the span clicked on, or puts one span over exactly the run in place of those it meets, and keeps the spans sorted, disjoint, on token edges and in one paragraph each |
| MarkEdits.ToggleTwice | packages/shared-kernel/src/highlight-in-text/edits.ts:89-106 | Marking a free word and clicking it again gives back the very list of spans |
| MarkEdits.ReachIs | packages/shared-kernel/src/highlight-in-text/edits.ts:79-95 | A press reaches its own token where marks are single words or it ends off the text, and otherwise exactly the tokens between its two ends in the paragraph where it began |
| MarkEdits.ResizedIs | packages/shared-kernel/src/highlight-in-text/edits.ts:114-140 | A resized mark keeps its id and start, moves its far end by one token inside its paragraph, and meets no other mark |
| MarkEdits.ResizeGood | packages/shared-kernel/src/highlight-in-text/edits.ts:114-140 | Resizing keeps the spans sorted, disjoint, on token edges and in one paragraph each |
| MarkEdits.EditsKeepMarks | packages/shared-kernel/src/highlight-in-text/edits.ts:68-148 | Over a fixed passage every sequence of toggling, resizing, removing, clearing and unit changes keeps every question's spans sorted, disjoint, on token edges and in one paragraph each |
| MarkEdits.EditsKeepMarksOfText | packages/shared-kernel/src/highlight-in-text/edits.ts:68-148 | So it is over the tokens and paragraphs of any text |
| HighlightReanchor.EditRegion | packages/shared-kernel/src/highlight-in-text/reanchor.ts:109-121 | The two counting loops return the specified changed stretch |
| MarkSurvival.RegionIsSmallest | packages/shared-kernel/src/highlight-in-text/reanchor.ts:109-121 | Neither end of the changed stretch can be moved inwards |
| MarkSurvival.RegionIs | packages/shared-kernel/src/highlight-in-text/reanchor.ts:109-121 | Where one part of a text was replaced by another that begins and ends differently, the stretch found is exactly that part |
| MarkSurvival.InsertionMoves | packages/shared-kernel/src/highlight-in-text/reanchor.ts:124-150 | Text put in moves a mark behind it by exactly its length and leaves one in front where it is, exactly when the mark is on token edges there |
| HighlightReanchor.RunsOfWords | packages/shared-kernel/src/highlight-in-text/derive.ts:34-48 | The nested loops list the specified runs |
| HighlightReanchor.RunsOfIs | packages/shared-kernel/src/highlight-in-text/derive.ts:34-48 | The listed runs are exactly the places where the words stand |
| HighlightReanchor.ReanchorContent | packages/shared-kernel/src/highlight-in-text/reanchor.ts:34-55 | Re-anchoring a document returns the specified one |
| HighlightReanchor.Rewrite | packages/shared-kernel/src/highlight-in-text/reanchor.ts:38-54 | The loops that push to spans and orphans return the specified document |
| MarkSurvival.PlacedSame | packages/shared-kernel/src/highlight-in-text/reanchor.ts:124-169 | A mark that finds a place keeps its id and reason and stands on token edges over the same lower-cased words; it finds none exactly when it covered no word or its words stand nowhere in the new text |
| MarkSurvival.ShiftKeepsCharacters | packages/shared-kernel/src/highlight-in-text/reanchor.ts:109-137 | Outside the edited stretch the characters under a mark move with it unchanged |
| MarkSurvival.EdgesDecide | packages/shared-kernel/src/highlight-in-text/reanchor.ts:124-150 | A mark on token edges outside the edited stretch follows the text around it exactly when the place it moves to is on token edges |
| MarkSurvival.LandsOnOccurrence | packages/shared-kernel/src/highlight-in-text/reanchor.ts:152-169 | The second pass puts a mark on the same occurrence of its words as before, counted from the start, or on the last one there is |
| MarkSurvival.SurvivorsKeepWords | packages/shared-kernel/src/highlight-in-text/reanchor.ts:34-55 | A question's spans after the edit are exactly its old spans that found a place, each on its own words |
| MarkSurvival.ReanchorConserves | packages/shared-kernel/src/highlight-in-text/reanchor.ts:34-55 | The edit keeps every mark, with its question and its reason, as a span or an orphan, as often as before |
| MarkSurvival.PreviewIs | packages/shared-kernel/src/highlight-in-text/reanchor.ts:57-61 | The preview announces no loss exactly when the words of every mark remain in the new text |
| MarkSurvival.SameTextIsIdentity | packages/shared-kernel/src/highlight-in-text/reanchor.ts:34-55 | Re-anchoring to the same text changes nothing, for sorted spans on token edges |
| MarkSurvival.PutBackConserves | packages/shared-kernel/src/highlight-in-text/reanchor.ts:72-94 | With unique ids, putting an orphan back keeps every mark |
| MarkSurvival.OrphanReturns | packages/shared-kernel/src/highlight-in-text/reanchor.ts:64-94 | An orphan an edit made can be put back in any later text exactly when the words its mark covered stand there, and lands on the first place where they do |
| MarkSurvival.OrphanShows | packages/shared-kernel/src/highlight-in-text/reanchor.ts:171-176 | An orphan carries its mark's id, question and reason, and shows the characters from the first word the mark covered to the last, or its trimmed characters if it covered none |
| MarkSurvival.NoMarkIsLost | packages/shared-kernel/src/highlight-in-text/reanchor.ts:34-94 | Over every sequence of text edits and put-backs the document holds exactly the marks it began with |
| Surfaces.SurfaceWords | packages/shared-kernel/src/highlight-in-text/reanchor.ts:171-181 | Reading the characters a run covers finds exactly the words of the run |
| Tokens.TokenizeOrdered | packages/shared-kernel/src/text/words.ts:37-43 | Tokens are in text order, numbered by position, apart from one another, and spell their characters |
| Tokens.WordsOfJoin | packages/shared-kernel/src/text/words.ts:37-43 | Two texts with a space between them have the words of one and then of the other |
| Tokens.WordsOfTrim | packages/shared-kernel/src/text/words.ts:37-43 | Trimming a text changes none of its words |
| FocusReanchor.FindChange | packages/shared-kernel/src/dictation/reanchor.ts:30-42 | The two counting loops return the specified common prefix and suffix |
| FocusSurvival.ChangeIs | packages/shared-kernel/src/dictation/reanchor.ts:30-42 | Where some words of a sentence were replaced by others that begin and end differently, the words in front and behind are found again exactly |
| FocusReanchor.FindByOrdinal | packages/shared-kernel/src/dictation/reanchor.ts:72-87 | The loop returns the specified place |
| FocusReanchor.PlaceAll | packages/shared-kernel/src/dictation/reanchor.ts:44-65 | The loop with its set of taken places places and orphans the specified words |
| FocusReanchor.ReanchorSentence | packages/shared-kernel/src/dictation/reanchor.ts:26-69 | The whole re-anchoring of a sentence is the specified one |
| FocusReanchor.JoinFocus | packages/shared-kernel/src/dictation/edits.ts:186-191 | The accumulating loop returns the specified focus words |
| FocusSurvival.FindNthIs | packages/shared-kernel/src/dictation/reanchor.ts:79-86 | The search finds the occurrence with the given number if there is one |
| FocusSurvival.TargetWord | packages/shared-kernel/src/dictation/reanchor.ts:60-65 | A focus word keeps its lower-cased letters wherever it goes |
| FocusSurvival.SentenceFates | packages/shared-kernel/src/dictation/reanchor.ts:26-69 | In whatever order they are listed, each focus word in front of the edit stays, inside goes to the same occurrence, behind moves along; it becomes an orphan exactly when that occurrence is gone or a word listed before it goes to its place |
| FocusSurvival.KeepsInOrder | packages/shared-kernel/src/dictation/reanchor.ts:44-65 | Listed in sentence order, a focus word with a place to go to loses it exactly when it stands behind the edit and a word from inside lands there |
| FocusSurvival.ReanchorSameWord | packages/shared-kernel/src/dictation/reanchor.ts:26-69 | Every placed focus word is one of the old ones, with its id and its reason, on the same lower-cased word, in whatever order they are listed |
| FocusSurvival.BehindCanBeDisplaced | packages/shared-kernel/src/dictation/reanchor.ts:44-65 | A concrete edit orphans a word behind it, because one from inside takes its place, against the comment that words outside the edit keep theirs |
| FocusSurvival.ReanchorStrict | packages/shared-kernel/src/dictation/reanchor.ts:26-69 | Placed focus words are in range, sorted and on different words, for indices in range in whatever order |
| FocusSurvival.FocusOrphanReturns | packages/shared-kernel/src/dictation/reanchor.ts:98-104 | An orphan an edit made can be put back in a sentence exactly when its word stands there on a place that is no focus word, and goes to the first such place |
| FocusSurvival.JoinKeepsWords | packages/shared-kernel/src/dictation/edits.ts:159-207 | Switching to one continuous text puts every focus word on the same word of the joined token list |
| FocusSurvival.BlankIs | packages/shared-kernel/src/dictation/edits.ts:159-207 | A sentence is left out of the joined text exactly when it has nothing but spaces |
| FocusSurvival.EditsKeepFocus | packages/shared-kernel/src/dictation/edits.ts:37-207 | Every sequence of rewriting, putting back, toggling and switching mode keeps each sentence's focus words in range, sorted and on different words |
| FocusConservation.SentenceConserves | packages/shared-kernel/src/dictation/reanchor.ts:26-69 | Every focus word of a rewritten sentence is placed or orphaned, once |
| FocusConservation.NoFocusIsLost | packages/shared-kernel/src/dictation/edits.ts:37-207 | Over every sequence of rewriting, putting back and switching mode, no focus word is lost or doubled, in whatever order the sentences list them |
| AttemptRuns.StateIsHistory | packages/shared-kernel/src/dictation/grading.ts:239-361 | Over every run the carried state of an element is its history: the checks accepted, the first one's score and verdict, whether the last passed, whether the key was shown; closed holds exactly when it passed, was revealed or ran out of checks; checks never exceed the budget |
| AttemptRuns.AcceptedIff | packages/shared-kernel/src/highlight-in-text/grading.ts:219-297 | A check or a reveal is accepted exactly under conditions on the history: ready, not passed, not shown, budget left, late enough, gradable; or ready, checked, not passed, not shown, key allowed |
| AttemptRuns.RefusedBecause | packages/shared-kernel/src/dictation/grading.ts:239-299 | A refusal names its reason, each code exactly under its condition and in the code's order: unknown element, closed element, key not allowed; then a check too soon, and only then an ungradable answer |
| AttemptRuns.AnswerReports | packages/shared-kernel/src/highlight-in-text/grading.ts:236-298 | An accepted submit reports the check number, checks left, closed, revealed and passed of the history it leaves behind |
| AttemptRuns.AttemptReports | packages/shared-kernel/src/highlight-in-text/grading.ts:299-316 | An accepted submit reports whether every element is finished now and whether it finished the last of them, the mean of the first scores, and whether that reaches the threshold |
| AttemptRuns.FinishedIs | packages/shared-kernel/src/dictation/grading.ts:260-343 | An element is closed exactly when some check passed, its key was shown or its checks are used up |
| AttemptRuns.ChecksLeftIs | packages/shared-kernel/src/dictation/grading.ts:236-238 | A graded attempt has one check, another as many as the author gave, or any number |
| AttemptRuns.ClosedHasRecord | packages/shared-kernel/src/dictation/grading.ts:260-343 | A closed element has a first check on record |
| AttemptRuns.ClosedStaysClosed | packages/shared-kernel/src/dictation/grading.ts:239-361 | A closed element never reopens and accepts no check; a recorded first check never changes |
| AttemptRuns.CompletedOnce | packages/shared-kernel/src/highlight-in-text/grading.ts:299-316 | The attempt is complete exactly when one submit announced it, and no second submit does |
| AttemptRuns.ScoreFrozen | packages/shared-kernel/src/highlight-in-text/grading.ts:299-316 | Once complete, the attempt's score never changes |
| AttemptRuns.ChecksApart | packages/shared-kernel/src/dictation/grading.ts:292-299 | With the server's times supplied, any two accepted checks of one element lie at least the interval apart, for each check between them |
| AttemptRuns.AttemptVerdict | packages/shared-kernel/src/dictation/grading.ts:349-363 | The attempt's score is a share, and passing every element at once passes the attempt |
| AttemptGrading.DictationAttempt | packages/shared-kernel/src/dictation/grading.ts:239-364 | The same for the dictation's own diff, whatever is typed |
| AttemptGrading.PassedIsScore | packages/shared-kernel/src/highlight-in-text/grading.ts:267-268 | The highlight pass, decided in whole numbers, is the score against the threshold |
| AttemptGrading.HighlightAttempt | packages/shared-kernel/src/highlight-in-text/grading.ts:219-316 | The same for the highlight grader, whatever is marked; marks over no token are refused |
| InflectionTable.CollectAsked | packages/shared-kernel/src/inflection-table/derive.ts:26-36 | The nested loops list the specified asked cells |
| InflectionTable.DealDistractors | packages/shared-kernel/src/inflection-table/bank.ts:56-70 | The rounds over the queues, stopped as soon as there are enough, give the first fresh candidates in dealing order |
| InflectionTable.CollectDistractors | packages/shared-kernel/src/inflection-table/bank.ts:29-71 | The whole generator returns the specified distractors |
| InflectionTable.CollectBank | packages/shared-kernel/src/inflection-table/bank.ts:83-93 | The loop over keys and distractors returns the specified bank |
| Bank.CellOkIs | packages/shared-kernel/src/inflection-table/compare.ts:29-37 | A cell accepts exactly the non-blank forms that compare equal to its key or a variant |
| Bank.DistractorsAreWrong | packages/shared-kernel/src/inflection-table/bank.ts:29-71 | Distractors number at most what is wanted, compare pairwise different and to no form in the table, and none is right in any graded cell |
| Bank.ShortBankIsExhausted | packages/shared-kernel/src/inflection-table/bank.ts:73-77 | When there are fewer distractors than wanted, every ending of every graded cell is blank, taken, implausible or offered |
| Bank.DealtIs | packages/shared-kernel/src/inflection-table/bank.ts:56-70 | Dealing in turns deals every candidate of every queue and nothing else |
| TakenForms.DealtAt | packages/shared-kernel/src/inflection-table/bank.ts:56-70 | The place of every candidate in the dealing: behind all of earlier rounds and those of earlier queues in its own |
| TakenForms.FreshInOrder | packages/shared-kernel/src/inflection-table/bank.ts:56-70 | What comes through are candidates in their order, each the first of its kind that is usable |
| TakenForms.TakenIs | packages/shared-kernel/src/inflection-table/bank.ts:35-50 | Taken is exactly every form of every cell, asked or given, and what the swaps of its slot make of it |
| TakenForms.ImplausibleIs | packages/shared-kernel/src/inflection-table/bank.ts:64-64 | A form is implausible exactly when a listed spelling stands somewhere in it |
| TakenForms.DistractorsAreFirst | packages/shared-kernel/src/inflection-table/bank.ts:29-71 | The distractors are the first that come through, as many as are wanted, and none without a paradigm or for a number that is not positive |
| Bank.BankParts | packages/shared-kernel/src/inflection-table/bank.ts:83-93 | The bank is the keys, each once, followed by exactly the distractors |
| Bank.BankIs | packages/shared-kernel/src/inflection-table/bank.ts:83-99 | The bank's forms compare pairwise different and contain every key and every distractor and nothing else |
| TableGrading.TallyRows | packages/shared-kernel/src/inflection-table/grading.ts:153-163 | The tallying loop returns the specified rows |
| TableScores.FirstCheck | packages/shared-kernel/src/inflection-table/grading.ts:107-139 | The first check for any forms in either mode: the cells that got one of their own forms are correct; when typing a wrong form costs no more than an empty cell; with the bank it takes back a correct one; the percentage is what is left over the graded cells, rounded, and the pass is decided before rounding |
| TableScores.CellNow | packages/shared-kernel/src/inflection-table/grading.ts:107-131 | On any check a cell is right exactly when what was sent for it is right or it was found right before |
| TableScores.CellShows | packages/shared-kernel/src/inflection-table/grading.ts:113-121 | A cell shows what was sent if the bank offers it, and its key when it was found right before and that would be wrong now |
| TableScores.MissingCell | packages/shared-kernel/src/inflection-table/derive.ts:20-36 | A cell its row does not have yet is asked, and has no key |
| TableScores.GradedAre | packages/shared-kernel/src/inflection-table/derive.ts:26-52 | The graded cells are exactly the asked ones with a key, in rows with a headword |
| TableScores.FormIs | packages/shared-kernel/src/inflection-table/compare.ts:23-26 | Forms are compared by their words, lower-cased |
| TableRuns.RowsAddUp | packages/shared-kernel/src/inflection-table/grading.ts:153-163 | Rows have different ids and their tallies add up to the table's |
| TableRuns.CellKeyRoundTrip | packages/shared-kernel/src/inflection-table/model.ts:138-147 | Parsing a cell's address gives its row and slot back |
| TableRuns.ParseIs | packages/shared-kernel/src/inflection-table/model.ts:142-147 | A text parses as an address exactly when it is a row id without a colon, a colon and a slot id, neither id empty |
| TableRuns.KeysAreUnique | packages/shared-kernel/src/inflection-table/derive.ts:26-52 | With distinct row ids without a colon and distinct slot ids, graded cells have different addresses |
| TableRuns.ScoreIsFirstCheck | packages/shared-kernel/src/inflection-table/grading.ts:107-185 | Over every run of checks, percent, pass, correct cells and false positives stay those of the first check |
| TableRuns.LockedIsRight | packages/shared-kernel/src/inflection-table/grading.ts:117-120 | A locked cell is right whatever is sent for it |
| TableRuns.LockedIs | packages/shared-kernel/src/inflection-table/grading.ts:182-182 | The locked cells are those some check so far found right |
| TableRuns.RightStays | packages/shared-kernel/src/inflection-table/grading.ts:107-131 | A cell found right once is right on every later check |
| TableRuns.ClosedIs | packages/shared-kernel/src/inflection-table/grading.ts:136-139 | A table is closed exactly when every graded cell is right or the budget is spent |
| TableRuns.ProgressStays | packages/shared-kernel/src/inflection-table/grading.ts:107-185 | Right cells and locked cells never become fewer, and a closed table stays closed |
| TableRuns.BankScore | packages/shared-kernel/src/inflection-table/grading.ts:125-134 | Answering every cell from the bank, each form that does not belong to its cell, a distractor or another cell's key, is a false positive and costs a right cell besides |
| TableRuns.DistractorsAreMisplaced | packages/shared-kernel/src/inflection-table/grading.ts:125-134 | A distractor belongs to no cell, wherever it is placed |
| TableRuns.KeysScoreFull | packages/shared-kernel/src/inflection-table/grading.ts:125-134 | Answering every cell with its key from the bank scores 100 and passes any threshold up to 100 |
| Allowance.PlaysWithinLimit | packages/shared-kernel/src/audio/allowance.ts:130-218 | In every event sequence a positive limit bounds the listens spent |
| Allowance.CompletedWithinPlays | packages/shared-kernel/src/audio/allowance.ts:130-218 | With an adapter that reports positions and ends only while playing, completed listens never exceed the listens spent plus the free moves, hence never the limit where there are none |
| Allowance.NoFreeMoves | packages/shared-kernel/src/audio/allowance.ts:192-208 | With seeking off and no fragment played there are no free moves |
| Allowance.ListensSpentIff | packages/shared-kernel/src/audio/allowance.ts:130-218 | Over every honest event sequence completed listens stay within the listens spent, and within a positive limit, exactly when no listen comes free: seeking off and no fragments, or, for a clip at most a tenth of a second long, not both of them |
| Allowance.ManyForFree | packages/shared-kernel/src/audio/allowance.ts:192-208 | Otherwise any number of listens completes without one spent, by seeking back or by letting a fragment run on |
| Allowance.ButtonIsHonest | packages/shared-kernel/src/audio/allowance.ts:220-234 | The play button is lit exactly when a press does something: a pause while the clip plays, a play otherwise |
| Allowance.SeekIs | packages/shared-kernel/src/audio/allowance.ts:130-218 | Where the element is moved: to the top by a press that starts a listen and by a reset, to the nearest point of the clip by a seek that is allowed, to the start of a fragment that is played; nothing else moves it |
| Allowance.ElementFollows | packages/shared-kernel/src/audio/allowance.ts:130-218 | In every run an element that does what it is told runs exactly when the state says so and stands where the state says, except that a fragment is stopped by the first report behind its end |
| Allowance.PlayWhilePlaying | packages/shared-kernel/src/audio/allowance.ts:220-234 | A play event starts the clip exactly when the button is lit, save while it plays at its top with no listen left; one play at a limit of one is there already |
| Allowance.ResumeIsFree | packages/shared-kernel/src/audio/allowance.ts:140-168 | Pausing in the middle and resuming changes nothing, even with no listen left |
| Allowance.PositionInClip | packages/shared-kernel/src/audio/allowance.ts:118-216 | The position and the fragment played stay inside the clip |
| Allowance.GateOpens | packages/shared-kernel/src/audio/allowance.ts:90-109 | The gate opens exactly when one playthrough that was no fragment reached the end since the last reset |
| Timecode.TenthsRoundTrip | packages/shared-kernel/src/audio/model.ts:287-304 | A printed timecode is read back to the tenth |
| Timecode.TimecodeRoundTrip | packages/shared-kernel/src/audio/model.ts:287-309 | Reading a printed time gives the time rounded to a tenth |
| Timecode.DurationRoundTrip | packages/shared-kernel/src/audio/model.ts:261-277 | Reading a printed duration gives its whole seconds |
| Timecode.DurationIsTimecode | packages/shared-kernel/src/audio/model.ts:261-295 | Every text that reads as a duration reads as the same timecode |
| Timecode.ParseSecondsIs | packages/shared-kernel/src/audio/model.ts:261-270 | Seconds are read from exactly the texts that are all digits, and from digits, a colon and one digit or two below sixty |
| Timecode.TenthsIs | packages/shared-kernel/src/audio/model.ts:297-309 | A time is kept as the nearest tenth, a half rounded up, and a negative one as none |
| OutboxProtocol.NoRowIsLost | packages/messaging/src/outbox-relay.service.ts:67-117 | However flushes overlap and whichever calls fail, with or without effect, a row is pending, or its event was confirmed by the broker, or its attempts reached the maximum |
| OutboxProtocol.RowLeavesOnce | packages/messaging/src/outbox-relay.service.ts:84-115 | A row leaves the pending set only at a mark after confirmation or at an abandonment after enough attempts, and never comes back |
| OutboxProtocol.AttemptsAreFailures | packages/messaging/src/outbox-relay.service.ts:84-115 | In every run the attempts of a pending row are the failures counted for it |
| OutboxProtocol.NextSafe | packages/messaging/src/outbox-relay.service.ts:67-117 | Every step of any flush keeps the invariant behind this |
| OutboxProtocol.SendsOnceIff | packages/messaging/src/outbox-relay.service.ts:67-117 | In every run every event is sent at most once, exactly when flushes do not overlap, a publish reaches the broker only if it returns, every mark takes effect, no two rows share an event and no fetch lists a row twice, or nothing may be tried at all |
| OutboxProtocol.NextCareful | packages/messaging/src/outbox-relay.service.ts:67-117 | Every step so permitted keeps the invariant behind this |
| OutboxProtocol.OverlapTwice | packages/messaging/src/outbox-relay.service.ts:69-71 | Overlapping flushes can send one event twice, for every positive maximum of attempts |
| OutboxProtocol.GhostPublishTwice | packages/messaging/src/outbox-relay.service.ts:94-115 | So can a publish that reaches the broker without returning |
| OutboxProtocol.LostMarkTwice | packages/messaging/src/outbox-relay.service.ts:106-112 | So can a mark that takes no effect |
| OutboxRelay.Relay.Flush | packages/messaging/src/outbox-relay.service.ts:74-117 | Whatever fails, every row stays accounted for and every row of the batch that is not given up is sent once, in order, unless the fetch fails; when the store answers, those sent in vain stay with one attempt more and the rest of the batch leaves; when the broker does too, exactly the events of those not given up are confirmed |
| OutboxRelay.Store.InsertPending | packages/messaging/src/outbox.types.ts:14-15 | A new row goes behind the ones already pending, with no attempt counted |
| OutboxRelay.Store.FetchPending | packages/messaging/src/outbox.types.ts:16-17 | A fetch returns the oldest pending rows, up to the limit |

## Left out

- inferType: a label that never affects alignment, judging or routing.
- Word-order comparison: the code compares sorted, joined lists of bare words; the model compares the multisets of bare words.
- Spans.DeriveSpans: a span's type, note and index are left out, and the author's overrides of type and note with them.
- Judging.JudgeItem: the stray edits are a set; the order the code lists them in is not kept.
- OutboxRelay.Store.FetchPending: oldest first is the order of insertion; rows carry no time.
- AcceptedSpellings.OneSpellingIff: for a pack with several spellings that do overlap, TidyNeverLoses gives a sufficient condition and DiffAccounting.LooserFindsMoreIff the exact one, on words; no preset accepts a spelling. Lower-casing is taken to work character by character there.
- MarkSurvival.NoMarkIsLost: dropping an orphan is not among the edits, because it removes a mark on purpose; re-anchored spans may overlap, and no claim of disjointness is made.
- MarkEdits.EditsKeepMarks: new ids are random in the code; a new id is taken to be unused in its document.
- AttemptRuns.AcceptedIff: the texts, operations, hints and keys an answer carries back are not part of the state.
- AttemptGrading.HighlightAttempt: the key's runs come with each submit instead of being read off the question's spans.
- TableRuns.ScoreIsFirstCheck: needs cells with addresses of their own, which KeysAreUnique gives for ordinary ids; near misses, reasons and correct forms in a cell's outcome are left out.
- Bank.DistractorsAreWrong: how an ending is spelt out for a row (stem, elision) is a parameter, so it holds for any spelling.
- OutboxRelay.Relay.Flush: one flush alone; overlapping flushes are OutboxProtocol's.
- OutboxProtocol.NoRowIsLost: message contents, logging, connection handling and timers are left out; store and broker are abstract state with steps that may fail.
- levenshtein and the one-letter typo class of a dictation word are modelled by what they mean, one edit apart, not by their tables.
- Unicode: which characters are letters and how words are lower-cased are parameters with a few laws; text is taken to be in NFC already; a string is a sequence of characters, with no surrogate pairs.
- Paragraph splitting: the paragraph ends are a parameter; the numbering of tokens by them is modelled.
- Scores, similarities, positions and durations are real numbers; floating-point rounding is not modelled, and rounded percentages are only modelled for the table.
- focus word reasons, audio fragments and the builder's plain field updates are carried along or left out.
- issues, projection, presets, packs, persistence readers, analytics and all module wiring: independent branches or data, settled by reading one line.
