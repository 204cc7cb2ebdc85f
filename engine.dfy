/** `ai_engine.py`: templated quiz items, grading of a submission, the study
    notes and flashcard fallbacks, and the parser for generated flashcards.
    Random draws and the text-generation model's output are parameters. */
module Engine {
  import opened Wrappers
  import opened Seqs
  import opened Text

  /** One draw of `random.choice` over a four-element list: the index drawn. */
  type Choice = k: nat | k < 4

  datatype QuizItem =
    | Mcq(question: string, options: seq<string>, answer: string, explanation: string, topicTag: string)
    | Short(question: string, idealAnswer: string, keywords: seq<string>, topicTag: string)

  /** The invariant every generated item keeps: an MCQ has four options and
      its answer is one of them. */
  predicate WellFormed(item: QuizItem) {
    item.Mcq? ==> |item.options| == 4 && item.answer in item.options
  }

  const Letters: string := "ABCD"
  const ExplanationLead: string := "The correct answer is "

  function McqStem(topic: string, subject: string, difficulty: string): string {
    subject + ": On '" + topic + "', which option is correct? (Level: " + difficulty + ")"
  }

  function McqOptions(topic: string, subject: string): seq<string> {
    [ "Option A related to " + topic,
      "Option B about " + subject,
      "Option C factual detail",
      "Option D common misconception" ]
  }

  /** The option strings start "Option A", ..., "Option D", and so differ at
      position 7 even after stripping. */
  lemma OptionLetters(topic: string, subject: string)
    ensures forall j :: 0 <= j < 4 ==>
      |Strip(McqOptions(topic, subject)[j])| > 7 && Strip(McqOptions(topic, subject)[j])[7] == Letters[j]
  {
    var opts := McqOptions(topic, subject);
    forall j | 0 <= j < 4
      ensures |Strip(opts[j])| > 7 && Strip(opts[j])[7] == Letters[j]
    {
      var o := opts[j];
      assert o[0] == 'O' && o[7] == Letters[j];
      assert TrimStart(o) == o;
      TrailingSpaceSpec(o);
      assert !IsSpace(o[7]);
      var r := TrimEnd(o);
      assert r[7] == o[7];
    }
  }

  lemma LettersDistinct(j: nat, k: nat)
    requires j < 4 && k < 4 && Letters[j] == Letters[k]
    ensures j == k
  {
  }

  /** No two options are the same after stripping. */
  lemma OptionsDistinct(topic: string, subject: string)
    ensures forall j, k :: 0 <= j < 4 && 0 <= k < 4 ==>
      (Strip(McqOptions(topic, subject)[j]) == Strip(McqOptions(topic, subject)[k]) <==> j == k)
  {
    var opts := McqOptions(topic, subject);
    OptionLetters(topic, subject);
    forall j, k | 0 <= j < 4 && 0 <= k < 4 && Strip(opts[j]) == Strip(opts[k])
      ensures j == k
    {
      var a, b := Strip(opts[j]), Strip(opts[k]);
      assert a[7] == b[7];
      LettersDistinct(j, k);
    }
  }

  /** `f"The correct answer is {correct} due to core concept alignment."` */
  function Explanation(correct: Choice): (e: string)
    ensures |e| > |ExplanationLead| && e[|ExplanationLead|] == Letters[correct]
  {
    ExplanationLead + [Letters[correct]] + " due to core concept alignment."
  }

  /** The MCQ `_generate_mcq` builds for the drawn letter `correct`. */
  function McqItem(topic: string, subject: string, difficulty: string, correct: Choice): (item: QuizItem)
    ensures item.Mcq? && WellFormed(item) && item.topicTag == topic
    ensures |item.options| == 4 && item.answer == item.options[correct]
    ensures item.explanation == Explanation(correct)
  {
    var options := McqOptions(topic, subject);
    Mcq(McqStem(topic, subject, difficulty), options, options[correct], Explanation(correct), topic)
  }

  /** Of the four options, only the one at the drawn letter matches the
      answer after stripping. */
  lemma McqItemKey(topic: string, subject: string, difficulty: string, correct: Choice)
    ensures var item := McqItem(topic, subject, difficulty, correct);
      forall j :: 0 <= j < 4 ==> (Strip(item.options[j]) == Strip(item.answer) <==> j == correct)
  {
    OptionsDistinct(topic, subject);
  }

  const Starters: seq<string> := [
    "Explain the concept of",
    "Give a short definition of",
    "List two key points about",
    "Describe a real-world application of"
  ]

  /** The whitespace-separated tokens of the topic that are longer than three characters. */
  function LongWords(topic: string): (long: seq<string>)
    ensures forall i :: 0 <= i < |long| ==> |long[i]| > 3 && NoSpace(long[i])
  {
    var p := (w: string) => |w| > 3;
    WordsShape(topic);
    FilterMembers(Words(topic), p);
    Filter(Words(topic), p)
  }

  /** The candidates are exactly the tokens of `topic.split()` longer than
      three characters. */
  lemma LongWordsSpec(topic: string)
    ensures forall w :: w in LongWords(topic) <==> w in Words(topic) && |w| > 3
  {
    var p := (w: string) => |w| > 3;
    FilterMembers(Words(topic), p);
  }

  /** `[kw.strip() for kw in topic.split() if len(kw) > 3][:4]`: the first
      (at most) four long tokens, in their original order.  The `strip` is
      the identity on tokens of `split()` (see `KeywordsStripped`). */
  function Keywords(topic: string): (kws: seq<string>)
    ensures kws <= LongWords(topic)
    ensures |kws| == Min(4, |LongWords(topic)|)
    ensures forall i :: 0 <= i < |kws| ==> |kws[i]| > 3 && NoSpace(kws[i])
  {
    PyTake(LongWords(topic), 4)
  }

  /** The keywords are unchanged by `strip`. */
  lemma KeywordsStripped(topic: string)
    ensures forall i :: 0 <= i < |Keywords(topic)| ==> Strip(Keywords(topic)[i]) == Keywords(topic)[i]
  {
    var kws := Keywords(topic);
    forall i | 0 <= i < |kws|
      ensures Strip(kws[i]) == kws[i]
    {
      StripSpec(kws[i]);
    }
  }

  function ShortQuestion(topic: string, subject: string, difficulty: string, starter: Choice): string {
    Starters[starter] + " " + topic + " in " + subject + ". (Level: " + difficulty + ")"
  }

  function IdealAnswer(difficulty: string): string {
    "An ideal answer should mention the core definition, one example, and a " + Lower(difficulty) + " nuance."
  }

  /** The short-answer item `_generate_short` builds for the drawn starter. */
  function ShortItem(topic: string, subject: string, difficulty: string, starter: Choice): (item: QuizItem)
    ensures item.Short? && WellFormed(item) && item.topicTag == topic
    ensures item.keywords == Keywords(topic)
  {
    Short(ShortQuestion(topic, subject, difficulty, starter), IdealAnswer(difficulty), Keywords(topic), topic)
  }

  /** `_generate_mcq`: `n` items, the i-th built from the i-th letter draw. */
  method GenerateMcq(topic: string, subject: string, difficulty: string, n: int, draws: seq<Choice>)
    returns (questions: seq<QuizItem>)
    requires |draws| >= Clamp(n)
    ensures |questions| == Clamp(n)
    ensures forall i :: 0 <= i < |questions| ==> questions[i] == McqItem(topic, subject, difficulty, draws[i])
  {
    questions := [];
    for i := 0 to Clamp(n)
      invariant |questions| == i
      invariant forall j :: 0 <= j < i ==> questions[j] == McqItem(topic, subject, difficulty, draws[j])
    {
      var correct := draws[i];
      questions := questions + [McqItem(topic, subject, difficulty, correct)];
    }
  }

  /** `_generate_short`: `n` items, the i-th built from the i-th starter draw. */
  method GenerateShort(topic: string, subject: string, difficulty: string, n: int, draws: seq<Choice>)
    returns (questions: seq<QuizItem>)
    requires |draws| >= Clamp(n)
    ensures |questions| == Clamp(n)
    ensures forall i :: 0 <= i < |questions| ==> questions[i] == ShortItem(topic, subject, difficulty, draws[i])
  {
    questions := [];
    for i := 0 to Clamp(n)
      invariant |questions| == i
      invariant forall j :: 0 <= j < i ==> questions[j] == ShortItem(topic, subject, difficulty, draws[j])
    {
      questions := questions + [ShortItem(topic, subject, difficulty, draws[i])];
    }
  }

  /** `generate_quiz_items`: the MCQs first, then the short-answer items.
      `use_llm` does not change quiz items and is not a parameter here. */
  method GenerateQuizItems(topic: string, subject: string, difficulty: string, numMcq: int, numShort: int,
                           letterDraws: seq<Choice>, starterDraws: seq<Choice>)
    returns (items: seq<QuizItem>)
    requires |letterDraws| >= Clamp(numMcq) && |starterDraws| >= Clamp(numShort)
    ensures |items| == Clamp(numMcq) + Clamp(numShort)
    ensures forall i :: 0 <= i < |items| ==> items[i].topicTag == topic && WellFormed(items[i])
    ensures forall i :: 0 <= i < Clamp(numMcq) ==>
      items[i].Mcq? && |items[i].options| == 4 && items[i].answer == items[i].options[letterDraws[i]]
    ensures forall i :: Clamp(numMcq) <= i < |items| ==>
      items[i].Short? && items[i].keywords == Keywords(topic)
    ensures forall i :: 0 <= i < Clamp(numMcq) ==> items[i] == McqItem(topic, subject, difficulty, letterDraws[i])
    ensures forall i :: Clamp(numMcq) <= i < |items| ==>
      items[i] == ShortItem(topic, subject, difficulty, starterDraws[i - Clamp(numMcq)])
  {
    var mcqs := GenerateMcq(topic, subject, difficulty, numMcq, letterDraws);
    var shorts := GenerateShort(topic, subject, difficulty, numShort, starterDraws);
    items := mcqs + shorts;
  }

  // ---------------------------------------------------------------- grading

  /** The key under which the answer to item `idx` is submitted: `f"q_{idx}"`. */
  function Key(idx: nat): string {
    "q_" + Decimal(idx)
  }

  lemma KeyInjective(i: nat, j: nat)
    requires Key(i) == Key(j)
    ensures i == j
  {
    assert Key(i)[2..] == Decimal(i);
    assert Key(j)[2..] == Decimal(j);
    DecimalInjective(i, j);
  }

  /** `answers.get(key, "")`. */
  function Lookup(answers: map<string, string>, key: string): string {
    if key in answers then answers[key] else ""
  }

  /** `max(1, n // 2)`. */
  function Threshold(n: nat): nat {
    if n / 2 > 1 then n / 2 else 1
  }

  /** `set(re.findall(r"[A-Za-z0-9]+", answer.lower()))`. */
  function TokenSet(answer: string): set<string> {
    set t | t in AlnumTokens(Lower(answer))
  }

  /** `sum(1 for kw in keywords if kw.lower() in tokens)`. */
  function Hits(keywords: seq<string>, tokens: set<string>): (h: nat)
    ensures h <= |keywords|
  {
    if keywords == [] then 0
    else (if Lower(keywords[0]) in tokens then 1 else 0) + Hits(keywords[1..], tokens)
  }

  /** `[kw for kw in keywords if kw.lower() not in tokens]`. */
  function Missed(keywords: seq<string>, tokens: set<string>): seq<string> {
    Filter(keywords, kw => Lower(kw) !in tokens)
  }

  /** Every keyword is either a hit or missed. */
  lemma {:induction false} HitsAndMissed(keywords: seq<string>, tokens: set<string>)
    ensures Hits(keywords, tokens) + |Missed(keywords, tokens)| == |keywords|
  {
    if keywords != [] {
      HitsAndMissed(keywords[1..], tokens);
      FilterConcat([keywords[0]], keywords[1..], kw => Lower(kw) !in tokens);
      assert keywords == [keywords[0]] + keywords[1..];
    }
  }

  /** More tokens in the answer never mean fewer hits. */
  lemma {:induction false} HitsMonotone(keywords: seq<string>, t1: set<string>, t2: set<string>)
    requires t1 <= t2
    ensures Hits(keywords, t1) <= Hits(keywords, t2)
  {
    if keywords != [] {
      HitsMonotone(keywords[1..], t1, t2);
    }
  }

  /** `f"Q{idx+1}:"`, the start of every feedback line. */
  function FeedbackTag(idx: nat): string {
    "Q" + Decimal(idx + 1) + ":"
  }

  /** The four feedback lines grading writes; each starts with the item's tag. */
  function CorrectNote(idx: nat): (s: string)
    ensures FeedbackTag(idx) <= s
  {
    FeedbackTag(idx) + " Correct."
  }

  function IncorrectNote(idx: nat, explanation: string): (s: string)
    ensures FeedbackTag(idx) <= s
  {
    FeedbackTag(idx) + " Incorrect. " + explanation
  }

  function GoodNote(idx: nat): (s: string)
    ensures FeedbackTag(idx) <= s
  {
    FeedbackTag(idx) + " Good. Covered key points."
  }

  /** Names the missed keywords, or asks for "more specifics" when there are none. */
  function ImproveNote(idx: nat, miss: seq<string>): (s: string)
    ensures FeedbackTag(idx) <= s
  {
    FeedbackTag(idx) + " Needs improvement. Mention: " + (if miss != [] then Join(", ", miss) else "more specifics") + "."
  }

  datatype ItemGrade = ItemGrade(passed: bool, feedback: string, weak: seq<string>)

  /** What one pass of the grading loop decides for item `idx` given the raw
      submitted answer: whether it scores, its feedback line and the weak
      areas it adds (before empty strings are dropped). */
  function GradeItem(idx: nat, item: QuizItem, raw: string): (g: ItemGrade)
    ensures FeedbackTag(idx) <= g.feedback
    ensures g.passed ==> g.weak == []
  {
    var userAns := Strip(raw);
    match item
    case Mcq(_, _, answer, explanation, tag) =>
      if userAns == Strip(answer) then ItemGrade(true, CorrectNote(idx), [])
      else ItemGrade(false, IncorrectNote(idx, explanation), [tag])
    case Short(_, _, keywords, tag) =>
      var tokens := TokenSet(userAns);
      if Hits(keywords, tokens) >= Threshold(|keywords|) then ItemGrade(true, GoodNote(idx), [])
      else
        var miss := Missed(keywords, tokens);
        ItemGrade(false, ImproveNote(idx, miss), if miss != [] then miss else [tag])
  }

  /** An MCQ scores exactly when the trimmed answer equals the trimmed key;
      a miss records the item's topic tag. */
  lemma McqGrading(idx: nat, item: QuizItem, raw: string)
    requires item.Mcq?
    ensures GradeItem(idx, item, raw).passed <==> Strip(raw) == Strip(item.answer)
    ensures !GradeItem(idx, item, raw).passed ==> GradeItem(idx, item, raw).weak == [item.topicTag]
  {
  }

  /** A short answer scores exactly when its keyword hits reach
      `max(1, len(keywords) // 2)`; a failure records the missed keywords, or
      the topic tag when no keyword was missed. */
  lemma ShortGrading(idx: nat, item: QuizItem, raw: string)
    requires item.Short?
    ensures GradeItem(idx, item, raw).passed <==>
      Hits(item.keywords, TokenSet(Strip(raw))) >= Threshold(|item.keywords|)
    ensures !GradeItem(idx, item, raw).passed ==>
      var miss := Missed(item.keywords, TokenSet(Strip(raw)));
      GradeItem(idx, item, raw).weak == (if miss != [] then miss else [item.topicTag])
  {
  }

  /** A failed short answer has missed at least one keyword unless it had
      none: only a keyword-less item falls back to the topic tag. */
  lemma ShortFailureMissesKeyword(idx: nat, item: QuizItem, raw: string)
    requires item.Short? && !GradeItem(idx, item, raw).passed
    ensures Missed(item.keywords, TokenSet(Strip(raw))) == [] <==> item.keywords == []
  {
    var tokens := TokenSet(Strip(raw));
    HitsAndMissed(item.keywords, tokens);
  }

  /** An item without keywords can never score: zero hits are below the threshold of one. */
  lemma NoKeywordsNeverPasses(idx: nat, item: QuizItem, raw: string)
    requires item.Short? && item.keywords == []
    ensures !GradeItem(idx, item, raw).passed
    ensures GradeItem(idx, item, raw).weak == [item.topicTag]
    ensures GradeItem(idx, item, raw).feedback == ImproveNote(idx, [])
  {
  }

  /** Adding words to a short answer never turns a pass into a failure. */
  lemma ShortPassMonotone(idx: nat, item: QuizItem, raw1: string, raw2: string)
    requires item.Short?
    requires TokenSet(Strip(raw1)) <= TokenSet(Strip(raw2))
    requires GradeItem(idx, item, raw1).passed
    ensures GradeItem(idx, item, raw2).passed
  {
    HitsMonotone(item.keywords, TokenSet(Strip(raw1)), TokenSet(Strip(raw2)));
  }

  /** For a generated MCQ, submitting option `j` scores exactly when `j` is the drawn letter. */
  lemma GeneratedMcqGrading(idx: nat, topic: string, subject: string, difficulty: string, correct: Choice, j: nat)
    requires j < 4
    ensures var item := McqItem(topic, subject, difficulty, correct);
      GradeItem(idx, item, item.options[j]).passed <==> j == correct
  {
    var item := McqItem(topic, subject, difficulty, correct);
    McqItemKey(topic, subject, difficulty, correct);
    McqGrading(idx, item, item.options[j]);
  }

  /** The grade of each item under the submitted answers, looked up under `q_{idx}`. */
  function Grades(items: seq<QuizItem>, answers: map<string, string>): (gs: seq<ItemGrade>)
    ensures |gs| == |items|
  {
    seq(|items|, i requires 0 <= i < |items| => GradeItem(i, items[i], Lookup(answers, Key(i))))
  }

  /** Whether item `i` scores under the submitted answers. */
  predicate Passes(items: seq<QuizItem>, answers: map<string, string>, i: nat)
    requires i < |items|
  {
    GradeItem(i, items[i], Lookup(answers, Key(i))).passed
  }

  /** The number of passing grades. */
  function PassCount(gs: seq<ItemGrade>): (s: nat)
    ensures s <= |gs|
  {
    if gs == [] then 0 else PassCount(gs[..|gs| - 1]) + (if gs[|gs| - 1].passed then 1 else 0)
  }

  /** The feedback lines of the grades, in order. */
  function FeedbackOf(gs: seq<ItemGrade>): (lines: seq<string>)
    ensures |lines| == |gs|
    ensures forall i :: 0 <= i < |gs| ==> lines[i] == gs[i].feedback
  {
    if gs == [] then [] else FeedbackOf(gs[..|gs| - 1]) + [gs[|gs| - 1].feedback]
  }

  /** The weak areas of the grades, in order, before empty strings are dropped. */
  function WeakOf(gs: seq<ItemGrade>): seq<string> {
    if gs == [] then [] else WeakOf(gs[..|gs| - 1]) + gs[|gs| - 1].weak
  }

  function Score(items: seq<QuizItem>, answers: map<string, string>): nat {
    PassCount(Grades(items, answers))
  }

  /** A count is full exactly when every grade passes, and zero exactly when none does. */
  lemma {:induction false} PassCountExtremes(gs: seq<ItemGrade>)
    ensures PassCount(gs) == |gs| <==> forall i :: 0 <= i < |gs| ==> gs[i].passed
    ensures PassCount(gs) == 0 <==> forall i :: 0 <= i < |gs| ==> !gs[i].passed
  {
    if gs != [] {
      var init := gs[..|gs| - 1];
      PassCountExtremes(init);
      assert forall i :: 0 <= i < |init| ==> init[i] == gs[i];
    }
  }

  /** The score is at most the number of items; it is full exactly when every
      item passes, and zero exactly when none does. */
  lemma ScoreExtremes(items: seq<QuizItem>, answers: map<string, string>)
    ensures Score(items, answers) <= |items|
    ensures Score(items, answers) == |items| <==> forall i :: 0 <= i < |items| ==> Passes(items, answers, i)
    ensures Score(items, answers) == 0 <==> forall i :: 0 <= i < |items| ==> !Passes(items, answers, i)
  {
    var gs := Grades(items, answers);
    PassCountExtremes(gs);
    assert forall i :: 0 <= i < |items| ==> gs[i].passed == Passes(items, answers, i);
  }

  lemma {:induction false} HitsNone(keywords: seq<string>)
    ensures Hits(keywords, {}) == 0
  {
    if keywords != [] {
      HitsNone(keywords[1..]);
    }
  }

  /** A blank answer scores on no item whose key is not blank. */
  lemma BlankAnswerFails(idx: nat, item: QuizItem, raw: string)
    requires Strip(raw) == ""
    requires item.Mcq? ==> Strip(item.answer) != ""
    ensures !GradeItem(idx, item, raw).passed
  {
    if item.Short? {
      assert AlnumTokens(Lower("")) == [];
      assert TokenSet(Strip(raw)) == {};
      HitsNone(item.keywords);
    }
  }

  /** With no answers at all, no item with a non-blank key scores. */
  lemma EmptySubmissionScoresZero(items: seq<QuizItem>)
    requires forall i :: 0 <= i < |items| ==> items[i].Mcq? ==> Strip(items[i].answer) != ""
    ensures Score(items, map[]) == 0
  {
    forall i | 0 <= i < |items|
      ensures !Passes(items, map[], i)
    {
      assert Lookup(map[], Key(i)) == "";
      BlankAnswerFails(i, items[i], "");
    }
    ScoreExtremes(items, map[]);
  }

  datatype GradeResult = GradeResult(score: nat, total: nat, feedbackList: seq<string>, weakAreas: seq<string>)

  function NonEmpty(w: string): bool {
    w != ""
  }

  /** `grade_quiz_submission`: walks the items in index order, grades the
      answer submitted under `q_{idx}` (the body of the loop is `GradeItem`),
      and accumulates the score, one feedback line per item and the weak
      areas; empty weak areas are dropped at the end. */
  method GradeQuizSubmission(items: seq<QuizItem>, answers: map<string, string>) returns (result: GradeResult)
    ensures result.total == |items|
    ensures result.score == Score(items, answers)
    ensures result.feedbackList == FeedbackOf(Grades(items, answers))
    ensures result.weakAreas == Filter(WeakOf(Grades(items, answers)), NonEmpty)
  {
    ghost var gs := Grades(items, answers);
    var score := 0;
    var feedbackList: seq<string> := [];
    var weakAreas: seq<string> := [];
    for idx := 0 to |items|
      invariant score == PassCount(gs[..idx])
      invariant feedbackList == FeedbackOf(gs[..idx])
      invariant weakAreas == WeakOf(gs[..idx])
    {
      assert gs[..idx + 1][..idx] == gs[..idx];
      var g := GradeItem(idx, items[idx], Lookup(answers, Key(idx)));
      assert g == gs[idx];
      if g.passed {
        score := score + 1;
      }
      feedbackList := feedbackList + [g.feedback];
      weakAreas := weakAreas + g.weak;
    }
    assert gs[..|items|] == gs;
    result := GradeResult(score, |items|, feedbackList, Filter(weakAreas, NonEmpty));
  }

  /** The result of grading, item by item: the score is at most the number of
      items, there is one feedback line per item, in order and tagged with its
      number, and no recorded weak area is empty. */
  lemma GradeResultShape(items: seq<QuizItem>, answers: map<string, string>)
    ensures Score(items, answers) <= |items|
    ensures |FeedbackOf(Grades(items, answers))| == |items|
    ensures forall i :: 0 <= i < |items| ==>
      FeedbackOf(Grades(items, answers))[i] == GradeItem(i, items[i], Lookup(answers, Key(i))).feedback
    ensures forall i :: 0 <= i < |items| ==> FeedbackTag(i) <= FeedbackOf(Grades(items, answers))[i]
    ensures forall i :: 0 <= i < |Filter(WeakOf(Grades(items, answers)), NonEmpty)| ==>
      Filter(WeakOf(Grades(items, answers)), NonEmpty)[i] != ""
  {
  }

  // ---------------------------------------------------------- study notes

  function SubjectLine(subject: string, difficulty: string): string {
    "Subject: " + subject + " | Difficulty: " + difficulty
  }

  function TopicLine(topic: string): string {
    "Topic: " + Strip(topic)
  }

  /** `f"Subject: {subject} | Difficulty: {difficulty}\nTopic: {topic}\n\n"`
      with the topic already stripped. */
  function NotesHeader(topic: string, subject: string, difficulty: string): string {
    SubjectLine(subject, difficulty) + "\n" + TopicLine(topic) + "\n" + "\n"
  }

  function NotePoints(topic: string, subject: string, difficulty: string): seq<string> {
    var t := Strip(topic);
    [ "- Core concept overview of '" + t + "'.",
      "- Key formulas/definitions relevant to " + subject + ".",
      "- Common pitfalls and misconceptions.",
      "- Examples ranging from " + Lower(difficulty) + " to challenging.",
      "- Mini checklist for quick revision." ]
  }

  /** `generate_study_notes`.  `generated` is the model's text after the
      prompt when the model was asked for and answered; `None` when it was
      not asked for, is unavailable or raised. */
  function StudyNotes(topic: string, subject: string, difficulty: string, generated: Option<string>): (notes: string)
    ensures NotesHeader(topic, subject, difficulty) <= notes
    ensures generated.Some? ==>
      var body := notes[|NotesHeader(topic, subject, difficulty)|..];
      NoEdgeSpace(body) && NoDoubleSpace(body) && Visible(body) == Visible(generated.value)
  {
    var header := NotesHeader(topic, subject, difficulty);
    match generated
    case Some(text) =>
      CleanTextShape(text);
      CleanTextKeepsVisible(text);
      assert (header + CleanText(text))[|header|..] == CleanText(text);
      header + CleanText(text)
    case None => header + Join("\n", NotePoints(topic, subject, difficulty))
  }

  lemma HeaderLiterals()
    ensures NoLineBreak("Subject: ") && NoLineBreak(" | Difficulty: ") && NoLineBreak("Topic: ")
  {
  }

  lemma SubjectLineClean(subject: string, difficulty: string)
    requires NoLineBreak(subject) && NoLineBreak(difficulty)
    ensures NoLineBreak(SubjectLine(subject, difficulty))
  {
    HeaderLiterals();
    NoLineBreak3("Subject: ", subject, " | Difficulty: ");
    NoLineBreakConcat("Subject: " + subject + " | Difficulty: ", difficulty);
  }

  lemma HeaderLinesClean(topic: string, subject: string, difficulty: string)
    requires NoLineBreak(subject) && NoLineBreak(difficulty) && NoLineBreak(Strip(topic))
    ensures NoLineBreak(SubjectLine(subject, difficulty)) && NoLineBreak(TopicLine(topic))
  {
    SubjectLineClean(subject, difficulty);
    HeaderLiterals();
    NoLineBreakConcat("Topic: ", Strip(topic));
  }

  /** The topic line is not empty and, the topic being stripped, does not
      end in a line boundary, whatever lines the topic spans. */
  lemma TopicLineEnd(topic: string)
    ensures var l := TopicLine(topic); l != [] && !IsLineBreak(l[|l| - 1])
  {
    var t := Strip(topic);
    StripSpec(topic);
    if t != [] && IsLineBreak(t[|t| - 1]) {
      LineBreakIsSpace(t[|t| - 1]);
    }
  }

  lemma CorePointLiterals()
    ensures NoLineBreak("- Core concept overview of '") && NoLineBreak("'.")
  {
  }

  lemma KeyPointLiterals()
    ensures NoLineBreak("- Key formulas/definitions relevant to ") && NoLineBreak(".")
  {
  }

  lemma PitfallPointLiteral()
    ensures NoLineBreak("- Common pitfalls and misconceptions.")
  {
  }

  lemma ExamplePointLiterals()
    ensures NoLineBreak("- Examples ranging from ") && NoLineBreak(" to challenging.")
  {
  }

  lemma ChecklistPointLiteral()
    ensures NoLineBreak("- Mini checklist for quick revision.")
  {
  }

  /** The last four bullets do not mention the topic. */
  lemma PointsTailClean(topic: string, subject: string, difficulty: string)
    requires NoLineBreak(subject) && NoLineBreak(difficulty)
    ensures forall i :: 1 <= i < 5 ==> NoLineBreak(NotePoints(topic, subject, difficulty)[i])
  {
    var d := Lower(difficulty);
    assert NoLineBreak(d) by {
      assert forall i :: 0 <= i < |d| ==> d[i] == LowerChar(difficulty[i]);
    }
    KeyPointLiterals();
    NoLineBreak3("- Key formulas/definitions relevant to ", subject, ".");
    PitfallPointLiteral();
    ExamplePointLiterals();
    NoLineBreak3("- Examples ranging from ", d, " to challenging.");
    ChecklistPointLiteral();
  }

  lemma PointsClean(topic: string, subject: string, difficulty: string)
    requires NoLineBreak(subject) && NoLineBreak(difficulty) && NoLineBreak(Strip(topic))
    ensures forall i :: 0 <= i < 5 ==> NoLineBreak(NotePoints(topic, subject, difficulty)[i])
  {
    PointsTailClean(topic, subject, difficulty);
    CorePointLiterals();
    NoLineBreak3("- Core concept overview of '", Strip(topic), "'.");
  }

  /** Without generated text, for any topic, also one pasted over several
      lines: the subject line, the lines of the topic line, an empty line,
      the lines of the first bullet (which repeats the topic), and the other
      four bullets as they are.  Subject and difficulty come from fixed
      option lists of single-line labels. */
  lemma FallbackNotesAnyTopic(topic: string, subject: string, difficulty: string)
    requires NoLineBreak(subject) && NoLineBreak(difficulty)
    ensures var points := NotePoints(topic, subject, difficulty);
      Lines(StudyNotes(topic, subject, difficulty, None)) ==
        [SubjectLine(subject, difficulty)] + Lines(TopicLine(topic)) + [""] + Lines(points[0]) + points[1..]
  {
    var points := NotePoints(topic, subject, difficulty);
    var rest := Join("\n", points[1..]);
    assert Join("\n", points) == points[0] + "\n" + rest;
    SubjectLineClean(subject, difficulty);
    PointsTailClean(topic, subject, difficulty);
    LinesOfJoin(points[1..]);
    LinesAppend(points[0], rest);
    TopicLineEnd(topic);
    LinesOfHeader(SubjectLine(subject, difficulty), TopicLine(topic), Join("\n", points));
  }

  /** For a single-line topic the fallback notes are the two header lines,
      an empty line and the five bullets. */
  lemma FallbackNotesLines(topic: string, subject: string, difficulty: string)
    requires NoLineBreak(subject) && NoLineBreak(difficulty) && NoLineBreak(Strip(topic))
    ensures Lines(StudyNotes(topic, subject, difficulty, None)) ==
      [SubjectLine(subject, difficulty), TopicLine(topic), ""] + NotePoints(topic, subject, difficulty)
  {
    var points := NotePoints(topic, subject, difficulty);
    var l1, l2 := SubjectLine(subject, difficulty), TopicLine(topic);
    FallbackNotesAnyTopic(topic, subject, difficulty);
    assert Lines(l2) == [l2] by {
      HeaderLinesClean(topic, subject, difficulty);
      LinesOfLine(l2);
    }
    assert Lines(points[0]) == [points[0]] by {
      PointsClean(topic, subject, difficulty);
      LinesOfLine(points[0]);
    }
    Cons3Split(l1, l2, "", points);
  }

  /** Generated notes are flattened by `_clean_text` into one paragraph after
      the header, for any topic: the subject line, the lines of the topic
      line, an empty line and the cleaned text as one line (none if blank). */
  lemma GeneratedNotesAnyTopic(topic: string, subject: string, difficulty: string, text: string)
    requires NoLineBreak(subject) && NoLineBreak(difficulty)
    ensures Lines(StudyNotes(topic, subject, difficulty, Some(text))) ==
      [SubjectLine(subject, difficulty)] + Lines(TopicLine(topic)) + [""] +
      (if CleanText(text) == "" then [] else [CleanText(text)])
  {
    var c := CleanText(text);
    SubjectLineClean(subject, difficulty);
    TopicLineEnd(topic);
    LinesOfHeader(SubjectLine(subject, difficulty), TopicLine(topic), c);
    if c != "" {
      CleanTextOneLine(text);
      LinesOfLine(c);
    }
  }

  /** For a single-line topic the generated notes are the two header lines,
      an empty line and the cleaned text as one line. */
  lemma GeneratedNotesLines(topic: string, subject: string, difficulty: string, text: string)
    requires NoLineBreak(subject) && NoLineBreak(difficulty) && NoLineBreak(Strip(topic))
    ensures Lines(StudyNotes(topic, subject, difficulty, Some(text))) ==
      [SubjectLine(subject, difficulty), TopicLine(topic), ""] + (if CleanText(text) == "" then [] else [CleanText(text)])
  {
    var l1, l2 := SubjectLine(subject, difficulty), TopicLine(topic);
    var tail := if CleanText(text) == "" then [] else [CleanText(text)];
    GeneratedNotesAnyTopic(topic, subject, difficulty, text);
    assert Lines(l2) == [l2] by {
      HeaderLinesClean(topic, subject, difficulty);
      LinesOfLine(l2);
    }
    Cons3(l1, l2, "", tail);
  }

  // ----------------------------------------------------------- flashcards

  type Card = (string, string)

  function BaseCards(topic: string, subject: string, difficulty: string): seq<Card> {
    [ ("Define the main idea of " + topic + " in " + subject + ".", "The main idea is ... (level " + difficulty + ")."),
      ("Give an example related to " + topic + ".", "An example is ... relevant to " + subject + "."),
      ("State a common misconception about " + topic + ".", "A misconception is ... and the correction is ..."),
      ("Provide a key formula/theorem for " + topic + ".", "One key formula/theorem is ..."),
      ("Explain how to apply " + topic + " in practice.", "Apply it by ...") ]
  }

  lemma {:induction false} PeriodicMod<T>(r: seq<T>, base: seq<T>, i: nat)
    requires |base| == 5 && i < |r|
    requires forall j :: 0 <= j < 5 && j < |r| ==> r[j] == base[j]
    requires forall j :: 5 <= j < |r| ==> r[j] == r[j - 5]
    ensures r[i] == base[i % 5]
    decreases i
  {
    if i >= 5 {
      PeriodicMod(r, base, i - 5);
    }
  }

  /** The fallback deck: the five base cards repeated `ceil(n / 5)` times and
      cut to `n`.  Dafny's `/` by a positive divisor is Python's `//`. */
  function FallbackCards(topic: string, subject: string, difficulty: string, numCards: int): (cards: seq<Card>)
    ensures |cards| == Clamp(numCards)
    ensures forall i :: 0 <= i < |cards| ==> cards[i] == BaseCards(topic, subject, difficulty)[i % 5]
  {
    var base := BaseCards(topic, subject, difficulty);
    var copies := (numCards + |base| - 1) / |base|;
    var all := Repeat(base, copies);
    RepeatPeriodic(base, Clamp(copies));
    assert copies > 0 ==> |all| >= numCards;
    assert numCards <= 0 ==> all == [];
    forall i | 0 <= i < |all|
      ensures all[i] == base[i % 5]
    {
      PeriodicMod(all, base, i);
    }
    PyTake(all, numCards)
  }

  /** `part.split(":", 1)[-1]`: the text after the first colon, or all of it. */
  function AfterColon(part: string): string {
    match Find(part, ":")
    case None => part
    case Some(k) => part[k + 1..]
  }

  /** One line of generated text in the form `Q: ... | A: ...`: the question
      is the stripped text after the first colon before the first bar, the
      answer the stripped text after the first colon after it. */
  function ParseCardLine(line: string): (card: Option<Card>)
    ensures card.Some? ==> Contains(line, "|")
    ensures card.Some? ==> card.value.0 != "" && card.value.1 != ""
    ensures card.Some? ==> NoEdgeSpace(card.value.0) && NoEdgeSpace(card.value.1)
    ensures Find(line, "|").Some? ==>
      var k := Find(line, "|").value;
      var q, a := Strip(AfterColon(line[..k])), Strip(AfterColon(line[k + 1..]));
      (card.Some? <==> q != "" && a != "") && (card.Some? ==> card.value == (q, a))
  {
    match Find(line, "|")
    case None => None
    case Some(k) =>
      var q := Strip(AfterColon(line[..k]));
      var a := Strip(AfterColon(line[k + 1..]));
      StripSpec(AfterColon(line[..k]));
      StripSpec(AfterColon(line[k + 1..]));
      if q != "" && a != "" then Some((q, a)) else None
  }

  /** The question part `"Q: " + q + " "` holds no bar when `q` holds none. */
  lemma NoBarInQuestion(q: string)
    requires !Contains(q, "|")
    ensures !Contains("Q: " + q + " ", "|")
  {
    var x := "Q: " + q + " ";
    forall k | 0 <= k && k + 1 <= |x|
      ensures !MatchAt(x, "|", k)
    {
      assert x[k..k + 1] == [x[k]];
      if 3 <= k < 3 + |q| {
        assert x[k] == q[k - 3];
        assert q[k - 3..k - 2] == [q[k - 3]];
        assert !MatchAt(q, "|", k - 3);
      }
    }
  }

  /** The question of `"Q: " + q + " "` is `q`. */
  lemma QuestionPart(q: string)
    requires q != "" && NoEdgeSpace(q)
    ensures Strip(AfterColon("Q: " + q + " ")) == q
  {
    var x := "Q: " + q + " ";
    assert x[1..2] == ":" && x[0..1] == "Q";
    FindFirst(x, ":", 1);
    assert x[2..] == " " + q + " ";
    StripBlanksAround(q);
  }

  /** The answer of `" A: " + a` is `a`. */
  lemma AnswerPart(a: string)
    requires a != "" && NoEdgeSpace(a)
    ensures Strip(AfterColon(" A: " + a)) == a
  {
    var y := " A: " + a;
    assert y[2..3] == ":" && y[0..1] == " " && y[1..2] == "A";
    FindFirst(y, ":", 2);
    assert y[3..] == " " + a;
    StripBlankBefore(a);
  }

  /** A line written in the requested `Q: question | A: answer` form parses
      back into that question and answer. */
  lemma CardLineRoundTrip(q: string, a: string)
    requires q != "" && a != "" && NoEdgeSpace(q) && NoEdgeSpace(a) && !Contains(q, "|")
    ensures ParseCardLine("Q: " + q + " | A: " + a) == Some((q, a))
  {
    var x := "Q: " + q + " ";
    var y := " A: " + a;
    var line := "Q: " + q + " | A: " + a;
    assert line == x + "|" + y;
    NoBarInQuestion(q);
    FindAfterPiece(x, "|", y);
    assert line[..|x|] == x;
    assert line[|x| + 1..] == y;
    QuestionPart(q);
    AnswerPart(a);
  }

  /** The cards of all lines that parse, in line order. */
  function ParsedCards(lines: seq<string>): seq<Card> {
    FilterMap(lines, ParseCardLine)
  }

  /** Every parsed card comes from a line of the form `Q: ... | A: ...` and
      has a non-empty, stripped question and answer; every line that parses
      contributes its card; and blocks of lines contribute their cards in order. */
  lemma ParsedCardsSpec(lines: seq<string>, more: seq<string>)
    ensures |ParsedCards(lines)| <= |lines|
    ensures forall k :: 0 <= k < |ParsedCards(lines)| ==>
      exists j :: 0 <= j < |lines| && Contains(lines[j], "|") && ParseCardLine(lines[j]) == Some(ParsedCards(lines)[k])
    ensures forall k :: 0 <= k < |ParsedCards(lines)| ==>
      var c := ParsedCards(lines)[k];
      c.0 != "" && c.1 != "" && NoEdgeSpace(c.0) && NoEdgeSpace(c.1)
    ensures forall j :: 0 <= j < |lines| && ParseCardLine(lines[j]).Some? ==>
      ParseCardLine(lines[j]).value in ParsedCards(lines)
    ensures ParsedCards(lines + more) == ParsedCards(lines) + ParsedCards(more)
  {
    FilterMapMembers(lines, ParseCardLine);
    FilterMapConcat(lines, more, ParseCardLine);
    var cards := ParsedCards(lines);
    forall k | 0 <= k < |cards|
      ensures exists j :: 0 <= j < |lines| && Contains(lines[j], "|") && ParseCardLine(lines[j]) == Some(cards[k])
      ensures cards[k].0 != "" && cards[k].1 != "" && NoEdgeSpace(cards[k].0) && NoEdgeSpace(cards[k].1)
    {
      var j :| 0 <= j < |lines| && ParseCardLine(lines[j]) == Some(cards[k]);
    }
  }

  /** The parsing loop of `generate_flashcards`. */
  method ParseFlashcards(text: string) returns (pairs: seq<Card>)
    ensures pairs == ParsedCards(Lines(text))
  {
    var lines := Lines(text);
    pairs := [];
    for i := 0 to |lines|
      invariant pairs == FilterMap(lines[..i], ParseCardLine)
    {
      assert lines[..i + 1][..i] == lines[..i];
      var line := lines[i];
      var bar := Find(line, "|");
      if bar.Some? {
        var q := Strip(AfterColon(line[..bar.value]));
        var a := Strip(AfterColon(line[bar.value + 1..]));
        if q != "" && a != "" {
          pairs := pairs + [(q, a)];
        }
      }
    }
    assert lines[..|lines|] == lines;
  }

  /** `generate_flashcards`: the parsed cards cut to `num_cards` when the
      model produced at least one parsable line, the fallback deck otherwise. */
  method GenerateFlashcards(topic: string, subject: string, difficulty: string, numCards: int, generated: Option<string>)
    returns (cards: seq<Card>)
    ensures generated.None? ==> cards == FallbackCards(topic, subject, difficulty, numCards)
    ensures generated.Some? && ParsedCards(Lines(generated.value)) == [] ==>
      cards == FallbackCards(topic, subject, difficulty, numCards)
    ensures generated.Some? && ParsedCards(Lines(generated.value)) != [] ==>
      cards == PyTake(ParsedCards(Lines(generated.value)), numCards)
    ensures numCards >= 0 ==> |cards| <= numCards
  {
    cards := FallbackCards(topic, subject, difficulty, numCards);
    if generated.Some? {
      var pairs := ParseFlashcards(generated.value);
      if |pairs| >= 1 {
        cards := PyTake(pairs, numCards);
      }
    }
  }
}
