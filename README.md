# EduTutor AI: quiz, grading and progress-log core in Dafny

EduTutor AI is a study assistant. It writes study notes and flashcards for a
topic, builds quizzes of multiple-choice (MCQ) and short-answer items, and
grades a submitted quiz. It also keeps a log of results, from which a
progress report and the student and teacher dashboards are computed.

This project models that logic and proves properties of it. There is one
module per part of the program:

- `Engine` models `ai_engine.py`:
  - the text cleaner and the study-notes fallback;
  - the flashcard fallback deck and the `Q: … | A: …` line parser;
  - MCQ and short-answer generation;
  - `grade_quiz_submission`.

  Each random choice is a supplied draw. The text-generation model's
  output is an optional input string.
- `Users` models `register_user` and `authenticate_user` in `utils.py`. The
  user file is a class holding a sequence of user records.
- `Results` models the result log that `save_student_result` appends to. It
  also models the numbers that `export_pdf_report` prints:
  - the overall average;
  - the per-subject ranking;
  - the six most common weak areas.
- `Dashboard` models the expressions of `app.py`:
  - the answers map;
  - the fields of the saved row;
  - the student's average;
  - the teacher's filters, class average, per-subject pivot and top-five
    weak areas.

Four supporting modules model Python and library behaviour:

- `Text` models the Python string built-ins the code uses:
  - `isspace`, `strip`, `lower`, `split()`, `split(sep)`, `join`,
    `splitlines`, `str(n)`;
  - `re.sub(r"\s+", " ", …)`;
  - `re.findall(r"[A-Za-z0-9]+", …)`.
- `Seqs` models list filters, slicing, repetition and a dict used as an
  insertion-ordered counter.
- `Sorting` models `sorted` with a descending key.
- `Wrappers` holds `Option`.

Percentages are exact reals. Each average keeps the guard its source line
uses:

- the report uses `if total`;
- the dashboards use `if total > 0`.

A lemma shows the two rules agree whenever the total is not negative.

## Model

| member | source | states |
|---|---|---|
| Text.CleanTextShape | edututor-ai/ai_engine.py:26-27 | cleaned text has no whitespace at either end, never two whitespace characters in a row, and no whitespace but the plain space |
| Text.CleanTextIdempotent | edututor-ai/ai_engine.py:26-27 | cleaning twice gives the same text as cleaning once |
| Text.CleanTextKeepsVisible | edututor-ai/ai_engine.py:26-27 | cleaning keeps every non-whitespace character, in order, and adds none |
| Text.CleanTextOneLine | edututor-ai/ai_engine.py:26-27 | cleaned text contains no line boundary |
| Engine.StudyNotes | edututor-ai/ai_engine.py:30-57 | the notes start with the subject/difficulty/topic header; generated text follows it cleaned (no edge or doubled whitespace, same visible characters) |
| Engine.FallbackNotesAnyTopic | edututor-ai/ai_engine.py:31-57 | for any topic, also one pasted over several lines, the notes without generated text split into the subject line, the lines of the topic line, an empty line, the lines of the first bullet (which repeats the topic) and the other four bullets as they are |
| Engine.FallbackNotesLines | edututor-ai/ai_engine.py:31-57 | for a single-line topic, the notes without generated text are exactly the two header lines, an empty line and the five bullets, in order |
| Engine.GeneratedNotesAnyTopic | edututor-ai/ai_engine.py:31-44 | for any topic, the notes with generated text split into the subject line, the lines of the topic line, an empty line, and the whole cleaned text as a single line (none if it is blank) |
| Engine.GeneratedNotesLines | edututor-ai/ai_engine.py:31-44 | for a single-line topic, the notes with generated text are the two header lines, an empty line, and the whole cleaned text as a single line (none if it is blank) |
| Engine.FallbackCards | edututor-ai/ai_engine.py:61-70 | the fallback deck has exactly `max(0, num_cards)` cards, and card i is base card `i mod 5` |
| Engine.ParseCardLine | edututor-ai/ai_engine.py:84-89 | a line yields a card only if it contains `|`; it yields one exactly when the texts after the first `:` on each side of the first `|`, stripped, are both non-empty, and the card is that pair |
| Engine.CardLineRoundTrip | edututor-ai/ai_engine.py:84-89 | a line written `Q: q | A: a`, with `q` and `a` non-empty, without edge whitespace and `q` free of `|`, parses back to the card `(q, a)` |
| Engine.ParsedCardsSpec | edututor-ai/ai_engine.py:82-89 | every parsed card comes from a line containing `|`, every line that parses contributes its card, cards are in line order (parsing distributes over concatenation), at most one per line |
| Engine.ParseFlashcards | edututor-ai/ai_engine.py:82-89 | the parsing loop over `splitlines()` returns exactly the parsed cards of the text's lines |
| Engine.GenerateFlashcards | edututor-ai/ai_engine.py:60-95 | the parsed cards cut to `num_cards` when at least one line parses, otherwise the fallback deck; never more than `num_cards` cards |
| Engine.OptionLetters | edututor-ai/ai_engine.py:103-108 | after stripping, option j still carries letter j ("A".."D") at position 7 |
| Engine.OptionsDistinct | edututor-ai/ai_engine.py:103-108 | two options are equal after stripping only when they are the same option |
| Engine.Explanation | edututor-ai/ai_engine.py:114 | the explanation names the drawn letter |
| Engine.McqItem | edututor-ai/ai_engine.py:101-116 | a generated MCQ has four options, its answer is the option at the drawn letter (so it is among the options), its explanation names that letter, and its tag is the topic |
| Engine.McqItemKey | edututor-ai/ai_engine.py:103-113 | only the option at the drawn letter matches the answer after stripping |
| Engine.GenerateMcq | edututor-ai/ai_engine.py:98-117 | `max(0, n)` items, the i-th built from the i-th letter draw |
| Engine.LongWords | edututor-ai/ai_engine.py:135 | every candidate keyword is a whitespace-free token longer than three characters |
| Engine.LongWordsSpec | edututor-ai/ai_engine.py:135 | a string is a candidate keyword exactly when it is a `split()` token of the topic longer than three characters |
| Engine.Keywords | edututor-ai/ai_engine.py:135 | the keywords are the first `min(4, #long tokens)` long tokens of the topic, in their original order |
| Engine.KeywordsStripped | edututor-ai/ai_engine.py:135 | the `strip` applied to each keyword leaves it unchanged |
| Engine.ShortItem | edututor-ai/ai_engine.py:128-137 | a generated short item carries the topic's keywords and the topic as its tag |
| Engine.GenerateShort | edututor-ai/ai_engine.py:120-138 | `max(0, n)` items, the i-th built from the i-th starter draw |
| Engine.GenerateQuizItems | edututor-ai/ai_engine.py:141-144 | exactly `max(0, num_mcq) + max(0, num_short)` items: first the MCQs, item i being the MCQ built from the i-th letter draw (four options, answer at the drawn letter), then the short items, each built from its starter draw (topic keywords); every item is tagged with the topic and well formed |
| Engine.KeyInjective | edututor-ai/ai_engine.py:154 | distinct item indexes have distinct answer keys `q_{idx}` |
| Engine.Hits | edututor-ai/ai_engine.py:169 | the hit count never exceeds the number of keywords |
| Engine.HitsAndMissed | edututor-ai/ai_engine.py:169-174 | every keyword is counted either as a hit or as missed |
| Engine.HitsMonotone | edututor-ai/ai_engine.py:168-169 | an answer with more tokens never has fewer keyword hits |
| Engine.CorrectNote | edututor-ai/ai_engine.py:161 | the line starts with `Q{idx+1}:` |
| Engine.IncorrectNote | edututor-ai/ai_engine.py:163 | the line starts with `Q{idx+1}:` |
| Engine.GoodNote | edututor-ai/ai_engine.py:172 | the line starts with `Q{idx+1}:` |
| Engine.ImproveNote | edututor-ai/ai_engine.py:175 | the line starts with `Q{idx+1}:` |
| Engine.GradeItem | edututor-ai/ai_engine.py:154-176 | every item's feedback starts with `Q{idx+1}:`; a passing item adds no weak area |
| Engine.McqGrading | edututor-ai/ai_engine.py:157-164 | an MCQ scores exactly when the trimmed answer equals the trimmed key; a miss adds the topic tag |
| Engine.ShortGrading | edututor-ai/ai_engine.py:165-176 | a short item scores exactly when its hits reach `max(1, len(keywords) // 2)`; a failure adds the missed keywords, or the tag when none was missed |
| Engine.ShortFailureMissesKeyword | edututor-ai/ai_engine.py:173-176 | a failing short item falls back to the tag exactly when it has no keywords |
| Engine.NoKeywordsNeverPasses | edututor-ai/ai_engine.py:167-176 | an item without keywords never scores, asks for "more specifics" and adds its tag |
| Engine.ShortPassMonotone | edututor-ai/ai_engine.py:168-171 | adding tokens to a passing short answer keeps it passing |
| Engine.GeneratedMcqGrading | edututor-ai/ai_engine.py:157-160 | submitting option j of a generated MCQ scores exactly when j is the drawn letter |
| Engine.Grades | edututor-ai/ai_engine.py:153-155 | the grading loop yields exactly one grade per item |
| Engine.PassCount | edututor-ai/ai_engine.py:160 | the score never exceeds the number of grades |
| Engine.FeedbackOf | edututor-ai/ai_engine.py:161-175 | one feedback line per item, line i being item i's |
| Engine.ScoreExtremes | edututor-ai/ai_engine.py:147-171 | `score <= total`; the score is full exactly when every item scores, and 0 exactly when none does |
| Engine.BlankAnswerFails | edututor-ai/ai_engine.py:155-170 | a blank answer scores on no item whose key is not blank |
| Engine.EmptySubmissionScoresZero | edututor-ai/ai_engine.py:153-171 | with no answers at all the score is 0 (given non-blank MCQ keys) |
| Engine.GradeQuizSubmission | edututor-ai/ai_engine.py:147-183 | the loop returns `total == len(items)`, the score, the feedback lines in item order and the weak areas with empty strings removed |
| Engine.GradeResultShape | edututor-ai/ai_engine.py:148-183 | `score <= total`, one feedback line per item tagged `Q{i+1}:`, no empty weak area |
| Text.WordsShape | edututor-ai/ai_engine.py:135 | `split()` yields non-empty tokens without whitespace |
| Text.WordsSplit | edututor-ai/ai_engine.py:135 | a whitespace character separates tokens: the tokens of `a + c + b` are those of `a` followed by those of `b` |
| Text.WordsOfJoin | edututor-ai/ai_engine.py:135 | splitting the space-join of non-empty, whitespace-free tokens gives the tokens back |
| Text.CleanTextWords | edututor-ai/ai_engine.py:26-27 | cleaning a text is joining its `split()` tokens with single spaces |
| Text.AlnumTokens | edututor-ai/ai_engine.py:168 | every token is a non-empty run of ASCII letters and digits |
| Text.AlnumTokensSplit | edututor-ai/ai_engine.py:168 | a non-alphanumeric character separates the tokens on its two sides |
| Text.Decimal | edututor-ai/ai_engine.py:154 | `str(n)` is a non-empty string of decimal digits |
| Text.DecimalInjective | edututor-ai/ai_engine.py:154 | different numbers have different decimal strings |
| Text.LinesOfJoin | edututor-ai/ai_engine.py:56 | splitting the newline-join of single-line bullets into lines gives them back |
| Text.LinesAppend | edututor-ai/ai_engine.py:56-57 | when `x` does not end at a line boundary, the lines of `x + "\n" + y` are the lines of `x` followed by those of `y` |
| Text.LinesOfHeader | edututor-ai/ai_engine.py:33 | the header `l1\nl2\n\n` ahead of a body splits into `l1`, the lines of `l2`, an empty line and the body's lines, for a single-line `l1` and an `l2` that does not end at a line boundary |
| Users.NormalizeEmail | edututor-ai/utils.py:53 | a normalised email has no whitespace at either end and no upper-case letter |
| Users.NormalizeEmailIdempotent | edututor-ai/utils.py:53 | normalising a stored email again leaves it as it is |
| Users.FindUser | edututor-ai/utils.py:69-72 | a found user is stored and matches email and password; nothing is found exactly when no stored user matches both |
| Users.RegisterReply | edututor-ai/utils.py:52-63 | registration succeeds exactly when its message is "Registered" and exactly when it adds one user; earlier users are kept; a failure changes nothing |
| Users.RegisterOutcome | edututor-ai/utils.py:56-60 | a missing email or password or an unknown role gives the input message, a taken email gives "Email already registered.", and success happens exactly when neither applies |
| Users.RegisterKeepsUnique | edututor-ai/utils.py:59-61 | registration never lets two accounts share an email |
| Users.SignInAfterRegister | edututor-ai/utils.py:53-71 | right after registering, signing in with the same password and the same email in any case or padding finds the new record |
| Users.FindUserStable | edututor-ai/utils.py:61-71 | an account that signs in keeps signing in as the same record whatever is appended later |
| Users.UserStore.constructor | edututor-ai/utils.py:18-28 | a new user file holds the two demo accounts, whose emails differ |
| Users.UserStore.Register | edututor-ai/utils.py:52-63 | returns the reply and leaves the user list as `RegisterReply` says, keeping emails unique |
| Users.UserStore.Authenticate | edututor-ai/utils.py:66-72 | the early-return loop finds the first user matching the normalised email and stripped password |
| Results.ReadCell | edututor-ai/utils.py:79 | a weak-areas cell reads back as missing exactly when its text is one of the reader's NA markers |
| Results.ReadCellStable | edututor-ai/utils.py:113-115 | a weak-areas cell written as its text (empty when missing) and read back as text gives the same cell |
| Results.NewRow | edututor-ai/utils.py:100-112 | the new row carries the given fields; its weak areas are missing exactly when the text is an NA marker |
| Results.ResultLog.constructor | edututor-ai/utils.py:29-34 | a new table has no rows |
| Results.ResultLog.SaveStudentResult | edututor-ai/utils.py:98-115 | the table afterwards is the old rows followed by exactly one new row |
| Results.SumsBounded | edututor-ai/utils.py:161 | over rows with `0 <= score <= total` the score sum lies between 0 and the total sum |
| Results.PercentBounds | edututor-ai/utils.py:161 | a ratio of a valid score is between 0 and 100, and equals 100 exactly when score equals total |
| Results.ReportAverageBounds | edututor-ai/utils.py:161 | the report average is between 0 and 100, equals 100 exactly when every item was passed, and an empty table averages 0 |
| Results.SubjectGroups | edututor-ai/utils.py:170-171 | one group per distinct subject, in first-occurrence order |
| Results.BySubjectSpec | edututor-ai/utils.py:170-173 | the ranking is a permutation of the subject groups, in non-increasing order of percentage, with each subject once and with its own group's value |
| Results.BySubjectCovers | edututor-ai/utils.py:170-171 | every subject in the table is ranked, and only those |
| Results.ReportPiecesSpec | edututor-ai/utils.py:187 | every counted piece is a stripped, non-empty `,`-separated part of the cell, and every such part is counted |
| Results.CountWeakAreas | edututor-ai/utils.py:180-188 | the nested loops leave `counts` equal to the counter of all pieces of the rows that have weak areas |
| Seqs.TallyCounts | edututor-ai/utils.py:185-188 | the counter has one entry per distinct piece, in first-occurrence order, each with its number of occurrences |
| Results.TopCountsOrder | edututor-ai/utils.py:189 | `min(6, distinct)` entries for the report, with no repeated piece and non-increasing counts |
| Results.TopCountsTies | edututor-ai/utils.py:185-189 | entries with equal counts appear in the order their pieces were first encountered |
| Results.TopCountsValues | edututor-ai/utils.py:185-189 | each reported count is the number of occurrences of its piece |
| Results.TopCountsMostFrequent | edututor-ai/utils.py:189 | a piece that is not reported occurs no more often than any reported piece |
| Sorting.SortDescStable | edututor-ai/utils.py:189 | the sort keeps the relative order of elements with equal keys |
| Sorting.SortDescPerm | edututor-ai/utils.py:189 | the sort is a permutation |
| Sorting.SortDescSorted | edututor-ai/utils.py:189 | the sort's result is in non-increasing key order |
| Dashboard.BuildAnswers | edututor-ai/app.py:117-125 | the answers map has key `q_{i}` for exactly the item indexes, with response i under `q_{i}` |
| Dashboard.AnswersGraded | edututor-ai/app.py:117-129 | under that map `grade_quiz_submission` grades item i against response i |
| Dashboard.StudentName | edututor-ai/app.py:137 | the stored name is the user's name, or the email when the name is empty |
| Dashboard.StoredTopic | edututor-ai/app.py:139 | the stored topic is the first `min(100, len(topic))` characters of the topic text |
| Dashboard.FeedbackSummary | edututor-ai/app.py:145 | the summary is a prefix of the `"; "`-join of length exactly `min(500, len(join))`, so the whole join when that fits |
| Dashboard.SplitWeakAreas | edututor-ai/app.py:211 | splitting on `", "` yields at least one piece |
| Text.SplitJoin | edututor-ai/app.py:144 | splitting a join on a borderless separator that occurs in no piece gives the pieces back |
| Dashboard.WeakAreasRoundTrip | edututor-ai/app.py:209-212 | the teacher view's `", "`-split of the stored `", "`-join gives back a non-empty list whose entries contain no `", "` |
| Dashboard.NoWeakAreasReadAsMissing | edututor-ai/app.py:144 | an empty weak-area list is stored as an empty cell, which reads back as missing |
| Dashboard.SubmitQuiz | edututor-ai/app.py:129-146 | submitting grades the answers and appends exactly one row with the user, the truncated topic, the score and total, the joined weak areas and the truncated feedback |
| Dashboard.AveragesAgree | edututor-ai/app.py:161 | with a non-negative total the dashboard average equals the report average |
| Dashboard.DashboardAverageBounds | edututor-ai/app.py:195 | over valid rows the average is between 0 and 100, and exactly 100 when every item was passed |
| Dashboard.StudentRowsSpec | edututor-ai/app.py:154 | the student's rows are exactly the rows with their email |
| Dashboard.StudentAverageOwnRows | edututor-ai/app.py:154-161 | rows of other users, wherever they sit in the table, do not change the student's average |
| Dashboard.FilterRows | edututor-ai/app.py:182-186 | filtering never adds rows |
| Dashboard.FilterRowsSpec | edututor-ai/app.py:183-186 | a row is shown exactly when, for each of the two filters, the selection is empty or contains the row's value |
| Dashboard.PivotValue | edututor-ai/app.py:205 | a group's bar is missing exactly when its total is not positive, and otherwise equals the group's average |
| Dashboard.SubjectPivot | edututor-ai/app.py:205 | there is one bar per subject present in the rows |
| Dashboard.PivotSpec | edututor-ai/app.py:205 | over valid rows a bar is missing exactly when its group's total is 0, and a present bar is between 0 and 100 |
| Dashboard.SavedRowExplodes | edututor-ai/app.py:209-212 | a saved row whose weak areas contain no `", "` explodes back into that list |
| Dashboard.TeacherWeakCountsSpec | edututor-ai/app.py:209-215 | at most five distinct areas, each with its number of occurrences among the exploded entries, in non-increasing order of count; an area left out occurs no more often than any area shown |

## Left out

- File I/O is not modelled. This covers:
  - reading and writing `users.json` and `student_data.csv`;
  - `ensure_demo_files_exist`, apart from the two starting states (the demo
    users and an empty table);
  - `_load_users` falling back to an empty list on a missing or malformed
    file.

  The user list and the result table are in-memory sequences held by a
  class.
- Results.ReadCellStable: holds for cells read as text only. The table reader
  also infers column types, and that is not modelled. A `weak_areas` column
  whose present cells all look numeric (say "1984" beside empty cells) is
  read as floats, and the next rewrite stores "1984.0".
- The table reader's NA handling is modelled only for the `weak_areas`
  column, where `dropna` makes it matter. Other columns read back exactly as
  written, and their types are fixed (strings, and integers for score and
  total).
- User records always have all four fields. The `u.get(...)` defaults for
  missing keys are not modelled. Inputs are strings, so the `(x or "")`
  defaulting of `None` is not modelled either.
- The submitted answers are strings, so `str(...)` on a non-string answer is
  not modelled. Likewise `item.get(..., default)` on a missing item field.
- The text-generation model is not modelled. This covers its pipeline,
  prompt and sampling parameters, and the exceptions it may raise. Its
  output after the prompt is an `Option<string>` parameter; `None` stands
  for "not asked for, unavailable, or raised".
- `use_llm` is not a parameter of `Engine.GenerateQuizItems`, because it has
  no effect on the quiz items.
- `random.choice` is not modelled. Each draw is a supplied index in 0..3,
  and every property holds for all draws.
- The clock (`datetime.utcnow().isoformat()`) is not modelled. The timestamp
  is an opaque string parameter.
- The Streamlit UI and session state are not modelled. The value each quiz
  widget returns is a parameter of `Dashboard.BuildAnswers`.
- Several dashboard displays are outside the modelled expressions:
  - the recent-results table (`head(20)`);
  - "Most Recent Score", whose division is unguarded;
  - "Active Students";
  - the sorted option lists of the multiselect filters.
- PDF and chart rendering, and the `:.1f` float formatting of the printed
  percentages, are not modelled. Only the numbers are.
- `Text.Lower` lower-cases ASCII letters only. Python's `str.lower` also
  maps other Unicode letters.
- Results.BySubjectSpec: states that the ranking is non-increasing and a permutation of
  the groups, but not the order among equal percentages. The table library's
  sort does not fix that order, and groupby first orders subjects by name;
  the model keeps first-occurrence order.
- Dashboard.SubjectPivot: the pivot is a map from subject to value, so the order
  of the chart's bars (by subject name) is not modelled.
- Dashboard.TeacherWeakCountsSpec: does not state the order among equal counts,
  because the library does not define it. `Dashboard.TeacherWeakCounts`
  happens to use first-occurrence order.
- The two weak-area splits differ and are modelled as they are. The report
  splits on `","` and strips each piece (`Results.ReportPieces`). The
  teacher view splits on `", "` and does not strip (`Dashboard.SplitWeakAreas`).
- Engine.FallbackNotesLines, Engine.GeneratedNotesLines: state the exact
  lines only for a single-line topic. For a topic over several lines,
  Engine.FallbackNotesAnyTopic and Engine.GeneratedNotesAnyTopic give the
  lines in terms of the topic line's own lines. Subject and difficulty are
  single-line labels from fixed option lists (`app.py:76-77`).
- `register_user`'s failure message asks for a name, but the name is never
  checked. The model follows the code: an empty name is accepted.
