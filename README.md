# GATE exam parsing and LLM answer evaluation, modelled in Dafny

This project models the engineering core of a pipeline that scores a large language model on a
GATE Computer Science question paper, and proves properties of that model. The core has two stages:

- **Text stage** (`parse-gate-question/process.py`):
  - `clean_text` deletes the header and footer banners of the extracted PDF text, collapses blank
    lines and strips the result;
  - `parse_answers` reads the answer-key table, one line at a time, into a dict from `Q<n>` to an
    answer;
  - `parse_questions` cuts the question paper into `Q.<n>` blocks. Each block becomes a question
    record: its number, text and options, a type read off the answer key (MCQ, MSQ, NAT or Unknown),
    marks from the number band, and its answer.
- **Evaluation stage** (`app-llm-evaluation/process.py`):
  - `ask_model` upper-cases and strips the model's reply and repairs MSQ answers;
  - `modelProcess` builds the ground truth and decides correctness, with a NAT range rule `a TO b`.
    It then awards marks with negative marking for wrong MCQs, keeps per-type counters, records a
    result per question and pauses after every batch;
  - `get_rate_limits` chooses the batch size and pause;
  - `resultProcess` summarises the results.

The modules follow the two files:

| module | covers |
|---|---|
| `Strings` (`strings.dfy`) | the Python string operations the code relies on: `strip`, `upper`, `find`, `in`, `split`, `join`, `splitlines`, `int` and `str` on digit strings, and the character classes `\s`, `\d` and `\w` |
| `Wrappers` (`wrappers.dfy`) | `Option` and `Result` |
| `CleanText` (`clean_text.dfy`) | `clean_text` |
| `AnswerKey` (`answer_key.dfy`) | `parse_answers` |
| `Questions` (`questions.dfy`) | `parse_questions` |
| `Numbers` (`numbers.dfy`) | `float()` on decimal text |
| `Scoring` (`scoring.dfy`) | `ask_model`'s result, the ground truth, `is_correct`, the marks and `get_rate_limits` |
| `Evaluation` (`evaluation.dfy`) | the loop of `modelProcess` |
| `Results` (`results.dfy`) | `resultProcess` |

How the source's features are modelled:

- **Regular expressions** are hand-written scanners. Each states, by its own lemmas, which match
  Python's backtracking produces.
- **Loops** that build a list or a dict are methods (`ParseAnswers`, `ParseQuestions`,
  `ModelProcess`). Each is proved equal to a fold function, and the properties are proved
  about that fold. The body of `modelProcess`'s loop is the method `Mark`, proved equal to one
  step `Next` of that fold.
- **Exceptions** are `Result` errors.
- **Marks** are integers in hundredths, so `-0.33` is `-33`.
- **`float()`** yields an exact real.
- **The model's replies** are parameters, one string per question.
- **The `MLC_GEMINI_MODEL` setting** is a parameter.

Behaviours of the code that the model reproduces:

- **The answer-key row `12  3  ABC  XYZ  A  1`.** The greedy `(.*)` of
  `parse-gate-question/process.py:47` captures `"A "`, with a trailing space, and that answer is
  typed NAT (`AnswerKey.FieldKeepsTrailingSpace`, `AnswerKey.EntryExamples`).
- **The MSQ ground truth.** `app-llm-evaluation/process.py:205` joins the key's labels in key order
  (`Scoring.GroundTruthOrder`).
- **A question of Unknown type.** `ask_model` raises at `app-llm-evaluation/process.py:107`, which
  ends the run (`Evaluation.RunFails`).
- **A question with no key entry.** `parse_questions` types it Unknown
  (`parse-gate-question/process.py:88-95`), so it too raises at `app-llm-evaluation/process.py:107`.
  A question record of known type without an answer raises at the `.strip()` of
  `app-llm-evaluation/process.py:207`. Either ends the run (`Evaluation.RunFails`).

## Model

| member | source | states |
|---|---|---|
| CleanText.Clean | parse-gate-question/process.py:28-40 | The cleaned text has no whitespace at either end. No whitespace stretch in it holds three line breaks. Collapsing and stripping it again changes nothing. |
| CleanText.CollapseShape | parse-gate-question/process.py:37 | After `re.sub(r'\n\s*\n', '\n\n', s)` no whitespace stretch holds three line breaks. Every remaining match of the pattern is already the two line feeds it would be replaced by. |
| CleanText.CollapseFixes | parse-gate-question/process.py:37 | The blank-line collapse leaves a string with nothing to collapse unchanged. |
| CleanText.Collapse | parse-gate-question/process.py:37 | The blank-line collapse never lengthens the text. What it keeps is stated by `CollapseKeepsText`, and its shape by `CollapseShape` and `CollapseFixes`. |
| CleanText.CollapseKeepsText | parse-gate-question/process.py:37 | The collapse rewrites only whitespace: the characters that are not whitespace are those of the input, in the same order. |
| CleanText.CleanKeepsText | parse-gate-question/process.py:28-40 | After the banners are deleted, `clean_text` only rewrites whitespace: the characters that are not whitespace are those left by the deletions, in the same order. |
| CleanText.NormalizeIdempotent | parse-gate-question/process.py:37-40 | Collapsing blank lines and then stripping is idempotent. |
| CleanText.Normalize | parse-gate-question/process.py:37-40 | Collapsing and stripping never lengthens the text and leaves no whitespace at either end. |
| CleanText.OptionalNewline | parse-gate-question/process.py:30 | The optional `\n?` after a banner consumes one character exactly when a line feed follows, and none otherwise. |
| CleanText.Remove | parse-gate-question/process.py:30-34 | `re.sub` of a banner never lengthens the text. |
| CleanText.RemoveKeep | parse-gate-question/process.py:30-34 | Where the banner does not match at the head, the scan keeps the first character and goes on with the rest. |
| CleanText.RemoveDrop | parse-gate-question/process.py:30-34 | Where the banner matches at the head, the match is dropped and the scan resumes right after it. |
| CleanText.RemoveShift | parse-gate-question/process.py:30-34 | A stretch at which the banner matches at no position is kept as it is. |
| CleanText.RemoveLeftmost | parse-gate-question/process.py:30-34 | The leftmost match is deleted: the text before it is kept, the match is dropped and the scan resumes after it. |
| CleanText.RemoveNoMatch | parse-gate-question/process.py:30-34 | Where the banner matches nowhere, the text is unchanged. |
| CleanText.MatchAt | parse-gate-question/process.py:30-34 | The banner match at the head of the text is never longer than the text. Which texts each banner matches is stated by the six banner lemmas below, in both directions. |
| CleanText.SubjectHeaderMatch | parse-gate-question/process.py:30 | `Computer Science and Information Technology (CS<digits>)` is matched in full, together with a line feed that follows it. |
| CleanText.SubjectHeaderShape | parse-gate-question/process.py:30 | The subject banner matches only text of that form, and the match has that length. |
| CleanText.PageFooterMatch | parse-gate-question/process.py:33 | `Organising Institute: IIT Roorkee Page <d> of <e>` with maximal digit runs is matched in full, together with a line feed that follows it. |
| CleanText.PageFooterShape | parse-gate-question/process.py:33 | The page footer matches only text of that form, and the match has that length. |
| CleanText.InstituteLineMatch | parse-gate-question/process.py:34 | `Organising Institute:` and the rest of its line are matched, up to and including the first line feed, or to the end of the text. |
| CleanText.InstituteLineShape | parse-gate-question/process.py:34 | The institute pattern matches only text of that form, and the match has that length. |
| CleanText.SubjectTail | parse-gate-question/process.py:30 | The `\d+\)\n?` part of the subject banner. Stated through `SubjectHeaderMatch` and `SubjectHeaderShape`. |
| CleanText.FooterTail | parse-gate-question/process.py:33 | The `\d+ of \d+\n?` part of the page footer. Stated through `PageFooterMatch` and `PageFooterShape`. |
| CleanText.InstituteTail | parse-gate-question/process.py:34 | The `.*` rest of the institute line, with the line feed or the end of text that closes it. Stated through `InstituteLineMatch` and `InstituteLineShape`. |
| CleanText.RemoveBanners | parse-gate-question/process.py:30-34 | The three deletions, in source order, never lengthen the text. |
| CleanText.PastLastBreak | parse-gate-question/process.py:37 | Within the leading whitespace stretch, the result is 0 exactly when the stretch has no line break. Otherwise the character before it is a line feed, and no line feed follows it in the stretch. So it is the index past the stretch's last line break. |
| CleanText.BreakRunAt | parse-gate-question/process.py:37 | A match of `\n\s*\n` exists exactly when the text starts with a line feed and its leading whitespace stretch holds two or more line breaks. The match starts and ends with a line feed, lies in that stretch, and no line feed of the stretch follows it. |
| AnswerKey.Runs | parse-gate-question/process.py:47 | The head `\d+\s+\d+\s+\w+\s+\S+` is found as consecutive maximal, non-empty runs of its classes. |
| AnswerKey.RunsComplete | parse-gate-question/process.py:47 | Any cutting of a line into maximal runs of the head's classes is the one the scanner finds. |
| AnswerKey.MatchRowSound | parse-gate-question/process.py:47 | Every accepted line has the shape of the row pattern. The first group is the leading digits. The field is the text that ends one space before the final digit. |
| AnswerKey.MatchRowComplete | parse-gate-question/process.py:47 | Every line with the row pattern's shape is accepted, with its leading digits as the id. The field is the text from the end of the spaces after the head to one space before the final digit. |
| AnswerKey.MatchRow | parse-gate-question/process.py:47 | The row pattern `^(\d+)\s+\d+\s+\w+\s+\S+\s+(.*)\s+\d$`. It has no contract of its own: `MatchRowSound` and `MatchRowComplete` state both directions. |
| AnswerKey.FieldAfter | parse-gate-question/process.py:47 | The greedy `\s+(.*)\s+\d$` tail, which backtracks to the last whitespace before a final digit. Stated through `MatchRowSound`, `MatchRowComplete` and `FieldKeepsTrailingSpace`. |
| AnswerKey.FieldKeepsTrailingSpace | parse-gate-question/process.py:47 | When two or more spaces precede the final digit, the captured answer ends with a space. |
| AnswerKey.EntryOf | parse-gate-question/process.py:51-56 | The field becomes a list of labels exactly when it holds a `;`. The list has at least two parts, none holding a `;`, and they join back to the field. Otherwise the field is stored unchanged. |
| AnswerKey.EntryExamples | parse-gate-question/process.py:51-56 | `"B;D"` is stored as the list `["B", "D"]`, and `"A "` as the string `"A "`. |
| AnswerKey.ParseAnswers | parse-gate-question/process.py:44-57 | The loop over `splitlines()` builds the dict of the fold over the lines' matches. |
| AnswerKey.AnswersOf | parse-gate-question/process.py:45-57 | The fold the loop computes. Its properties are `AnswersOfErr`, `AnswersRaise`, `AnswersKeys` and `AnswersLastWins`. |
| AnswerKey.AddRow | parse-gate-question/process.py:48-56 | One loop step: a matching row stores its entry under `Q<id>` and overwrites an earlier one. Stated through `AnswersKeys` and `AnswersLastWins`. |
| AnswerKey.AnswersOfErr | parse-gate-question/process.py:50 | Once a row has raised, the remaining lines change nothing. |
| AnswerKey.AnswersRaise | parse-gate-question/process.py:50 | Parsing raises exactly when some matched row has an empty field. |
| AnswerKey.AnswersKeys | parse-gate-question/process.py:48-49 | The dict's keys are exactly the `Q<id>` of the lines that match. |
| AnswerKey.AnswersLastWins | parse-gate-question/process.py:52-56 | A key holds the entry of the last row that carries it. |
| Questions.NextMarker | parse-gate-question/process.py:61 | The lookahead after a block stops at the first marker at or after the index, or at the end. |
| Questions.BlocksCover | parse-gate-question/process.py:61 | The blocks `findall` returns, one after another, are the text from its first `Q.<digit>` marker on. |
| Questions.BlocksMarked | parse-gate-question/process.py:61 | Each block holds exactly one marker, at its start. |
| Questions.BlocksFrom | parse-gate-question/process.py:61 | The `findall` scan from an index. Stated through `BlocksCover` and `BlocksMarked`. |
| Questions.Blocks | parse-gate-question/process.py:61 | The `findall` of lazy `Q.<digits>` blocks, each running up to the next marker or the end. Stated through `BlocksCover` and `BlocksMarked`. |
| Questions.OptionEnd | parse-gate-question/process.py:74 | The lazy option text stops at the first point where `\n(` or the end of the text follows. |
| Questions.OptionPairs | parse-gate-question/process.py:74 | Every option found has a label among A-D, and its text holds no `\n(`. Which options are found is stated by `OptionPairsOfLines` and `OptionExampleSwallow`. |
| Questions.OptionPairsOfLines | parse-gate-question/process.py:74 | Options laid out one per line, as `\n(<label>) <text>` with single-line texts that have non-space ends, are all found, in order, each with its text. |
| Questions.OptionPairsSkip | parse-gate-question/process.py:74 | A stretch without an `(A)`-`(D)` marker, followed by a line feed or the end, yields no option: scanning from any point in it finds what scanning from its end finds. |
| Questions.OptionExampleSwallow | parse-gate-question/process.py:74 | The greedy `\s*` after a marker runs over a line feed, so `(A)\n(B) two` yields the single option `A` with the text `(B) two`. |
| Questions.DictOfLast | parse-gate-question/process.py:74 | `dict(pairs)` has a label exactly when some pair carries it. The label maps to the text of the last such pair. |
| Questions.DictOfFrom | parse-gate-question/process.py:74 | Every entry of the options dict comes from some pair. |
| Questions.DictOf | parse-gate-question/process.py:74 | `dict(pairs)`. Stated through `DictOfLast` and `DictOfFrom`. |
| Questions.OptionsOf | parse-gate-question/process.py:74 | The option labels are among A-D, and no option text holds a `\n(`. |
| Questions.OptionsOfLines | parse-gate-question/process.py:74 | For a marker-free question text followed by option lines, the options dict is the dict of exactly those options. |
| Questions.TextOfLines | parse-gate-question/process.py:76-78 | For a stripped, marker-free question text followed by option lines starting with `(A)`, the question text is that text. |
| Questions.TypeOf | parse-gate-question/process.py:88-95 | The type is MSQ for a list answer and MCQ for a single label `A`-`D`. It is NAT for any other string and Unknown when there is no answer. |
| Questions.MarksFor | parse-gate-question/process.py:98-103 | The marks are 1 or 2. They are 2 exactly for questions 6-10 and 36-65. |
| Questions.BlockHead | parse-gate-question/process.py:65-69 | The head `Q.(\d+)\s+` matches exactly when the block starts with `Q.`, then a non-empty run of digits, then a non-empty run of whitespace. It then returns the ends of the maximal digit run and of the maximal whitespace run after it. |
| Questions.ParseBlock | parse-gate-question/process.py:65-113 | A block whose stripped form has no head yields nothing. Otherwise, with `c` the stripped rest after the whitespace: the block is skipped exactly when the text before the first `(A)` of `c`, stripped, is a skipped text. The question is numbered `int` of the digits, carries that text and the options of `c`, and its answer is looked up under `Q<n>`, with type and marks following from the answer and the number. |
| Questions.ParseFormatted | parse-gate-question/process.py:65-78 | For a block `Q.<str(n)><whitespace><body>` with a stripped, non-empty body, the question gets number `n`, the body's text and options, and is skipped exactly when that text is a skipped text. |
| Questions.ParseBlockOf | parse-gate-question/process.py:65-113 | For any block `Q.<digits><whitespace><body>` with a stripped, non-empty body, the result is given in closed form. The question gets number `int(digits)` with leading zeros read, the body's text and options, and the answer, type and marks of that number. It is skipped exactly when the text is a skipped text. |
| Questions.BlockHeadOf | parse-gate-question/process.py:65-69 | The head of `Q.<digits><whitespace><body>` ends after the digits and after the whitespace. |
| Questions.ParseLaidOut | parse-gate-question/process.py:60-113 | A question laid out as `Q.<digits> <text>`, followed by option lines starting with `(A)`, yields that question: number `int(digits)`, the text, exactly those options, and the key's answer, type and marks. It is skipped only when the text is a skipped text. |
| Questions.PresentMembers | parse-gate-question/process.py:106 | A question is emitted exactly when some block yields it. |
| Questions.PresentAppend | parse-gate-question/process.py:64-113 | The questions of consecutive stretches of blocks follow each other in block order. |
| Questions.QuestionsWellFormed | parse-gate-question/process.py:60-115 | Every emitted question comes from some block and satisfies that block's rules. |
| Questions.ParseQuestions | parse-gate-question/process.py:60-115 | The loop's list is the questions of the blocks that yield one, in block order. |
| Questions.QuestionsOf | parse-gate-question/process.py:60-115 | The list `parse_questions` returns, as a function. Stated through `PresentMembers`, `PresentAppend`, `QuestionsWellFormed` and `ParseQuestions`. |
| Numbers.ParseNatural | app-llm-evaluation/process.py:215 | `float(str(n)) == n`. |
| Numbers.ParseMinus | app-llm-evaluation/process.py:215 | `float("-" + t)` is the negation of the unsigned reading of `t`, and fails where that fails. |
| Numbers.ParseFraction | app-llm-evaluation/process.py:213 | `float(w + "." + d)` for digit strings is `w + d / 10^len(d)`. |
| Numbers.NoDigitNoNumber | app-llm-evaluation/process.py:213-219 | Text without a digit is not a number, so `float` raises. |
| Numbers.ParseNumber | app-llm-evaluation/process.py:213-215 | `float()` on stripped, optionally signed decimal text. Stated through `ParseNatural`, `ParseMinus`, `ParseFraction` and `NoDigitNoNumber`. |
| Numbers.Unsigned | app-llm-evaluation/process.py:213-215 | The unsigned part of `float()`: digits, an optional fraction and an optional exponent. Stated through `ParseNatural` and `ParseFraction`. |
| Numbers.ExponentFrom | app-llm-evaluation/process.py:213-215 | The optional `e`/`E` exponent of `float()`. It has no lemma of its own. |
| Scoring.ReplaceCharUndo | app-llm-evaluation/process.py:141 | After `replace(",", ";")` no comma is left, and where the text held no `;` the replacement is undone by replacing `;` with `,`. |
| Scoring.RemoveChar | app-llm-evaluation/process.py:141 | `replace(" ", "")` leaves no space and keeps every other character as often as it occurred. A text without spaces is unchanged. |
| Scoring.RemoveCharAppend | app-llm-evaluation/process.py:141 | Removing spaces works piece by piece: on a concatenation it is the concatenation of the pieces with spaces removed, so the order of the kept characters is preserved. |
| Scoring.Fold | app-llm-evaluation/process.py:141 | The folded answer holds no comma and no space. |
| Scoring.Spread | app-llm-evaluation/process.py:142 | The test for a run of two or more `ABCD` letters. Stated through `NormaliseMsqShape`. |
| Scoring.Interleave | app-llm-evaluation/process.py:143 | `";".join(s)` has length `2n - 1`, with the characters of `s` at even positions and `;` at odd ones. |
| Scoring.InterleaveJoin | app-llm-evaluation/process.py:143 | Joining a string's characters with `;` is the join of its one-character strings. |
| Scoring.SplitInterleave | app-llm-evaluation/process.py:143 | Splitting the repaired answer on `;` gives its letters back. |
| Scoring.NormaliseMsq | app-llm-evaluation/process.py:139-143 | A repaired MSQ answer holds no comma and no space. |
| Scoring.NormaliseMsqShape | app-llm-evaluation/process.py:139-143 | The repair spreads a run of two or more letters into letters joined by `;`, so that splitting on `;` gives the letters back. Any other answer stays as folded. |
| Scoring.NormaliseMsqIdempotent | app-llm-evaluation/process.py:139-143 | Repairing a repaired answer changes nothing. |
| Scoring.AskModel | app-llm-evaluation/process.py:106-145 | `ask_model` raises exactly for an unknown question type or model type, and the type is checked first. Otherwise the answer is the stripped, upper-cased reply, repaired when the question is MSQ. |
| Scoring.GroundTruth | app-llm-evaluation/process.py:204-207 | The ground truth fails exactly when the question has no answer. A text key gives its stripped, upper-cased text. A list key gives its stripped, upper-cased labels joined by `;`. |
| Scoring.GroundTruthOrder | app-llm-evaluation/process.py:205 | The MSQ ground truth splits back into the stripped, upper-cased labels in key order, unsorted. |
| Scoring.RangeRule | app-llm-evaluation/process.py:210-222 | A range answer is correct exactly when the key splits on `TO` into two numbers and the model's answer is a number between them. A malformed range or answer is wrong, never an error. |
| Scoring.RangeOf | app-llm-evaluation/process.py:213 | The bounds of `a TO b`. Stated through `RangeRule`. |
| Scoring.IsCorrect | app-llm-evaluation/process.py:210-224 | The `is_correct` decision. Stated through `RangeRule` and `ExactRule`. |
| Scoring.ExactRule | app-llm-evaluation/process.py:223-224 | Anywhere else, correctness is string equality. |
| Scoring.Award | app-llm-evaluation/process.py:228-250 | Marks are the question's marks when correct. A wrong MCQ gets -0.33 or -0.67 for 1 or 2 marks, and a wrong MSQ or NAT gets 0. In the unassigned cases `marks` keeps its previous value. |
| Scoring.Penalty | app-llm-evaluation/process.py:239-244 | Negative marks are added exactly for a wrong MCQ worth 1 or 2 marks. |
| Scoring.AwardBounded | app-llm-evaluation/process.py:228-252 | For 1- or 2-mark questions of known type, the award does not depend on the previous one. It lies between -0.67 and the full marks, and it is the negated penalty unless the answer is correct. |
| Scoring.RateLimitsFor | app-llm-evaluation/process.py:148-159 | Batch size and pause are positive. Gemini batches are at most 6, and a model that is neither gemini nor openai gets 35 and 60. |
| Evaluation.GradeFails | app-llm-evaluation/process.py:202-207 | Grading a question raises exactly for an unknown question type, an unknown model or a missing answer, with the corresponding error. |
| Evaluation.Grade | app-llm-evaluation/process.py:202-224 | `ask_model`, the ground truth and `is_correct` for one question. Stated through `GradeFails` and `EvaluateRecord`. |
| Evaluation.Next | app-llm-evaluation/process.py:226-287 | The loop body after grading. Stated through `Mark`, `SumsSnoc`, `CountSnoc` and `EvaluateRecord`. |
| Evaluation.Evaluate | app-llm-evaluation/process.py:199-288 | The fold the loop computes. Stated through the `Evaluate` lemmas below. |
| Evaluation.Run | app-llm-evaluation/process.py:181-288 | `modelProcess` as a function of the replies. Stated through `RunFails` and `Results.RunSummary`. |
| Evaluation.EvaluateSnoc | app-llm-evaluation/process.py:199-288 | One more question extends the run so far by its grade and its marking. |
| Evaluation.ErrorPersists | app-llm-evaluation/process.py:199-288 | Once a prefix of the run raises, the whole run raises the same error. |
| Evaluation.Mark | app-llm-evaluation/process.py:226-287 | Marking one graded question updates the totals, the counters, the results, `cnt` and the pause count as the loop body does. |
| Evaluation.ModelProcess | app-llm-evaluation/process.py:162-288 | The method's loop computes the fold of the questions' grades. An unknown model type is rejected before the loop. |
| Evaluation.EvaluateLast | app-llm-evaluation/process.py:199-288 | A successful run is its prefix's run followed by marking the last question. |
| Evaluation.EvaluateFails | app-llm-evaluation/process.py:199-288 | A run raises exactly when some grade raises, and then it raises the first one's error. |
| Evaluation.EvaluateLength | app-llm-evaluation/process.py:260-270 | Every question gets one record, and `cnt` counts them. `marks` is left at the last record's marks. |
| Evaluation.EvaluatePrefix | app-llm-evaluation/process.py:260-267 | The run over the first `i` questions produces the first `i` records of the whole run. |
| Evaluation.EvaluateRecord | app-llm-evaluation/process.py:226-267 | Record `k` holds question `k`'s number and type, both answers and the verdict. Its marks are those awarded after the previous record's marks. |
| Evaluation.SumsSnoc | app-llm-evaluation/process.py:252 | The sums of marks grow by the new record's marks. |
| Evaluation.CountSnoc | app-llm-evaluation/process.py:228-250 | A counter grows by one exactly when the new record has its type and verdict. |
| Evaluation.EvaluateTotals | app-llm-evaluation/process.py:227-252 | `totalMarks` is the sum of the questions' marks, and `marksObtained` is the sum of the recorded marks. |
| Evaluation.EvaluateCounts | app-llm-evaluation/process.py:228-250 | Each per-type counter counts the records of its type with its verdict. |
| Evaluation.EvaluatePauses | app-llm-evaluation/process.py:270-287 | Pauses happen after every `batch_size` questions: `len(questions) // batch_size` in all. |
| Evaluation.EvaluateBounds | app-llm-evaluation/process.py:226-252 | On 1- and 2-mark questions of known type, `marksObtained` is the credit of the correct answers less `negativeMarks`. It lies between -0.67 per question and `totalMarks`. |
| Evaluation.RunFails | app-llm-evaluation/process.py:181-207 | `modelProcess` raises exactly for an unknown model type or for a question with an unknown type or no answer. The model type is checked first; otherwise the first such question decides the error. |
| Results.CorrectCount | app-llm-evaluation/process.py:320 | The number of correct records is at most the number of records. |
| Results.Summarize | app-llm-evaluation/process.py:320-341 | Correct plus wrong is the number of records, and the total marks are the sum of the recorded marks. Accuracy lies in 0-100 and is `100 * correct / total`, or 0 for no records. |
| Results.CountsCover | app-llm-evaluation/process.py:228-321 | Over records of known types, the correct records are the per-type correct ones, and likewise the wrong ones. |
| Results.RunSummary | app-llm-evaluation/process.py:162-341 | For a completed run, the summary's correct and wrong counts are the per-type counters summed. Its total is the number of questions and its total marks are `marksObtained`. The six counters sum to the number of questions. |
| Strings.Strip | parse-gate-question/process.py:40 | `strip()` returns the middle of the text, without whitespace at either end, and the removed ends are whitespace. |
| Strings.NonSpaceStrip | parse-gate-question/process.py:40 | `strip()` removes only whitespace: the other characters are kept, in order. |
| Strings.StripNoSep | parse-gate-question/process.py:77-78 | Stripping a string that does not contain a pattern gives a string that does not contain it either. |
| Strings.Split | parse-gate-question/process.py:52 | `split` gives one piece exactly when the separator does not occur, and no piece holds it. The first piece is the text before the first occurrence, or the whole text. |
| Strings.JoinSplit | parse-gate-question/process.py:51-52 | Joining the pieces of a split with the separator gives the string back. |
| Strings.SplitJoin | app-llm-evaluation/process.py:205 | Splitting on a one-character separator undoes a join of pieces that do not contain it. |
| Strings.FindFirstSeparator | app-llm-evaluation/process.py:205 | In `a + sep + t` with no separator in `a`, the first separator found is the one after `a`. |
| Strings.Upper | app-llm-evaluation/process.py:112 | `upper()` keeps the length. Each lower-case ASCII letter becomes its capital, every other character is kept, and no lower-case ASCII letter remains. |
| Strings.UpperIdempotent | app-llm-evaluation/process.py:112 | Upper-casing an upper-cased text changes nothing. |
| Strings.SplitLines | parse-gate-question/process.py:46 | `splitlines()` yields lines without line breaks. |
| Strings.SplitLinesJoin | parse-gate-question/process.py:46 | Lines joined by `\n`, the last one non-empty, split back into the same lines. |
| Strings.DigitsValueOfNatToString | parse-gate-question/process.py:69-70 | `int(str(n)) == n`. |
| Strings.NatToStringOfDigitsValue | parse-gate-question/process.py:69-70 | `str(int(s)) == s` for a digit string without a leading zero. |

## Left out

- **PDF text extraction and downloads** (`extractProcess`, file and JSON I/O, `app.py`) are not part of this model. They are I/O.
- **`get_model_info`, the API clients and the prompt texts of `ask_model`** are external calls. The model's reply to each question is a parameter.
- **`initialize_model`'s API-key checks** are left out. Only the rejection of an unknown model type before the loop is modelled (`Evaluation.Run`).
- **Environment settings** are left out, as is the `.lower()` of `MLC_MODEL_TYPE`. The model type and `MLC_GEMINI_MODEL` are parameters.
- **Timing, `time.sleep` and `total_sleep_time`** are left out. Only the number of rate-limit pauses is modelled.
- **`print` output and the `matplotlib` chart** are left out.
- **Character classes and case.** `\s` follows Python's `str.isspace`. `\d` and `\w` are restricted to ASCII characters, and `upper()` changes only ASCII letters.
- **Marks and totals** are exact integers in hundredths. Python's binary floating-point rounding of `-0.33` and its sums is not modelled.
- **`Numbers.ParseNumber`** reads signed decimal text with an optional exponent as an exact real. It does not accept `inf`, `nan`, digit underscores or non-ASCII digits. Its properties are stated for naturals, negation, fractions and digit-free text only.
- `Evaluation.ModelProcess`:
  - a raised error ends the run with that error, and no partial results are written;
  - `ask_model`'s own model-type error cannot occur after `initialize_model`, and is kept only in `Scoring.AskModel`.
- **`accuracy`** is an exact real, `100 * correct / total`. Python's rounded float is not modelled. For an empty result list the model gives `0.0`, where Python gives the int `0`.
- `Questions.OptionPairsOfLines`: the options found are proved only for the usual layout: one option per line as `\n(<label>) <text>`, each text on one line with non-space ends. Other layouts are covered only by the shape facts of `Questions.OptionPairs` and by `Questions.OptionExampleSwallow`.
- `Questions.OptionsOfLines`: as above, and the question text before the options must hold no `(A)`-`(D)` marker.
- `Questions.TextOfLines`: requires the first option line to be `(A)`, because the question text is cut at the first `(A)`.
- `Questions.ParseLaidOut`: requires the first option line to be `(A)`, for the same reason.
- **`resultProcess`'s file name and `model_info`** are output metadata and are not modelled.
