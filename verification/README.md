# Quiz document compiler: a Dafny model

This project models the logic of a browser quiz (`src/App.tsx`). It covers four parts:

1. **The content normaliser** (`loadQuestions`, lines 38-49). It turns newline runs into one space and collapses whitespace runs. It then deletes the closing tags `</variant>`, `</variantright>` and `</question>`, trims the text, and rejects an empty result.
2. **The tag extractor** (lines 52-90). The content is split on `<question>` and the empty pieces are dropped.
   - **Stem.** The text before the first `<variant`-prefixed tag, trimmed.
   - **Plain options.** The trimmed texts after each exact `<variant>` tag. Blank ones are dropped.
   - **Answer.** The text after the first `<variantright>` tag. It is appended to the options when it is missing from them.
   - **Validation.** A piece becomes a question only when both the stem and the answer are non-empty. Its options are then shuffled.
   - **Failure.** The load fails when no question survives.
3. **`shuffleArray`** (lines 104-111). Fisher-Yates on a copy of the array.
4. **The quiz progress handlers** (lines 113-141) and the option button guard (lines 204-205).

Modules, in dependency order:

| module | file | models |
|---|---|---|
| `Wrappers` | `wrappers.dfy` | `Option` for the source's `null` results, `Result` for its thrown errors |
| `Text` | `text.dfy` | the JavaScript whitespace set, `indexOf`, `includes`, `trim` |
| `Markup` | `markup.dfy` | the tag vocabulary |
| `Normalise` | `normalise.dfy` | the chained `replace` calls and `trim` (lines 38-45) |
| `Segments` | `segments.dfy` | `split('<question>')` and `filter(Boolean)` (lines 52-53) |
| `Extract` | `extract.dfy` | the three regular expressions and the validation of one piece (lines 54-84) |
| `Shuffle` | `shuffle.dfy` | `shuffleArray` (lines 104-111) |
| `Loader` | `loader.dfy` | the whole `loadQuestions` pipeline after text extraction (lines 38-90) |
| `Progress` | `progress.dfy` | the handlers and the screen's event guards (lines 113-141, 172-309) |

Each regular expression is restated as a scan over tag positions:

- **Line 56.** `(.*?)(?=<variant|<variantright)` is "the text up to the first `<variant`". The lookahead `<variantright` starts with `<variant`, so it adds nothing.
- **Line 63.** `<variant>(.*?)(?=<variant|<variantright|$)` with the `g` flag gives one field per `<variant>` tag. Each field runs to the next `<variant` or to the end. The scan for the next match resumes where the field stops.
- **Line 70.** `<variantright>(.*?)(?=<variant|$)` has no `g` flag, so only the first `<variantright>` counts.

A regular expression's `.` does not match line terminators, but the scans read every character. On normalised content the two agree, because `Normalise.Normalise` proves that such content holds no line terminators.

Randomness is a parameter:

- A `Shuffle.Chooser` gives, for each step `i` of the loop, a swap index in `[0, i]`. This stands in for `Math.floor(Math.random() * (i + 1))`.
- A `Loader.Oracle` gives one chooser per segment.

A few behaviours of the code shape the model:

- **One answer per question.** `correctAnswer` is a single string (line 8). It comes from the first `<variantright>` only (line 70), and any later `<variantright>` is ignored.
- **Repeated options are kept.** Plain options are not deduplicated (lines 64-67). Only the answer is kept from being appended twice (line 74).
- **Questions stay in document order.** Only the options of each question are shuffled (line 82). No subset of questions is sampled.
- **Where a field ends.** A field ends at any text starting with `<variant`, for example `<variants`, not only at `<variant>` or `<variantright>`.

## Model

| member | source | states |
|---|---|---|
| `Text.Trim` | src/App.tsx:45 | Whitespace is the ECMAScript WhiteSpace and LineTerminator set (`Text.IsSpace`), the set used by both `\s` and `trim`. `trim` leaves no whitespace at either end and returns a contiguous piece of its input made of input characters. The result is empty exactly when the input is all whitespace. |
| `Text.TrimDropsOnlySpace` | src/App.tsx:45 | Everything `trim` removes is whitespace: the result sits in the input with only whitespace before and after it. |
| `Text.TrimOfTrimmed` | src/App.tsx:45 | Trimming text that already has no whitespace at either end returns it unchanged. |
| `Text.Find` | src/App.tsx:56 | The leftmost-occurrence search finds an index exactly when the pattern occurs, and the index it finds is the first occurrence. |
| `Normalise.ReplaceRuns` | src/App.tsx:40-41 | `replace(/X+/g, ' ')` maps empty to empty and introduces no characters other than spaces. Its first character is a space when the input starts with a class character, and is the input's first character otherwise. No class character other than a space is left. |
| `Normalise.ReplaceNewlineRuns` | src/App.tsx:40 | `replace(/\n+/g, ' ')` maps empty to empty and leaves no newline. |
| `Normalise.CollapseWhitespace` | src/App.tsx:41 | `replace(/\s+/g, ' ')` maps empty to empty, leaves no whitespace character other than a plain space, and never leaves two whitespace characters in a row. |
| `Normalise.ReplaceRunsKeepsText` | src/App.tsx:41 | When the space is in the class, the replacement leaves no two class characters adjacent, and every character outside the class survives in order. |
| `Normalise.RunBecomesOneSpace` | src/App.tsx:40-41 | Each maximal run of class characters becomes exactly one space, and the text on either side of it is replaced on its own. |
| `Normalise.ReplaceRunsSplits` | src/App.tsx:40-41 | Cutting the text at a place that splits no run cuts the replaced text at the matching place. |
| `Normalise.ReplaceRunsOfRun` | src/App.tsx:40-41 | A text made only of class characters becomes a single space. |
| `Normalise.ReplaceRunsKeepsPlainText` | src/App.tsx:40-41 | Text with no class character passes through unchanged. |
| `Normalise.ReplaceRunsKeepsCount` | src/App.tsx:40-41 | Every character that is neither in the class nor a space keeps its number of occurrences. |
| `Normalise.RemoveAll` | src/App.tsx:42-44 | Deleting a literal tag never lengthens the text and introduces no new characters. |
| `Normalise.RemoveAllKeepsOtherChars` | src/App.tsx:42-44 | Deleting a tag keeps the count of every character that does not occur in the tag. |
| `Normalise.RemoveAllAbsent` | src/App.tsx:42-44 | Text without the tag passes through the deletion unchanged. |
| `Normalise.Cleaned` | src/App.tsx:39-44 | After the four `replace` calls, every whitespace character is a plain space. |
| `Normalise.Normalise` | src/App.tsx:38-45 | Normalised content has no whitespace at either end, uses plain spaces only, and holds no line terminator. |
| `Normalise.TrimKeepsCount` | src/App.tsx:45 | Trimming keeps the number of occurrences of every non-whitespace character. |
| `Normalise.NormaliseKeepsText` | src/App.tsx:38-45 | Every character that is not whitespace and not one of `< / > a e g h i n o q r s t u v` (the letters of the three closing tags) occurs as often in the normalised content as in the document. |
| `Normalise.TextSurvivesNormalisation` | src/App.tsx:38-45 | A document holding such a character normalises to non-empty content that still holds it. |
| `Normalise.NormaliseWithoutClosingTags` | src/App.tsx:38-45 | When the whitespace-collapsed document holds none of `</variant>`, `</variantright>` and `</question>`, the normalised content is exactly that collapsed document, trimmed. Nothing else is removed, so every opening tag survives. |
| `Normalise.NewlinePassIsAbsorbed` | src/App.tsx:40-41 | The newline pass followed by the whitespace pass gives the same result as the whitespace pass alone. |
| `Normalise.CollapseIsIdempotent` | src/App.tsx:41 | Collapsing whitespace a second time changes nothing. |
| `Normalise.BlankTextNormalisesEmpty` | src/App.tsx:38-45 | A document that is all whitespace normalises to the empty string. |
| `Normalise.SinglePassCanReformTag` | src/App.tsx:42 | The single deletion pass is not a full clean-up: `</vari</variant>ant>` leaves a new `</variant>` behind. |
| `Normalise.TagRemovalCanLeaveDoubleSpace` | src/App.tsx:41-45 | Deleting tags after collapsing whitespace can leave two spaces in a row: `a </variant> b` normalises to `a  b`. |
| `Segments.Split` | src/App.tsx:52 | `split` returns at least one piece, no piece contains the separator, and joining the pieces with the separator gives back the input. |
| `Segments.DropEmpty` | src/App.tsx:53 | `filter(Boolean)` keeps exactly the non-empty pieces. |
| `Segments.DropEmptyAppend` | src/App.tsx:53 | `filter(Boolean)` works piece by piece: one piece is kept exactly when it is non-empty, and filtering a concatenation concatenates the filtered halves. So the kept pieces keep their order and repeats. |
| `Segments.Segments` | src/App.tsx:52-53 | Every segment is non-empty and free of `<question>`. |
| `Segments.LeadingTextIsFirstSegment` | src/App.tsx:52-53 | Non-empty text before the first `<question>` is the first segment. |
| `Segments.ConcatSplit` | src/App.tsx:52 | Concatenating the pieces of a split equals deleting every separator in one left-to-right pass. |
| `Segments.SegmentsSpellContent` | src/App.tsx:52-53 | The segments, read in order, spell the content with its `<question>` tags deleted: nothing is lost, repeated or reordered. |
| `Extract.Field` | src/App.tsx:63 | A field is the text before the first index at which `<variant` starts, or the whole string when there is none. |
| `Extract.Stem` | src/App.tsx:56-59 | A stem exists exactly when the segment contains `<variant`. When it exists, it is the trimmed text before the first `<variant` and contains no `<variant`. |
| `Extract.AnswerKeyImpliesStem` | src/App.tsx:56-71 | Every `<variantright>` also starts with `<variant`, so a segment with an answer key always has a stem. |
| `Extract.VariantFields` | src/App.tsx:63 | No raw field of the global match contains `<variant`. |
| `Extract.FieldsFromTag` | src/App.tsx:63 | The matches from any `<variant>` tag onward are a tail of the segment's matches, and their first field is the text that follows that tag. |
| `Extract.FieldAfterEachVariantTag` | src/App.tsx:63 | The text after each `<variant>` tag, up to the next `<variant` or the end, is a field at the position given by the number of earlier `<variant>` tags. |
| `Extract.OneFieldPerVariantTag` | src/App.tsx:63 | The global match yields exactly one field per `<variant>` tag in the segment. |
| `Extract.NonBlank` | src/App.tsx:64-67 | The `forEach` that trims each field and pushes the non-empty ones never yields more options than there are fields. |
| `Extract.NonBlankKeepsEveryFilledField` | src/App.tsx:64-67 | When every field has text, each one yields its trimmed text, in order and with repeats. |
| `Extract.NonBlankAppend` | src/App.tsx:64-67 | The options are built field by field. A blank field yields nothing and a filled field yields its trimmed text, so exactly the blank fields are skipped. The options of concatenated field lists are the concatenated options. |
| `Extract.NonBlankAreOptions` | src/App.tsx:64-67 | When no field contains `<variant`, every kept option is non-empty, trimmed and free of `<variant`. |
| `Extract.PlainOptions` | src/App.tsx:62-67 | Every plain option of a segment is non-empty, trimmed and free of `<variant`. |
| `Extract.AnswerKey` | src/App.tsx:70-73 | An answer key exists exactly when the segment contains `<variantright>`. It is the trimmed field after the first `<variantright>`. |
| `Extract.WithAnswer` | src/App.tsx:74-76 | The option list is kept as a prefix. A non-empty answer ends up in the list, and it is appended exactly when it is non-empty and missing. |
| `Extract.Candidate` | src/App.tsx:55-80 | A segment yields a question exactly when both its stem and its answer key are non-empty. The question is assembled from those parts. It is well formed: non-empty stem and answer, and the answer is among non-blank, trimmed options. |
| `Shuffle.Swap` | src/App.tsx:108 | The destructuring swap exchanges the two positions and leaves every other position alone. |
| `Shuffle.Shuffled` | src/App.tsx:104-111 | The shuffle of a copy has the length of its input. |
| `Shuffle.ShufflePermutes` | src/App.tsx:104-111 | Whatever the random draws, the shuffle returns the same elements with the same multiplicities. |
| `Shuffle.ShuffleFromKeepsTail` | src/App.tsx:106-109 | The loop never touches a position above the step it is at. |
| `Shuffle.LastSlotIsFirstDraw` | src/App.tsx:106-108 | The last position holds the element picked by the first draw. |
| `Shuffle.SelfSwapsKeepOrder` | src/App.tsx:106-108 | When every draw picks the step's own index, the order is unchanged; all reordering comes from the draws. |
| `Shuffle.ShuffleArray` | src/App.tsx:104-111 | The loop computes the shuffle of its copy and returns a permutation of the input. |
| `Loader.ParseSegment` | src/App.tsx:55-84 | A segment yields a question exactly when it has a candidate. The question differs from the candidate only in option order, so it stays well formed. |
| `Loader.Parsed` | src/App.tsx:54-85 | The `.map` over the segments gives exactly one entry per segment. |
| `Loader.Present` | src/App.tsx:86 | The null filter never returns more values than it is given. |
| `Loader.PresentMembers` | src/App.tsx:86 | The null filter keeps exactly the present values. |
| `Loader.PresentAppend` | src/App.tsx:86 | The null filter works entry by entry: filtering a concatenation concatenates the filtered halves, so the kept values stay in order. |
| `Loader.PresentSkipsNone` | src/App.tsx:86 | A missing entry is dropped and leaves the values on both sides as they were. |
| `Loader.ParseAll` | src/App.tsx:54-86 | Each segment that yields a question gives one entry, in segment order. Each entry is its candidate with the options reordered. |
| `Loader.Message` | src/App.tsx:48-89 | Each failure carries a non-empty message: "No content found in document" or "No valid questions found in the document. Please check the document format.". |
| `Loader.MessageIdentifiesError` | src/App.tsx:48-89 | The two failures carry different messages, so the message tells which failure happened. |
| `Loader.LoadQuestions` | src/App.tsx:38-90 | The load fails with "No content found" exactly when the normalised text is empty. It fails with "No valid questions" exactly when no segment yields a question. Otherwise it returns one question per surviving segment. |
| `Loader.KeptAreWellFormed` | src/App.tsx:73-86 | Every surviving candidate is a well-formed question. |
| `Loader.LoadedQuestionsAreWellFormed` | src/App.tsx:73-90 | Every loaded question has a non-empty stem and a non-empty answer, and the answer is among its options. |
| `Loader.DroppedSegmentLeavesOthers` | src/App.tsx:54-86 | A segment that yields no question is dropped without changing what the other segments yield. |
| `Loader.OutcomeIgnoresOracle` | src/App.tsx:82-90 | Whether a load succeeds, and how many questions it returns, does not depend on the random draws. |
| `Loader.BlankDocumentHasNoContent` | src/App.tsx:38-49 | A document that is all whitespace fails with "No content found". |
| `Loader.TextualDocumentHasContent` | src/App.tsx:38-49 | A document holding a character that is neither whitespace nor part of a closing tag never fails with "No content found". |
| `Progress.AnswerClick` | src/App.tsx:113-119 | An answer raises the score by one exactly when it equals the correct answer, and otherwise leaves the score as it was. It records the choice and shows "Next". |
| `Progress.NextQuestion` | src/App.tsx:121-129 | It advances by one exactly when another question remains, and then clears the selection and hides "Next". Otherwise it shows the result and leaves the index, the selection and "Next" as they were. The score never changes. |
| `Progress.ResetQuiz` | src/App.tsx:131-137 | `resetQuiz` zeroes the index and the score, clears the selection and lowers both flags. |
| `Progress.EndQuiz` | src/App.tsx:139-141 | Ending shows the result and keeps the index, the score, the selection and the "Next" flag. |
| `Progress.Step` | src/App.tsx:168-309 | One button press, where a disabled or missing button changes nothing. This covers the screen's guards, including the loading text that replaces every button while there are no questions. A press raises the score by at most one, and only an answer chosen while nothing is selected and the result is hidden can raise it. |
| `Progress.StepKeepsConsistent` | src/App.tsx:113-141 | Every enabled event keeps the shown index in range, keeps "Next" shown exactly while an answer is selected, and scores at most one answer per question reached. |
| `Progress.RunKeepsConsistent` | src/App.tsx:113-141 | Any sequence of events keeps the state consistent. |
| `Progress.ScoreAtMostQuestionCount` | src/App.tsx:204-205 | With the guard that accepts an answer only while nothing is selected, the score never exceeds the number of questions. |
| `Progress.UnguardedClicksOvercount` | src/App.tsx:113-119 | Without that guard, two clicks on the right answer of a one-question quiz score 2. |
| `Progress.PerfectPlayScoresAll` | src/App.tsx:113-129 | When the questions are well formed, answering each one correctly reaches the result screen with a full score. |
| `Progress.ResetForgetsHistory` | src/App.tsx:131-137 | "Try Again" returns to the initial state whatever came before. With no questions only the loading text is shown, so there is no button and nothing changes. |

## Left out

- Fetching the document and extracting its text (src/App.tsx:29-35, `mammoth.extractRawText`) is network I/O and a foreign library. The model takes the extracted text as its input string. `result.value || ''` is taken to be that string, and src/types/mammoth.d.ts is not part of this model.
- `Math.random` and `Math.floor` (src/App.tsx:107) are floating point. They are replaced by the `Chooser` parameter, which is constrained to `[0, i]`. Uniformity of the shuffle is a probabilistic claim and is not modelled.
- React plumbing is not modelled: `useState`, `useEffect`, the loading and error flags, `console` logging, and the `setQuestions`/`setError` calls in the `catch` block (src/App.tsx:12-23, 92-100). The model returns the `LoadError`, and `Loader.Message` gives the text that would be shown.
- JSX rendering (src/App.tsx:143-314) is reduced to which buttons are enabled. The percentage on the result screen (line 297) uses float division and `Math.round`, so it is not modelled.
- React batches state updates and `setScore(score + 1)` reads the score captured by the closure. The model treats each handler as one atomic step. This agrees with the code because each handler runs once per event.
- `Shuffle.ShuffleArray` works on a sequence value rather than a mutable array. The copy `[...array]` makes the argument unobservable anyway.
- `Shuffle.ShuffleArray` returns early for an empty input, while the source just skips the loop. The two give the same result.
- `Extract.Stem` and the other scans read every character, whereas a regular expression's `.` does not match line terminators, so a match cannot cross one. This only matters for text that still holds line terminators, and normalised content does not.
- tailwind.config.js is styling only.
- `Normalise.Normalise` does not promise single spaces or the absence of closing tags. The code promises neither, and `Normalise.TagRemovalCanLeaveDoubleSpace` and `Normalise.SinglePassCanReformTag` show inputs where each fails.
- `Normalise.ReplaceRuns`, `Normalise.Cleaned` and `Normalise.Normalise` state only the shape of their result in their own contracts. What they replace and what they keep is stated by `Normalise.RunBecomesOneSpace`, `Normalise.ReplaceRunsKeepsPlainText` and `Normalise.NormaliseWithoutClosingTags`. `Normalise.NormaliseKeepsText` counts only characters outside whitespace and the closing tags' letters `< / > a e g h i n o q r s t u v`.
- `Extract.NonBlank` bounds only the number of options in its own contract. Its content is stated by `Extract.NonBlankAppend` and `Extract.NonBlankAreOptions`.
- Strings are sequences of Unicode characters, while JavaScript strings are UTF-16 code units, so a character outside the Basic Multilingual Plane is one element here and two units there, and a lone surrogate cannot be written. No tag, separator or whitespace character is a surrogate, so the normaliser, the splitter and the scans cut the text at the same places. Only lengths differ, and the source never uses lengths of document text.
