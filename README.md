# Vocalize scheduling and word collection, modelled in Dafny

Vocalize is a small vocabulary app. Learners collect word/definition pairs and
are quizzed by voice. A spaced-repetition engine decides when each word comes
back. This project models the logic behind that:

- **Spaced-repetition engine** (`srs.dfy`, module `Srs`). A fixed table of seven
  review intervals. A right answer moves a word one level up, capped at 7. A
  wrong answer drops it to level 1 with a ten-minute review. A filter selects
  the words that are due.
- **Word store** (`store.dfy`, module `Store`). The class `WordStore` holds the
  word list, the daily streak, the last study day and the points total. Each
  action (add, bulk add with case-insensitive de-duplication, delete, edit,
  partial update, finish quiz, record a study day) is a method. Each method is
  tied to a pure function on the list, and lemmas state what those functions
  keep: length, order, ids, and which words change.
- **Quiz step** (`quiz.dfy`, module `Quiz`). The answer test is a
  case-insensitive substring test. The class `QuizSession` records a graded
  answer in the session list and then moves to the next word or finishes.
- **Scanned-text parser** (`ocr.dfy`, module `Ocr`). Recognised text is split
  into lines, blank lines are dropped, and each line is split on `-`, `:` or
  `=`. Confirming adds one word per pair through the store.
- **Flashcard navigation** (`study.dfy`, module `Study`). A card index that
  wraps around in both directions, and a flip flag.

Shared pieces are `types.dfy` (the `Word` record and `Option`), `text.dfy`
(the JavaScript string operations the app relies on: `toLowerCase`,
`includes`, `trim` and `split` on single characters) and `seqs.dfy` (the
subsequence relation that states "order preserved").

The clock, id generation and calendar are parameters:

- `Date.now()` becomes `now` (epoch milliseconds), one instant per action. The
  source may read the clock several times within one action: `addWord` reads
  it for the creation and for the due time, and `checkAnswer` reads it in
  `calculateNextReview`/`resetSRSLevel` and again in `updateWordStats`. The
  model gives all these reads the same instant.
- `crypto.randomUUID()` becomes `freshId`, or `ids` with one id per candidate.
- The two date strings `updateStreak` compares become integer day keys `today`
  and `yesterday`.

The source does not keep levels in 0..7:

- A negative level is not clamped to 0. `calculateNextReview` raises it by one
  and, because `nextLevel - 1` is then outside the table, uses the last
  interval (`Srs.SuccessBelowTable`).
- The level is not kept within 0..7 by the store. `updateWord` may write any
  value, so `Word.level` is an unbounded integer.

## Model

| member | source | states |
|---|---|---|
| Srs.IntervalFor | src/utils/srs.ts:26 | the interval is the table entry at `nextLevel - 1` when that is an index and the last entry otherwise; it always lies between 600 and 2592000 s |
| Srs.CalculateNextReview | src/utils/srs.ts:24-30 | after a right answer the level is `currentLevel + 1` below 7 and 7 from 7 up, never above 7; the review is between 10 minutes and 30 days after `now` |
| Srs.ResetSRSLevel | src/utils/srs.ts:35-40 | after a wrong answer the level is 1 and the review is exactly 600000 ms after `now`, whatever the level was |
| Srs.IntervalsIncreasing | src/utils/srs.ts:11-19 | the interval table is strictly increasing |
| Srs.SuccessWithinTable | src/utils/srs.ts:25-27 | for levels 0..6 a right answer gives level + 1 and `now + SRS_INTERVALS[level] * 1000` |
| Srs.SuccessEndpoints | src/utils/srs.ts:24-30 | level 0 gives level 1 at now + 600000; level 6 gives level 7 at now + 2592000000 |
| Srs.SuccessWhenMastered | src/utils/srs.ts:25-27 | from level 7 or above a right answer keeps level 7 and schedules 30 days ahead |
| Srs.SuccessBelowTable | src/utils/srs.ts:26 | a negative level falls back to the last interval (30 days) |
| Srs.ScheduleShiftsWithClock | src/utils/srs.ts:27 | the review time is `now` plus a gap that depends only on the level |
| Srs.GapMonotone | src/utils/srs.ts:11-19 | a right answer from a higher non-negative level never opens a shorter gap, and a strictly longer one below level 7 |
| Srs.SucceedTimesLevel | src/utils/srs.ts:24-30 | k right answers in a row from a new word reach level min(k, 7) |
| Srs.MasteredAfterSevenSuccesses | src/utils/srs.ts:24-30 | seven or more right answers from level 0 end at level 7, reviewed 2592000000 ms after `now` |
| Srs.IsDue | src/utils/srs.ts:47 | a word whose review time is exactly `now` is due; a word that is not due has its review strictly after `now` |
| Srs.GetDueWords | src/utils/srs.ts:45-48 | the selection is no longer than the input and holds only input words that are due |
| Srs.DueMembership | src/utils/srs.ts:47 | a word is selected iff it is in the input and `nextReviewAt <= now` |
| Srs.DueIsSubsequence | src/utils/srs.ts:47 | the selection is an order-preserving subsequence of the input |
| Srs.DueAppend | src/utils/srs.ts:47 | selection distributes over joining lists; with the one-word case of the definition this fixes the result exactly, every due copy kept |
| Srs.DueIdempotent | src/utils/srs.ts:45-48 | selecting again at the same `now` gives the same sequence |
| Srs.DueAll | src/utils/srs.ts:47 | when every word is due the selection is the whole input |
| Srs.DueBoundary | src/utils/srs.ts:47 | of reviews at now - 1, now and now + 1 exactly the first two are selected (inclusive boundary) |
| Text.Contains | src/components/QuizView.tsx:70 | a string only includes needles no longer than itself |
| Text.ToLower | src/components/QuizView.tsx:70 | lower-casing keeps the length and maps each character on its own |
| Text.ToLowerAppend | src/components/QuizView.tsx:70 | lower-casing distributes over concatenation |
| Text.ContainsSelf | src/components/QuizView.tsx:70 | every string includes itself and the empty string |
| Text.ContainsInfix | src/components/QuizView.tsx:70 | a string includes whatever sits inside it |
| Text.TrimStart | src/components/OCRScanner.tsx:47 | only leading white space is removed, up to the first other character |
| Text.TrimEnd | src/components/OCRScanner.tsx:47 | only trailing white space is removed, back to the last other character |
| Text.Trim | src/components/OCRScanner.tsx:42-48 | trimming never lengthens a string, and a non-empty result starts and ends with a non-white character |
| Text.TrimShape | src/components/OCRScanner.tsx:47-48 | `trim` returns the slice between the white-space margins, starting and ending with non-white characters |
| Text.TrimEmptyIff | src/components/OCRScanner.tsx:42 | a line trims to empty iff it holds only white space (`IsBlank`) |
| Text.TrimIdempotent | src/components/OCRScanner.tsx:47-48 | trimming twice is trimming once |
| Text.FirstIn | src/components/OCRScanner.tsx:44 | the index found is that of the first separator, or the length when there is none |
| Text.SplitBy | src/components/OCRScanner.tsx:44 | a split always has at least one piece |
| Text.SplitAtFirst | src/components/OCRScanner.tsx:44 | the first piece is the text before the first separator and the rest is the split of what follows it; with no separator the split is the whole string |
| Text.SplitPiecesHaveNoSeparator | src/components/OCRScanner.tsx:44 | no piece of a split contains a separator |
| Text.SplitHasSeveralPieces | src/components/OCRScanner.tsx:44-45 | a split has at least two pieces iff the string holds a separator |
| Store.WithoutId | src/store/useWordStore.ts:68-70 | deletion leaves no word with the id and only words that were stored |
| Store.WithoutIdMembership | src/store/useWordStore.ts:69 | a word survives deletion iff it was stored and has another id |
| Store.WithoutIdIsSubsequence | src/store/useWordStore.ts:69 | the remaining words keep their original order |
| Store.WithoutIdAppend | src/store/useWordStore.ts:69 | deletion distributes over joining lists, so every copy of a word with another id is kept |
| Store.WithoutAbsentId | src/store/useWordStore.ts:69 | deleting an id no word carries changes nothing |
| Store.Edited | src/store/useWordStore.ts:72-76 | length, order, ids and every SRS field are kept; words with the id get the new term and definition; all other words are identical |
| Store.ApplyPatch | src/store/useWordStore.ts:82 | each field the update supplies replaces the word's own; each field it omits is kept |
| Store.EmptyPatchIdentity | src/store/useWordStore.ts:80-84 | an update supplying no field leaves the word as it was |
| Store.ApplyPatchIdempotent | src/store/useWordStore.ts:82 | applying the same update twice equals applying it once |
| Store.EditIsPatch | src/store/useWordStore.ts:72-84 | an edit is the update that supplies exactly term and definition |
| Store.Updated | src/store/useWordStore.ts:80-84 | length kept; words with the id take the supplied fields over their own; every other word is identical |
| Store.UpdatedWithEmptyPatch | src/store/useWordStore.ts:80-84 | an update supplying nothing leaves the list unchanged |
| Store.FindById | src/store/useWordStore.ts:89 | the result is absent iff no word has the id, and otherwise the first word with the id |
| Store.Merged | src/store/useWordStore.ts:86-91 | the merged list keeps length, order and every stored id; each word is either kept or taken from the quiz results |
| Store.MergedIgnoresUnknown | src/store/useWordStore.ts:88-90 | a stored word with no quiz result of its id stays as it was |
| Store.MergedTakesFirst | src/store/useWordStore.ts:89-90 | a stored word is replaced by the first quiz result carrying its id |
| Store.MergedWithNothing | src/store/useWordStore.ts:86-91 | merging an empty result list changes nothing |
| Types.NewWord | src/store/useWordStore.ts:34-44 | a new word carries the given id, term, definition and audio, starts at level 0 with no errors and no review, and is created and due at `now` |
| Store.IsKnownTerm | src/store/useWordStore.ts:51 | nothing is known to an empty store, and a term stored verbatim is known |
| Store.KnownTermIgnoresCase | src/store/useWordStore.ts:51 | lower-casing a candidate's term does not change whether it counts as a duplicate |
| Store.FreshWords | src/store/useWordStore.ts:48-61 | at most one word per candidate; every appended word is new (level 0, due now, never reviewed, no errors, no audio) and its term matches no stored term ignoring case |
| Store.FreshWordsAppend | src/store/useWordStore.ts:50-61 | survivors keep the input order: the result for a joined batch is the join of the results |
| Store.FreshWordsSingle | src/store/useWordStore.ts:51 | one candidate is kept iff no stored term equals its term ignoring case |
| Store.FreshWordsAllNew | src/store/useWordStore.ts:50-61 | duplicates are checked only against stored words: repeated terms inside a batch are all appended |
| Store.FreshWordsAllKnown | src/store/useWordStore.ts:50-65 | when every term is already stored nothing is appended |
| Store.NextStreak | src/store/useWordStore.ts:101-115 | the last study day becomes today; on the same day nothing changes; after yesterday the streak grows by 1, otherwise it restarts at 1 |
| Store.NextStreakIdempotent | src/store/useWordStore.ts:105 | recording the same day twice counts once |
| Store.StudyDaysStreak | src/store/useWordStore.ts:101-115 | studying on k consecutive days after a gap builds a streak of k |
| Store.NextStreakKeepsStateOk | src/store/useWordStore.ts:111-114 | a study day keeps the streak consistent and leaves it at least 1 |
| Store.WordStore.constructor | src/store/useWordStore.ts:27-30 | the store starts empty, with no streak, no study day and no points |
| Store.WordStore.AddWord | src/store/useWordStore.ts:33-46 | exactly one new word is appended (level 0, review and creation at `now`, never reviewed, no errors), even for a duplicate term; earlier words and other fields are unchanged |
| Store.WordStore.BulkAddWords | src/store/useWordStore.ts:48-66 | the surviving candidates are appended after the stored words; with no survivor the state is unchanged |
| Store.WordStore.DeleteWord | src/store/useWordStore.ts:68-70 | the list becomes the words without that id, in order; other fields unchanged |
| Store.WordStore.EditWord | src/store/useWordStore.ts:72-76 | the list becomes the edited list; other fields unchanged |
| Store.WordStore.UpdateWord | src/store/useWordStore.ts:80-84 | the list becomes the updated list; other fields unchanged |
| Store.WordStore.UpdateStreak | src/store/useWordStore.ts:101-115 | streak fields advance as `NextStreak` says; words and points unchanged; points stay a multiple of 10 and a streak exists iff a study day is recorded |
| Store.WordStore.FinishQuiz | src/store/useWordStore.ts:86-99 | words merged by id, points raised by exactly 10, then the study day recorded |
| Quiz.IsCorrect | src/components/QuizView.tsx:70 | an answer shorter than the term is never correct |
| Quiz.ExactAnswerIsCorrect | src/components/QuizView.tsx:70 | saying exactly the term is correct |
| Quiz.AnswerInSentenceIsCorrect | src/components/QuizView.tsx:70 | the term said inside a longer answer is correct |
| Quiz.CaseInsensitive | src/components/QuizView.tsx:70 | lower-casing answer or term first does not change the verdict |
| Quiz.CorrectnessEdges | src/components/QuizView.tsx:70 | an empty term is always accepted; a term longer than the answer never is |
| Quiz.UpdateWordStats | src/components/QuizView.tsx:98-111 | length kept; words with another id unchanged; the answered word gets the new level and review time, `lastReviewedAt = now`, one more error iff the answer was wrong, and keeps id, text, creation time and audio |
| Quiz.RecordAnswer | src/components/QuizView.tsx:70-83 | length, ids and terms are kept; words with another id are unchanged; the answered word is marked reviewed at `now` and gains one error iff the answer was wrong |
| Quiz.RightAnswerAdvances | src/components/QuizView.tsx:72-77 | a right answer sets level and review time from `calculateNextReview(word.level)` and leaves the error count alone |
| Quiz.WrongAnswerResets | src/components/QuizView.tsx:78-83 | a wrong answer sets level 1, review in 10 minutes, and adds exactly one error |
| Quiz.RecordAnswerFrame | src/components/QuizView.tsx:98-110 | recording an answer keeps length and ids and touches only words with the answered id |
| Quiz.QuizSession.constructor | src/components/QuizView.tsx:18-34 | a quiz starts on the first word with an unchanged copy of a non-empty list |
| Quiz.QuizSession.CheckAnswer | src/components/QuizView.tsx:69-96 | the answer is recorded; before the last word the index moves up by one and feedback clears; on the last word the session finishes and reports the list with this answer included; the index stays in range |
| Quiz.QuizSession.CheckAnswerAsWritten | src/components/QuizView.tsx:86-95 | as written, the finishing step shows the grade but reports the list as it was before the last answer |
| Quiz.StaleReportLosesLastAnswer | src/components/QuizView.tsx:93 | in a one-word quiz answered right at t = 1000 the recorded list differs from the captured one (level 1, reviewed at 1000) |
| Quiz.ReportIncludesLastAnswer | src/components/QuizView.tsx:98-108 | the recorded list marks the answered word reviewed at `now` with the level the grade gives |
| Ocr.NonBlank | src/components/OCRScanner.tsx:42 | only lines that are not all white space (equivalently, not empty after trimming) are kept, each from the input |
| Ocr.NonBlankMembership | src/components/OCRScanner.tsx:42 | a line is kept iff it occurs in the input and is not blank after trimming |
| Ocr.NonBlankIsSubsequence | src/components/OCRScanner.tsx:42 | the kept lines keep their original order |
| Ocr.NonBlankAppend | src/components/OCRScanner.tsx:42 | the filter distributes over joining lists, so repeated non-blank lines are all kept |
| Ocr.ParseLine | src/components/OCRScanner.tsx:44-51 | an empty line gives nothing; a pair's term and definition have no white space at either end |
| Ocr.ParseLines | src/components/OCRScanner.tsx:43-52 | at most one pair per line |
| Ocr.ParseText | src/components/OCRScanner.tsx:42-52 | no more pairs than non-blank lines |
| Ocr.ParseLineSomeIff | src/components/OCRScanner.tsx:44-51 | a line yields a pair iff it contains `-`, `:` or `=` |
| Ocr.ParseLineFields | src/components/OCRScanner.tsx:44-48 | term = trimmed text before the first separator; definition = trimmed text up to the second separator or the end; the rest is dropped |
| Ocr.LeadingSeparatorGivesEmptyTerm | src/components/OCRScanner.tsx:46-48 | a line starting with a separator gives a pair with an empty term |
| Ocr.BlankLineGivesNothing | src/components/OCRScanner.tsx:42 | a blank line yields no pair |
| Ocr.BlankFilterIsTransparent | src/components/OCRScanner.tsx:42-52 | dropping blank lines first does not change the pairs |
| Ocr.ParseLinesAppend | src/components/OCRScanner.tsx:43-52 | pairs follow line order: parsing distributes over joined line lists |
| Ocr.ParseOneLine | src/components/OCRScanner.tsx:43-52 | a single line gives its pair or nothing |
| Ocr.ConfirmedWords | src/components/OCRScanner.tsx:63 | one new word per pair, in order, with the pair's term and definition, level 0, created and due at `now`, never reviewed, no errors, no audio |
| Ocr.HandleConfirm | src/components/OCRScanner.tsx:62-65 | the store's list grows by exactly the confirmed words, in order; streak and points unchanged |
| Study.NextIndex | src/components/StudyView.tsx:32 | next stays in [0, n) and wraps from the last card to 0 |
| Study.PrevIndex | src/components/StudyView.tsx:37 | prev stays in [0, n) and wraps from 0 to n - 1 |
| Study.NextPrevInverse | src/components/StudyView.tsx:30-38 | prev after next, and next after prev, return to the original card |
| Study.NextTimes | src/components/StudyView.tsx:32 | any number of next presses stays in [0, n) |
| Study.NextTimesIsRotation | src/components/StudyView.tsx:32 | k <= n presses of next move k cards forward, wrapping once |
| Study.FullRound | src/components/StudyView.tsx:32 | n presses of next return to the starting card |
| Study.Flashcards.constructor | src/components/StudyView.tsx:15-16 | the screen opens on card 0, face down |
| Study.Flashcards.HandleNext | src/components/StudyView.tsx:30-33 | the card turns face down and the index becomes the next one |
| Study.Flashcards.HandlePrev | src/components/StudyView.tsx:35-38 | the card turns face down and the index becomes the previous one |
| Study.Flashcards.Flip | src/components/StudyView.tsx:70 | a click toggles the face and keeps the index, so two clicks restore it |

## Findings

| source | as written | input that shows it | evidently intended | confidence | as-written member | corrected member |
|---|---|---|---|---|---|---|
| src/components/QuizView.tsx:86-95 | the delayed step calls `onFinish(updatedWords)` with the list captured when the answer arrived, before `setUpdatedWords` records that answer, so the last word's result never reaches the store | a one-word quiz `[apple, level 0]` answered "apple" at t = 1000: the list handed to `finishQuiz` still has level 0 and `lastReviewedAt` 0 | report the list that includes the last answer (level 1, reviewed at 1000) | high (not executed) | Quiz.QuizSession.CheckAnswerAsWritten | Quiz.QuizSession.CheckAnswer |

`Quiz.StaleReportLosesLastAnswer` exhibits the difference on that input. `Quiz.ReportIncludesLastAnswer` states what the corrected report contains.

## Left out

- Rendering, styling, animation and the page layout are presentation only. This covers every component's JSX, src/app/page.tsx and src/app/layout.tsx. The quiz-word choice at src/app/page.tsx:34 and the mastered count at src/components/Dashboard.tsx:18 are one-line filters without a model of their own.
- Speech synthesis and recognition (src/hooks/useSpeech.ts), `handleStartVoice` and audio playback are browser APIs and asynchronous callbacks. The answer reaches `CheckAnswer` as a parameter.
- Quiz.QuizSession.CheckAnswer: the `isProcessing` and `userInput` states are not modelled. They only gate the voice button and show the heard text.
- Quiz.QuizSession.CheckAnswer: the three-second `setTimeout` between grading and advancing is not modelled. Grading and the delayed step are one atomic step.
- Text recognition with Tesseract, its progress logging and object URLs are a foreign library and I/O (src/components/OCRScanner.tsx:30-39).
- Google Drive and sheet sync (src/utils/googleDrive.ts, src/utils/gasSync.ts) are network plumbing. The store's `gasUrl` field and `setGasUrl` exist only for that sync, so they are left out too.
- `persist` and localStorage (src/store/useWordStore.ts:24-25, 117-119) are storage mechanics. The state lives in a plain class.
- `Date.now()`, `new Date()`, `crypto.randomUUID` and `Math.random` become parameters. No uniqueness of ids is assumed, so deletion, edits and merges act on every word carrying the id.
- Store.WordStore.UpdateStreak: the day keys `today` and `yesterday` are inputs, not computed. The source derives yesterday with local-time date arithmetic and formats both as UTC dates, and that calendar computation is not modelled.
- Ocr.HandleConfirm: every `addWord` call reads the clock on its own; the model uses one instant `now` for the whole confirmation.
- Text.ToLower: covers the ASCII and Latin-1 upper-case letters only. Full Unicode case mapping, including letters that lower-case to two characters, is not modelled.
- Numbers are unbounded integers. JavaScript's floating-point numbers, fractional levels and precision loss on very large timestamps are not modelled.
