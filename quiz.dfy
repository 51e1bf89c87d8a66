/**
 * The quiz step (src/components/QuizView.tsx): grading a spoken answer,
 * writing the spaced-repetition outcome into the session's word list, and
 * moving to the next word or finishing the session. Speech, rendering and
 * timers are not modelled; `now` is the clock.
 */
module Quiz {
  import opened Types
  import Text
  import Srs

  /** The answer test: the lower-cased answer contains the lower-cased term. */
  predicate IsCorrect(input: string, term: string)
    ensures IsCorrect(input, term) ==> |term| <= |input|
  {
    Text.Contains(Text.ToLower(input), Text.ToLower(term))
  }

  /** Saying exactly the term is always right. */
  lemma ExactAnswerIsCorrect(term: string)
    ensures IsCorrect(term, term)
  {
    Text.ContainsSelf(Text.ToLower(term));
  }

  /** The term said inside a longer sentence is right. */
  lemma AnswerInSentenceIsCorrect(pre: string, term: string, post: string)
    ensures IsCorrect(pre + term + post, term)
  {
    Text.ToLowerAppend(pre + term, post);
    Text.ToLowerAppend(pre, term);
    Text.ContainsInfix(Text.ToLower(pre), Text.ToLower(term), Text.ToLower(post));
  }

  /** Case does not matter: lower-casing the answer first grades the same. */
  lemma CaseInsensitive(input: string, term: string)
    ensures IsCorrect(Text.ToLower(input), term) == IsCorrect(input, term)
    ensures IsCorrect(input, Text.ToLower(term)) == IsCorrect(input, term)
  {
    Text.ToLowerIdempotent(input);
    Text.ToLowerIdempotent(term);
  }

  /** An empty term is accepted whatever is said; a term longer than the answer never is. */
  lemma CorrectnessEdges(input: string, term: string)
    ensures IsCorrect(input, "")
    ensures |term| > |input| ==> !IsCorrect(input, term)
  {
    Text.ContainsSelf(Text.ToLower(input));
  }

  /** `updateWordStats`: record one graded answer in the words carrying `id`. */
  function UpdateWordStats(words: seq<Word>, id: string, level: int, nextReviewAt: int, isWrong: bool, now: int): (r: seq<Word>)
    ensures |r| == |words|
    ensures forall i :: 0 <= i < |words| && words[i].id != id ==> r[i] == words[i]
    ensures forall i :: 0 <= i < |words| && words[i].id == id ==>
      (r[i].level == level && r[i].nextReviewAt == nextReviewAt && r[i].lastReviewedAt == now &&
       r[i].wrongCount == (if isWrong then words[i].wrongCount + 1 else words[i].wrongCount) &&
       r[i].id == id && r[i].term == words[i].term && r[i].definition == words[i].definition &&
       r[i].addedAt == words[i].addedAt && r[i].audioUrl == words[i].audioUrl)
  {
    seq(|words|, i requires 0 <= i < |words| =>
      if words[i].id == id then
        words[i].(level := level, nextReviewAt := nextReviewAt, lastReviewedAt := now,
                  wrongCount := if isWrong then words[i].wrongCount + 1 else words[i].wrongCount)
      else words[i])
  }

  /** `checkAnswer`'s effect on the session list: grade `current` and record the outcome. */
  function RecordAnswer(updated: seq<Word>, current: Word, input: string, now: int): (r: seq<Word>)
    ensures |r| == |updated|
    ensures forall i :: 0 <= i < |updated| ==> r[i].id == updated[i].id && r[i].term == updated[i].term
    ensures forall i :: 0 <= i < |updated| && updated[i].id != current.id ==> r[i] == updated[i]
    ensures forall i :: 0 <= i < |updated| && updated[i].id == current.id ==>
      r[i].lastReviewedAt == now &&
      (r[i].wrongCount == updated[i].wrongCount + 1 <==> !IsCorrect(input, current.term))
  {
    if IsCorrect(input, current.term) then
      var s := Srs.CalculateNextReview(current.level, now);
      UpdateWordStats(updated, current.id, s.nextLevel, s.nextReviewAt, false, now)
    else
      var s := Srs.ResetSRSLevel(now);
      UpdateWordStats(updated, current.id, s.nextLevel, s.nextReviewAt, true, now)
  }

  /** A right answer moves the word one level up on the table and leaves its error count alone. */
  lemma RightAnswerAdvances(updated: seq<Word>, current: Word, input: string, now: int, i: int)
    requires IsCorrect(input, current.term)
    requires 0 <= i < |updated| && updated[i].id == current.id
    ensures RecordAnswer(updated, current, input, now)[i]
         == updated[i].(level := Srs.CalculateNextReview(current.level, now).nextLevel,
                        nextReviewAt := Srs.CalculateNextReview(current.level, now).nextReviewAt,
                        lastReviewedAt := now)
  {
  }

  /** A wrong answer drops the word to level 1, due in ten minutes, with one more error. */
  lemma WrongAnswerResets(updated: seq<Word>, current: Word, input: string, now: int, i: int)
    requires !IsCorrect(input, current.term)
    requires 0 <= i < |updated| && updated[i].id == current.id
    ensures RecordAnswer(updated, current, input, now)[i]
         == updated[i].(level := 1, nextReviewAt := now + Srs.ShortestGapMs, lastReviewedAt := now,
                        wrongCount := updated[i].wrongCount + 1)
  {
  }

  /** Recording an answer keeps the list's length and every word's id, and touches only the answered word. */
  lemma RecordAnswerFrame(updated: seq<Word>, current: Word, input: string, now: int)
    ensures |RecordAnswer(updated, current, input, now)| == |updated|
    ensures forall i :: 0 <= i < |updated| ==> RecordAnswer(updated, current, input, now)[i].id == updated[i].id
    ensures forall i :: 0 <= i < |updated| && updated[i].id != current.id ==>
      RecordAnswer(updated, current, input, now)[i] == updated[i]
  {
  }

  /** The feedback state shown after an answer (`null`, `'correct'`, `'wrong'`). */
  datatype Feedback = NoFeedback | Correct | Wrong

  /** One quiz session over a non-empty list of words. */
  class QuizSession {
    const words: seq<Word>
    var currentIndex: nat
    var feedback: Feedback
    var updatedWords: seq<Word>
    /** The list handed to `onFinish`, once the last word has been answered. */
    var report: Option<seq<Word>>

    ghost predicate Valid()
      reads this
    {
      currentIndex < |words| && |updatedWords| == |words| &&
      (forall i :: 0 <= i < |words| ==> updatedWords[i].id == words[i].id) &&
      (report.Some? ==> currentIndex == |words| - 1)
    }

    /** The quiz starts on the first word with an unchanged copy of the list; an empty list never reaches the quiz. */
    constructor (ws: seq<Word>)
      requires |ws| > 0
      ensures Valid()
      ensures words == ws && currentIndex == 0 && feedback == NoFeedback && updatedWords == ws && report == None
    {
      words := ws;
      currentIndex := 0;
      feedback := NoFeedback;
      updatedWords := ws;
      report := None;
    }

    /**
     * `checkAnswer` followed by its delayed step: grade the current word,
     * record the outcome, then move to the next word or, on the last word,
     * finish and report the session list with this answer included.
     */
    method CheckAnswer(input: string, now: int)
      requires Valid() && report.None?
      modifies this
      ensures Valid()
      ensures updatedWords == RecordAnswer(old(updatedWords), words[old(currentIndex)], input, now)
      ensures old(currentIndex) < |words| - 1 ==>
        currentIndex == old(currentIndex) + 1 && feedback == NoFeedback && report == None
      ensures old(currentIndex) == |words| - 1 ==>
        currentIndex == old(currentIndex) && report == Some(updatedWords) &&
        feedback == (if IsCorrect(input, words[currentIndex].term) then Correct else Wrong)
    {
      var current := words[currentIndex];
      if IsCorrect(input, current.term) {
        feedback := Correct;
        var s := Srs.CalculateNextReview(current.level, now);
        updatedWords := UpdateWordStats(updatedWords, current.id, s.nextLevel, s.nextReviewAt, false, now);
      } else {
        feedback := Wrong;
        var s := Srs.ResetSRSLevel(now);
        updatedWords := UpdateWordStats(updatedWords, current.id, s.nextLevel, s.nextReviewAt, true, now);
      }
      if currentIndex < |words| - 1 {
        currentIndex := currentIndex + 1;
        feedback := NoFeedback;
      } else {
        report := Some(updatedWords);
      }
    }

    /**
     * `checkAnswer` as written: the delayed step reports the list captured
     * when the answer came in, before this answer was recorded.
     */
    method CheckAnswerAsWritten(input: string, now: int)
      requires Valid() && report.None?
      modifies this
      ensures Valid()
      ensures updatedWords == RecordAnswer(old(updatedWords), words[old(currentIndex)], input, now)
      ensures old(currentIndex) < |words| - 1 ==>
        currentIndex == old(currentIndex) + 1 && feedback == NoFeedback && report == None
      ensures old(currentIndex) == |words| - 1 ==>
        currentIndex == old(currentIndex) && report == Some(old(updatedWords)) &&
        feedback == (if IsCorrect(input, words[currentIndex].term) then Correct else Wrong)
    {
      var captured := updatedWords;
      var current := words[currentIndex];
      if IsCorrect(input, current.term) {
        feedback := Correct;
        var s := Srs.CalculateNextReview(current.level, now);
        updatedWords := UpdateWordStats(updatedWords, current.id, s.nextLevel, s.nextReviewAt, false, now);
      } else {
        feedback := Wrong;
        var s := Srs.ResetSRSLevel(now);
        updatedWords := UpdateWordStats(updatedWords, current.id, s.nextLevel, s.nextReviewAt, true, now);
      }
      if currentIndex < |words| - 1 {
        currentIndex := currentIndex + 1;
        feedback := NoFeedback;
      } else {
        report := Some(captured);
      }
    }
  }

  /**
   * The report as written loses the last answer: in a one-word quiz answered
   * right at time 1000, the list handed on still shows the word unreviewed at
   * level 0, while the recorded list has it at level 1, reviewed at 1000.
   */
  lemma StaleReportLosesLastAnswer()
    ensures var w := Word("w1", "apple", "sagwa", 0, 0, 0, 0, 0, None);
      var recorded := RecordAnswer([w], w, "apple", 1000);
      recorded != [w] && recorded[0].level == 1 && recorded[0].lastReviewedAt == 1000
  {
    var w := Word("w1", "apple", "sagwa", 0, 0, 0, 0, 0, None);
    ExactAnswerIsCorrect("apple");
    assert RecordAnswer([w], w, "apple", 1000)[0].level == 1;
  }

  /** The reported list includes the last answer: the answered word is marked reviewed at `now`. */
  lemma ReportIncludesLastAnswer(updated: seq<Word>, current: Word, input: string, now: int, i: int)
    requires 0 <= i < |updated| && updated[i].id == current.id
    ensures RecordAnswer(updated, current, input, now)[i].lastReviewedAt == now
    ensures RecordAnswer(updated, current, input, now)[i].level ==
      (if IsCorrect(input, current.term) then Srs.CalculateNextReview(current.level, now).nextLevel else 1)
  {
  }
}
