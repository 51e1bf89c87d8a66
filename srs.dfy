/**
 * The spaced-repetition engine (src/utils/srs.ts): a fixed table of review
 * intervals, the level step on a right answer, the reset on a wrong answer
 * and the selection of words whose review time has come. The wall clock is
 * the parameter `now` (epoch milliseconds).
 */
module Srs {
  import opened Types
  import Seqs

  /** Review intervals in seconds; entry `k` belongs to level `k + 1`. */
  const Intervals: seq<int> := [600, 3600, 86400, 259200, 604800, 1209600, 2592000]

  /** The top level: the length of the interval table. */
  const MaxLevel: int := 7

  /** Ten minutes and thirty days, in milliseconds. */
  const ShortestGapMs: int := 600_000
  const LongestGapMs: int := 2_592_000_000

  /** The pair `{ nextLevel, nextReviewAt }` both schedulers return. */
  datatype Schedule = Schedule(nextLevel: int, nextReviewAt: int)

  function Min(a: int, b: int): int
  {
    if a <= b then a else b
  }

  /**
   * The table entry for a level, `SRS_INTERVALS[nextLevel - 1]`, falling back
   * to the last entry when that index is outside the table.
   */
  function IntervalFor(nextLevel: int): (seconds: int)
    ensures 0 <= nextLevel - 1 < |Intervals| ==> seconds == Intervals[nextLevel - 1]
    ensures !(0 <= nextLevel - 1 < |Intervals|) ==> seconds == Intervals[|Intervals| - 1]
    ensures 600 <= seconds <= 2592000
  {
    if 0 <= nextLevel - 1 < |Intervals| then Intervals[nextLevel - 1]
    else Intervals[|Intervals| - 1]
  }

  /** `calculateNextReview`: the schedule after a right answer at `currentLevel`. */
  function CalculateNextReview(currentLevel: int, now: int): (r: Schedule)
    ensures r.nextLevel <= MaxLevel
    ensures currentLevel < MaxLevel ==> r.nextLevel == currentLevel + 1
    ensures currentLevel >= MaxLevel ==> r.nextLevel == MaxLevel
    ensures now + ShortestGapMs <= r.nextReviewAt <= now + LongestGapMs
  {
    var nextLevel := Min(currentLevel + 1, |Intervals|);
    Schedule(nextLevel, now + IntervalFor(nextLevel) * 1000)
  }

  /** `resetSRSLevel`: the schedule after a wrong answer, whatever the level was. */
  function ResetSRSLevel(now: int): (r: Schedule)
    ensures r.nextLevel == 1
    ensures r.nextReviewAt - now == ShortestGapMs
  {
    Schedule(1, now + Intervals[0] * 1000)
  }

  /** The gap a right answer at `level` opens before the next review. */
  function SuccessGap(level: int): int
  {
    CalculateNextReview(level, 0).nextReviewAt
  }

  /** The table lists strictly longer intervals for higher levels. */
  lemma IntervalsIncreasing()
    ensures forall i, j :: 0 <= i < j < |Intervals| ==> Intervals[i] < Intervals[j]
  {
  }

  /** From a level inside the table a right answer moves one level up and uses that level's interval. */
  lemma SuccessWithinTable(level: int, now: int)
    requires 0 <= level < MaxLevel
    ensures CalculateNextReview(level, now) == Schedule(level + 1, now + Intervals[level] * 1000)
  {
  }

  /** The first success schedules ten minutes ahead; the success from level 6 reaches level 7 and thirty days. */
  lemma SuccessEndpoints(now: int)
    ensures CalculateNextReview(0, now) == Schedule(1, now + 600_000)
    ensures CalculateNextReview(6, now) == Schedule(7, now + 2_592_000_000)
  {
  }

  /** A mastered word stays at the top level and is scheduled thirty days ahead. */
  lemma SuccessWhenMastered(level: int, now: int)
    requires level >= MaxLevel
    ensures CalculateNextReview(level, now) == Schedule(MaxLevel, now + LongestGapMs)
  {
  }

  /** A negative level indexes outside the table, so the last interval is used. */
  lemma SuccessBelowTable(level: int, now: int)
    requires level < 0
    ensures CalculateNextReview(level, now) == Schedule(level + 1, now + LongestGapMs)
  {
  }

  /** The schedule moves with the clock: only the gap depends on the level. */
  lemma ScheduleShiftsWithClock(level: int, now: int)
    ensures CalculateNextReview(level, now).nextReviewAt == now + SuccessGap(level)
  {
  }

  /** A success from a higher (non-negative) level never opens a shorter gap. */
  lemma GapMonotone(a: int, b: int)
    requires 0 <= a <= b
    ensures SuccessGap(a) <= SuccessGap(b)
    ensures b < MaxLevel && a < b ==> SuccessGap(a) < SuccessGap(b)
  {
    IntervalsIncreasing();
    var ia := Min(a + 1, MaxLevel) - 1;
    var ib := Min(b + 1, MaxLevel) - 1;
    assert SuccessGap(a) == Intervals[ia] * 1000;
    assert SuccessGap(b) == Intervals[ib] * 1000;
  }

  /** The schedule after `k >= 1` right answers in a row from `level`, the clock held at `now`. */
  function SucceedTimes(level: int, k: nat, now: int): Schedule
    requires k >= 1
  {
    if k == 1 then CalculateNextReview(level, now)
    else CalculateNextReview(SucceedTimes(level, k - 1, now).nextLevel, now)
  }

  /** `k` right answers in a row from a new word reach level `min(k, 7)`. */
  lemma {:induction false} SucceedTimesLevel(k: nat, now: int)
    requires k >= 1
    ensures SucceedTimes(0, k, now).nextLevel == Min(k, MaxLevel)
  {
    if k > 1 {
      SucceedTimesLevel(k - 1, now);
    }
  }

  /** Seven or more right answers from a new word end at level 7 with a thirty-day horizon. */
  lemma MasteredAfterSevenSuccesses(k: nat, now: int)
    requires k >= 7
    ensures SucceedTimes(0, k, now) == Schedule(MaxLevel, now + LongestGapMs)
  {
    SucceedTimesLevel(k - 1, now);
  }

  /**
   * The word is due: its review time has arrived. The boundary is inclusive;
   * a word that is not due has its review strictly in the future.
   */
  predicate IsDue(w: Word, now: int)
    ensures w.nextReviewAt == now ==> IsDue(w, now)
    ensures !IsDue(w, now) ==> now < w.nextReviewAt
  {
    w.nextReviewAt <= now
  }

  /** `getDueWords`: the words whose review time has arrived, in their original order. */
  function GetDueWords(words: seq<Word>, now: int): (r: seq<Word>)
    ensures |r| <= |words|
    ensures forall w :: w in r ==> w in words && IsDue(w, now)
  {
    if words == [] then []
    else if IsDue(words[0], now) then [words[0]] + GetDueWords(words[1..], now)
    else GetDueWords(words[1..], now)
  }

  /** A word is selected exactly when it is in the input and due. */
  lemma {:induction false} DueMembership(words: seq<Word>, now: int, w: Word)
    ensures w in GetDueWords(words, now) <==> w in words && IsDue(w, now)
  {
    if words != [] {
      DueMembership(words[1..], now, w);
      assert w in words <==> w == words[0] || w in words[1..];
    }
  }

  /** The selection keeps the input's relative order. */
  lemma {:induction false} DueIsSubsequence(words: seq<Word>, now: int)
    ensures Seqs.IsSubsequence(GetDueWords(words, now), words)
  {
    if words != [] {
      DueIsSubsequence(words[1..], now);
      var rest := GetDueWords(words[1..], now);
      if IsDue(words[0], now) {
        assert ([words[0]] + rest)[1..] == rest;
      } else {
        assert words == [words[0]] + words[1..];
        Seqs.SubsequenceWeaken(rest, words[1..], words[0]);
      }
    }
  }

  /** Selection distributes over joining lists, so every due copy of a word is kept. */
  lemma {:induction false} DueAppend(a: seq<Word>, b: seq<Word>, now: int)
    ensures GetDueWords(a + b, now) == GetDueWords(a, now) + GetDueWords(b, now)
  {
    if a == [] {
      assert a + b == b;
    } else if IsDue(a[0], now) {
      calc {
        GetDueWords(a + b, now);
        { assert (a + b)[0] == a[0] && (a + b)[1..] == a[1..] + b; }
        [a[0]] + GetDueWords(a[1..] + b, now);
        { DueAppend(a[1..], b, now); }
        [a[0]] + (GetDueWords(a[1..], now) + GetDueWords(b, now));
        ([a[0]] + GetDueWords(a[1..], now)) + GetDueWords(b, now);
        GetDueWords(a, now) + GetDueWords(b, now);
      }
    } else {
      calc {
        GetDueWords(a + b, now);
        { assert (a + b)[0] == a[0] && (a + b)[1..] == a[1..] + b; }
        GetDueWords(a[1..] + b, now);
        { DueAppend(a[1..], b, now); }
        GetDueWords(a[1..], now) + GetDueWords(b, now);
        GetDueWords(a, now) + GetDueWords(b, now);
      }
    }
  }

  /** Selecting again at the same instant changes nothing. */
  lemma {:induction false} DueIdempotent(words: seq<Word>, now: int)
    ensures GetDueWords(GetDueWords(words, now), now) == GetDueWords(words, now)
  {
    if words != [] {
      DueIdempotent(words[1..], now);
      if IsDue(words[0], now) {
        assert ([words[0]] + GetDueWords(words[1..], now))[1..] == GetDueWords(words[1..], now);
      }
    }
  }

  /** When every word is due the selection is the whole input, in order. */
  lemma {:induction false} DueAll(words: seq<Word>, now: int)
    requires forall i :: 0 <= i < |words| ==> IsDue(words[i], now)
    ensures GetDueWords(words, now) == words
  {
    if words != [] {
      DueAll(words[1..], now);
    }
  }

  /** The boundary is inclusive: of reviews due one millisecond ago, now, and in one millisecond, the first two are selected. */
  lemma DueBoundary(a: Word, b: Word, c: Word, now: int)
    requires a.nextReviewAt == now - 1 && b.nextReviewAt == now && c.nextReviewAt == now + 1
    ensures GetDueWords([a, b, c], now) == [a, b]
  {
    assert [a, b, c][1..] == [b, c];
    assert [b, c][1..] == [c];
    assert [c][1..] == [];
    assert GetDueWords([c], now) == [];
    assert GetDueWords([b, c], now) == [b];
  }
}
