/**
 * The word store (src/store/useWordStore.ts): the word list, the daily study
 * streak and the points total, with the actions the views call. Fresh ids,
 * the clock and calendar days are parameters: `freshId`/`ids` for the
 * generated ids, `now` for the millisecond clock, and `today`/`yesterday` for
 * the two day keys the streak compares.
 */
module Store {
  import opened Types
  import Text
  import Seqs

  /** Points awarded for every finished quiz session. */
  const QuizPoints: int := 10

  /* ---------- deleteWord ---------- */

  /** The words whose id differs from `id`, in their original order. */
  function WithoutId(words: seq<Word>, id: string): (r: seq<Word>)
    ensures |r| <= |words|
    ensures forall w :: w in r ==> w in words && w.id != id
  {
    if words == [] then []
    else if words[0].id != id then [words[0]] + WithoutId(words[1..], id)
    else WithoutId(words[1..], id)
  }

  /** A word survives deletion exactly when it was stored and carries another id. */
  lemma {:induction false} WithoutIdMembership(words: seq<Word>, id: string, w: Word)
    ensures w in WithoutId(words, id) <==> w in words && w.id != id
  {
    if words != [] {
      WithoutIdMembership(words[1..], id, w);
      assert w in words <==> w == words[0] || w in words[1..];
    }
  }

  /** Deletion keeps the remaining words in their original order. */
  lemma {:induction false} WithoutIdIsSubsequence(words: seq<Word>, id: string)
    ensures Seqs.IsSubsequence(WithoutId(words, id), words)
  {
    if words != [] {
      WithoutIdIsSubsequence(words[1..], id);
      var rest := WithoutId(words[1..], id);
      if words[0].id != id {
        assert ([words[0]] + rest)[1..] == rest;
      } else {
        assert words == [words[0]] + words[1..];
        Seqs.SubsequenceWeaken(rest, words[1..], words[0]);
      }
    }
  }

  /** Deletion distributes over joining lists, so every copy of a surviving word is kept. */
  lemma {:induction false} WithoutIdAppend(a: seq<Word>, b: seq<Word>, id: string)
    ensures WithoutId(a + b, id) == WithoutId(a, id) + WithoutId(b, id)
  {
    if a == [] {
      assert a + b == b;
    } else if a[0].id != id {
      calc {
        WithoutId(a + b, id);
        { assert (a + b)[0] == a[0] && (a + b)[1..] == a[1..] + b; }
        [a[0]] + WithoutId(a[1..] + b, id);
        { WithoutIdAppend(a[1..], b, id); }
        [a[0]] + (WithoutId(a[1..], id) + WithoutId(b, id));
        ([a[0]] + WithoutId(a[1..], id)) + WithoutId(b, id);
        WithoutId(a, id) + WithoutId(b, id);
      }
    } else {
      calc {
        WithoutId(a + b, id);
        { assert (a + b)[0] == a[0] && (a + b)[1..] == a[1..] + b; }
        WithoutId(a[1..] + b, id);
        { WithoutIdAppend(a[1..], b, id); }
        WithoutId(a[1..], id) + WithoutId(b, id);
        WithoutId(a, id) + WithoutId(b, id);
      }
    }
  }

  /** Deleting an id no word carries leaves the list as it was. */
  lemma {:induction false} WithoutAbsentId(words: seq<Word>, id: string)
    requires forall i :: 0 <= i < |words| ==> words[i].id != id
    ensures WithoutId(words, id) == words
  {
    if words != [] {
      WithoutAbsentId(words[1..], id);
    }
  }

  /* ---------- editWord / updateWord ---------- */

  /** `a` and `b` agree on every field except possibly `term` and `definition`. */
  predicate SameExceptText(a: Word, b: Word)
  {
    a.id == b.id && a.level == b.level && a.nextReviewAt == b.nextReviewAt &&
    a.lastReviewedAt == b.lastReviewedAt && a.wrongCount == b.wrongCount &&
    a.addedAt == b.addedAt && a.audioUrl == b.audioUrl
  }

  /** `editWord`: words with the given id get the new term and definition. */
  function Edited(words: seq<Word>, id: string, term: string, definition: string): (r: seq<Word>)
    ensures |r| == |words|
    ensures forall i :: 0 <= i < |words| ==> SameExceptText(r[i], words[i])
    ensures forall i :: 0 <= i < |words| && words[i].id == id ==> r[i].term == term && r[i].definition == definition
    ensures forall i :: 0 <= i < |words| && words[i].id != id ==> r[i] == words[i]
  {
    seq(|words|, i requires 0 <= i < |words| =>
      if words[i].id == id then words[i].(term := term, definition := definition) else words[i])
  }

  /** `Partial<Word>`: each field either supplied or absent. `audioUrl` may be supplied as `undefined`. */
  datatype WordPatch = WordPatch(
    id: Option<string>,
    term: Option<string>,
    definition: Option<string>,
    level: Option<int>,
    nextReviewAt: Option<int>,
    lastReviewedAt: Option<int>,
    wrongCount: Option<int>,
    addedAt: Option<int>,
    audioUrl: Option<Option<string>>
  )

  const EmptyPatch: WordPatch := WordPatch(None, None, None, None, None, None, None, None, None)

  /** `{ ...w, ...updates }`: the supplied fields win. */
  function ApplyPatch(w: Word, p: WordPatch): (r: Word)
    ensures (p.id.Some? ==> r.id == p.id.value) && (p.id.None? ==> r.id == w.id)
    ensures (p.term.Some? ==> r.term == p.term.value) && (p.term.None? ==> r.term == w.term)
    ensures (p.definition.Some? ==> r.definition == p.definition.value) && (p.definition.None? ==> r.definition == w.definition)
    ensures (p.level.Some? ==> r.level == p.level.value) && (p.level.None? ==> r.level == w.level)
    ensures (p.nextReviewAt.Some? ==> r.nextReviewAt == p.nextReviewAt.value) && (p.nextReviewAt.None? ==> r.nextReviewAt == w.nextReviewAt)
    ensures (p.lastReviewedAt.Some? ==> r.lastReviewedAt == p.lastReviewedAt.value) && (p.lastReviewedAt.None? ==> r.lastReviewedAt == w.lastReviewedAt)
    ensures (p.wrongCount.Some? ==> r.wrongCount == p.wrongCount.value) && (p.wrongCount.None? ==> r.wrongCount == w.wrongCount)
    ensures (p.addedAt.Some? ==> r.addedAt == p.addedAt.value) && (p.addedAt.None? ==> r.addedAt == w.addedAt)
    ensures (p.audioUrl.Some? ==> r.audioUrl == p.audioUrl.value) && (p.audioUrl.None? ==> r.audioUrl == w.audioUrl)
  {
    Word(p.id.GetOr(w.id), p.term.GetOr(w.term), p.definition.GetOr(w.definition),
         p.level.GetOr(w.level), p.nextReviewAt.GetOr(w.nextReviewAt),
         p.lastReviewedAt.GetOr(w.lastReviewedAt), p.wrongCount.GetOr(w.wrongCount),
         p.addedAt.GetOr(w.addedAt), p.audioUrl.GetOr(w.audioUrl))
  }

  /** A patch that supplies nothing changes nothing. */
  lemma EmptyPatchIdentity(w: Word)
    ensures ApplyPatch(w, EmptyPatch) == w
  {
  }

  /** Applying the same patch twice is applying it once. */
  lemma ApplyPatchIdempotent(w: Word, p: WordPatch)
    ensures ApplyPatch(ApplyPatch(w, p), p) == ApplyPatch(w, p)
  {
  }

  /** Editing term and definition is the patch that supplies exactly those two fields. */
  lemma EditIsPatch(w: Word, term: string, definition: string)
    ensures w.(term := term, definition := definition)
         == ApplyPatch(w, EmptyPatch.(term := Some(term), definition := Some(definition)))
  {
  }

  /** `updateWord`: words with the given id take the supplied fields. */
  function Updated(words: seq<Word>, id: string, p: WordPatch): (r: seq<Word>)
    ensures |r| == |words|
    ensures forall i :: 0 <= i < |words| && words[i].id == id ==> r[i] == ApplyPatch(words[i], p)
    ensures forall i :: 0 <= i < |words| && words[i].id != id ==> r[i] == words[i]
  {
    seq(|words|, i requires 0 <= i < |words| =>
      if words[i].id == id then ApplyPatch(words[i], p) else words[i])
  }

  /** An update that supplies nothing leaves the list as it was. */
  lemma UpdatedWithEmptyPatch(words: seq<Word>, id: string)
    ensures Updated(words, id, EmptyPatch) == words
  {
    assert forall i :: 0 <= i < |words| ==> Updated(words, id, EmptyPatch)[i] == words[i];
  }

  /* ---------- finishQuiz ---------- */

  /** Index `i` holds the first word of `s` carrying `id`. */
  predicate FirstWithId(s: seq<Word>, id: string, i: int)
  {
    0 <= i < |s| && s[i].id == id && forall j :: 0 <= j < i ==> s[j].id != id
  }

  /** `updated.find(u => u.id === id)`: the first word carrying `id`. */
  function FindById(updated: seq<Word>, id: string): (r: Option<Word>)
    ensures r.None? <==> forall j :: 0 <= j < |updated| ==> updated[j].id != id
    ensures r.Some? ==> exists i :: FirstWithId(updated, id, i) && updated[i] == r.value
  {
    if updated == [] then None
    else if updated[0].id == id then Some(updated[0])
    else
      var r := FindById(updated[1..], id);
      if r.Some? then
        ghost var i :| FirstWithId(updated[1..], id, i) && updated[1..][i] == r.value;
        assert FirstWithId(updated, id, i + 1);
        r
      else r
  }

  /** The stored list after a quiz: each word replaced by the first quiz result with its id. */
  function Merged(words: seq<Word>, updated: seq<Word>): (r: seq<Word>)
    ensures |r| == |words|
    ensures forall i :: 0 <= i < |words| ==> r[i].id == words[i].id
    ensures forall i :: 0 <= i < |words| ==> r[i] == words[i] || r[i] in updated
  {
    seq(|words|, i requires 0 <= i < |words| => FindById(updated, words[i].id).GetOr(words[i]))
  }

  /** Quiz results for ids that are not stored never enter the list; stored words without a result stay as they are. */
  lemma MergedIgnoresUnknown(words: seq<Word>, updated: seq<Word>, i: int)
    requires 0 <= i < |words|
    requires forall j :: 0 <= j < |updated| ==> updated[j].id != words[i].id
    ensures Merged(words, updated)[i] == words[i]
  {
  }

  /** A stored word with a quiz result takes the first result with its id. */
  lemma MergedTakesFirst(words: seq<Word>, updated: seq<Word>, i: int, k: int)
    requires 0 <= i < |words| && 0 <= k < |updated|
    requires updated[k].id == words[i].id
    requires forall j :: 0 <= j < k ==> updated[j].id != words[i].id
    ensures Merged(words, updated)[i] == updated[k]
  {
    var r := FindById(updated, words[i].id);
    var m :| FirstWithId(updated, words[i].id, m) && updated[m] == r.value;
    assert m == k;
  }

  /** Merging no results changes nothing. */
  lemma MergedWithNothing(words: seq<Word>)
    ensures Merged(words, []) == words
  {
    assert forall i :: 0 <= i < |words| ==> Merged(words, [])[i] == words[i];
  }

  /* ---------- bulkAddWords ---------- */

  /** Some stored word has the same term as `term`, ignoring case. */
  predicate IsKnownTerm(existing: seq<Word>, term: string)
    ensures existing == [] ==> !IsKnownTerm(existing, term)
    ensures (exists i :: 0 <= i < |existing| && existing[i].term == term) ==> IsKnownTerm(existing, term)
  {
    exists i :: 0 <= i < |existing| && Text.ToLower(existing[i].term) == Text.ToLower(term)
  }

  /** The duplicate test ignores case: lower-casing a candidate does not change whether it is known. */
  lemma KnownTermIgnoresCase(existing: seq<Word>, term: string)
    ensures IsKnownTerm(existing, term) <==> IsKnownTerm(existing, Text.ToLower(term))
  {
    Text.ToLowerIdempotent(term);
  }

  /** The words `bulkAddWords` appends: candidates whose term is not yet stored, as new words. */
  function FreshWords(cands: seq<Entry>, ids: seq<string>, existing: seq<Word>, now: int): (r: seq<Word>)
    requires |ids| == |cands|
    ensures |r| <= |cands|
    ensures forall w :: w in r ==>
      (!IsKnownTerm(existing, w.term) && w.level == 0 && w.nextReviewAt == now && w.addedAt == now &&
       w.lastReviewedAt == 0 && w.wrongCount == 0 && w.audioUrl == None)
  {
    if cands == [] then []
    else
      var rest := FreshWords(cands[1..], ids[1..], existing, now);
      if IsKnownTerm(existing, cands[0].term) then rest
      else [NewWord(ids[0], cands[0].term, cands[0].definition, None, now)] + rest
  }

  /** Survivors keep the input order: the batch can be cut anywhere. */
  lemma {:induction false} FreshWordsAppend(c1: seq<Entry>, i1: seq<string>, c2: seq<Entry>, i2: seq<string>, existing: seq<Word>, now: int)
    requires |i1| == |c1| && |i2| == |c2|
    ensures FreshWords(c1 + c2, i1 + i2, existing, now)
         == FreshWords(c1, i1, existing, now) + FreshWords(c2, i2, existing, now)
  {
    if c1 != [] {
      assert (c1 + c2)[1..] == c1[1..] + c2;
      assert (i1 + i2)[1..] == i1[1..] + i2;
      FreshWordsAppend(c1[1..], i1[1..], c2, i2, existing, now);
    } else {
      assert c1 + c2 == c2 && i1 + i2 == i2;
    }
  }

  /** One candidate survives exactly when its term is not stored yet, ignoring case. */
  lemma FreshWordsSingle(c: Entry, id: string, existing: seq<Word>, now: int)
    ensures FreshWords([c], [id], existing, now)
         == if IsKnownTerm(existing, c.term) then [] else [NewWord(id, c.term, c.definition, None, now)]
  {
    assert [c][1..] == [] && [id][1..] == [];
  }

  /**
   * Duplicates are checked only against stored words: when no term of the
   * batch is stored yet, every candidate becomes a word, repeated terms included.
   */
  lemma {:induction false} FreshWordsAllNew(cands: seq<Entry>, ids: seq<string>, existing: seq<Word>, now: int)
    requires |ids| == |cands|
    requires forall i :: 0 <= i < |cands| ==> !IsKnownTerm(existing, cands[i].term)
    ensures |FreshWords(cands, ids, existing, now)| == |cands|
    ensures forall i :: 0 <= i < |cands| ==>
      FreshWords(cands, ids, existing, now)[i] == NewWord(ids[i], cands[i].term, cands[i].definition, None, now)
  {
    if cands != [] {
      FreshWordsAllNew(cands[1..], ids[1..], existing, now);
    }
  }

  /** When every term of the batch is stored already, nothing is appended. */
  lemma {:induction false} FreshWordsAllKnown(cands: seq<Entry>, ids: seq<string>, existing: seq<Word>, now: int)
    requires |ids| == |cands|
    requires forall i :: 0 <= i < |cands| ==> IsKnownTerm(existing, cands[i].term)
    ensures FreshWords(cands, ids, existing, now) == []
  {
    if cands != [] {
      FreshWordsAllKnown(cands[1..], ids[1..], existing, now);
    }
  }

  /* ---------- updateStreak ---------- */

  /** The two streak fields of the store. */
  datatype Streak = Streak(lastStudyDate: Option<int>, dailyStreak: int)

  /** `updateStreak` on the streak fields: study on day `today`, where `yesterday` is the key of the day before. */
  function NextStreak(s: Streak, today: int, yesterday: int): (r: Streak)
    ensures r.lastStudyDate == Some(today)
    ensures s.lastStudyDate == Some(today) ==> r == s
    ensures s.lastStudyDate != Some(today) && s.lastStudyDate == Some(yesterday) ==> r.dailyStreak == s.dailyStreak + 1
    ensures s.lastStudyDate != Some(today) && s.lastStudyDate != Some(yesterday) ==> r.dailyStreak == 1
  {
    if s.lastStudyDate == Some(today) then s
    else Streak(Some(today), if s.lastStudyDate == Some(yesterday) then s.dailyStreak + 1 else 1)
  }

  /** Studying twice on the same day counts once. */
  lemma NextStreakIdempotent(s: Streak, today: int, yesterday: int)
    ensures NextStreak(NextStreak(s, today, yesterday), today, yesterday) == NextStreak(s, today, yesterday)
  {
  }

  /** The streak after studying on `k` consecutive days, one day at a time from day `start`. */
  function StudyDays(s: Streak, start: int, k: nat): Streak
  {
    if k == 0 then s else NextStreak(StudyDays(s, start, k - 1), start + k - 1, start + k - 2)
  }

  /** Studying on `k >= 1` consecutive days, starting on a day after a gap, builds a streak of `k`. */
  lemma {:induction false} StudyDaysStreak(s: Streak, start: int, k: nat)
    requires k >= 1
    requires s.lastStudyDate.None? || s.lastStudyDate.value < start - 1
    ensures StudyDays(s, start, k) == Streak(Some(start + k - 1), k)
  {
    if k > 1 {
      StudyDaysStreak(s, start, k - 1);
    }
  }

  /** The store's consistency: points come in whole quiz awards and a streak exists only after a study day. */
  predicate StateOk(totalPoints: int, s: Streak)
  {
    totalPoints >= 0 && totalPoints % QuizPoints == 0 &&
    s.dailyStreak >= 0 && (s.lastStudyDate.None? <==> s.dailyStreak == 0)
  }

  /** A study day keeps the streak fields consistent. */
  lemma NextStreakKeepsStateOk(points: int, s: Streak, today: int, yesterday: int)
    requires StateOk(points, s)
    ensures StateOk(points, NextStreak(s, today, yesterday)) && NextStreak(s, today, yesterday).dailyStreak >= 1
  {
  }

  /** The store itself: the state object whose fields each action overwrites. */
  class WordStore {
    var words: seq<Word>
    var dailyStreak: int
    var lastStudyDate: Option<int>
    var totalPoints: int

    ghost predicate Valid()
      reads this
    {
      StateOk(totalPoints, Streak(lastStudyDate, dailyStreak))
    }

    constructor ()
      ensures Valid()
      ensures words == [] && dailyStreak == 0 && lastStudyDate == None && totalPoints == 0
    {
      words := [];
      dailyStreak := 0;
      lastStudyDate := None;
      totalPoints := 0;
    }

    /** `addWord`: append one new word, even if its term is already stored. */
    method AddWord(term: string, definition: string, audioUrl: Option<string>, freshId: string, now: int)
      requires Valid()
      modifies this
      ensures Valid()
      ensures |words| == |old(words)| + 1 && words[..|old(words)|] == old(words)
      ensures words[|old(words)|] == Word(freshId, term, definition, 0, now, 0, 0, now, audioUrl)
      ensures dailyStreak == old(dailyStreak) && lastStudyDate == old(lastStudyDate) && totalPoints == old(totalPoints)
    {
      words := words + [NewWord(freshId, term, definition, audioUrl, now)];
    }

    /** `bulkAddWords`: append, in input order, the candidates whose term is not stored yet (ignoring case). */
    method BulkAddWords(cands: seq<Entry>, ids: seq<string>, now: int)
      requires Valid()
      requires |ids| == |cands|
      modifies this
      ensures Valid()
      ensures words == old(words) + FreshWords(cands, ids, old(words), now)
      ensures FreshWords(cands, ids, old(words), now) == [] ==> words == old(words)
      ensures dailyStreak == old(dailyStreak) && lastStudyDate == old(lastStudyDate) && totalPoints == old(totalPoints)
    {
      var survivors := FreshWords(cands, ids, words, now);
      if |survivors| > 0 {
        words := words + survivors;
      }
    }

    /** `deleteWord`: drop every word carrying `id`. */
    method DeleteWord(id: string)
      requires Valid()
      modifies this
      ensures Valid()
      ensures words == WithoutId(old(words), id)
      ensures dailyStreak == old(dailyStreak) && lastStudyDate == old(lastStudyDate) && totalPoints == old(totalPoints)
    {
      words := WithoutId(words, id);
    }

    /** `editWord`: replace term and definition of the words carrying `id`. */
    method EditWord(id: string, term: string, definition: string)
      requires Valid()
      modifies this
      ensures Valid()
      ensures words == Edited(old(words), id, term, definition)
      ensures dailyStreak == old(dailyStreak) && lastStudyDate == old(lastStudyDate) && totalPoints == old(totalPoints)
    {
      words := Edited(words, id, term, definition);
    }

    /** `updateWord`: overwrite the supplied fields of the words carrying `id`. */
    method UpdateWord(id: string, p: WordPatch)
      requires Valid()
      modifies this
      ensures Valid()
      ensures words == Updated(old(words), id, p)
      ensures dailyStreak == old(dailyStreak) && lastStudyDate == old(lastStudyDate) && totalPoints == old(totalPoints)
    {
      words := Updated(words, id, p);
    }

    /** `updateStreak`: record a study day. */
    method UpdateStreak(today: int, yesterday: int)
      requires Valid()
      modifies this
      ensures Valid()
      ensures Streak(lastStudyDate, dailyStreak) == NextStreak(Streak(old(lastStudyDate), old(dailyStreak)), today, yesterday)
      ensures words == old(words) && totalPoints == old(totalPoints)
    {
      if lastStudyDate == Some(today) {
        return;
      }
      dailyStreak := if lastStudyDate == Some(yesterday) then dailyStreak + 1 else 1;
      lastStudyDate := Some(today);
    }

    /** `finishQuiz`: merge the session's results by id, award the session's points, record the study day. */
    method FinishQuiz(updated: seq<Word>, today: int, yesterday: int)
      requires Valid()
      modifies this
      ensures Valid()
      ensures words == Merged(old(words), updated)
      ensures totalPoints == old(totalPoints) + QuizPoints
      ensures Streak(lastStudyDate, dailyStreak) == NextStreak(Streak(old(lastStudyDate), old(dailyStreak)), today, yesterday)
    {
      words := Merged(words, updated);
      totalPoints := totalPoints + QuizPoints;
      UpdateStreak(today, yesterday);
    }
  }
}
