/** The record types shared by every part of the app (src/types/index.ts). */
module Types {

  /** An optional value: `undefined` / `null` in the source. */
  datatype Option<+T> = None | Some(value: T) {
    function GetOr(default: T): T {
      match this
      case Some(v) => v
      case None => default
    }
  }

  /**
   * One vocabulary entry. Timestamps are epoch milliseconds; `level` is the
   * spaced-repetition stage (0..7 in normal use, but nothing in the source
   * enforces the range, so it is an unbounded integer here).
   */
  datatype Word = Word(
    id: string,
    term: string,
    definition: string,
    level: int,
    nextReviewAt: int,
    lastReviewedAt: int,
    wrongCount: int,
    addedAt: int,
    audioUrl: Option<string>
  )

  /** A word as it is created by the store: level 0 and due at once. */
  function NewWord(id: string, term: string, definition: string, audioUrl: Option<string>, now: int): (w: Word)
    ensures w.id == id && w.term == term && w.definition == definition && w.audioUrl == audioUrl
    ensures w.level == 0 && w.wrongCount == 0 && w.lastReviewedAt == 0
    ensures w.nextReviewAt == now && w.addedAt == now
  {
    Word(id, term, definition, 0, now, 0, 0, now, audioUrl)
  }

  /** A (term, definition) pair before it becomes a word. */
  datatype Entry = Entry(term: string, definition: string)
}
