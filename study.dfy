/**
 * Flashcard navigation (src/components/StudyView.tsx): the index of the card
 * on show and which face is up. Next and previous wrap around the deck and
 * turn the card face down; a click turns it over.
 */
module Study {

  /** `(i + 1) % n`: the card after `i`, wrapping from the last to the first. */
  function NextIndex(i: int, n: int): (r: int)
    requires 0 <= i < n
    ensures 0 <= r < n
    ensures r == if i == n - 1 then 0 else i + 1
  {
    (i + 1) % n
  }

  /** `(i - 1 + n) % n`: the card before `i`, wrapping from the first to the last. */
  function PrevIndex(i: int, n: int): (r: int)
    requires 0 <= i < n
    ensures 0 <= r < n
    ensures r == if i == 0 then n - 1 else i - 1
  {
    (i - 1 + n) % n
  }

  /** Previous undoes next, and next undoes previous. */
  lemma NextPrevInverse(i: int, n: int)
    requires 0 <= i < n
    ensures PrevIndex(NextIndex(i, n), n) == i
    ensures NextIndex(PrevIndex(i, n), n) == i
  {
  }

  /** The index after pressing next `k` times from `i`. */
  function NextTimes(i: int, k: nat, n: int): (r: int)
    requires 0 <= i < n
    ensures 0 <= r < n
  {
    if k == 0 then i else NextIndex(NextTimes(i, k - 1, n), n)
  }

  /** Within one round of the deck, pressing next `k` times moves `k` cards forward, wrapping past the last card once. */
  lemma {:induction false} NextTimesIsRotation(i: int, k: nat, n: int)
    requires 0 <= i < n && k <= n
    ensures NextTimes(i, k, n) == if i + k < n then i + k else i + k - n
  {
    if k > 0 {
      NextTimesIsRotation(i, k - 1, n);
    }
  }

  /** A full round of `n` presses of next returns to the starting card. */
  lemma FullRound(i: int, n: int)
    requires 0 <= i < n
    ensures NextTimes(i, n, n) == i
  {
    NextTimesIsRotation(i, n, n);
  }

  /** The study screen over a deck of `count > 0` cards. */
  class Flashcards {
    const count: nat
    var currentIndex: nat
    var isFlipped: bool

    ghost predicate Valid()
      reads this
    {
      currentIndex < count
    }

    /** The screen opens on the first card, face down; an empty deck never reaches it. */
    constructor (n: nat)
      requires n > 0
      ensures Valid()
      ensures count == n && currentIndex == 0 && !isFlipped
    {
      count := n;
      currentIndex := 0;
      isFlipped := false;
    }

    /** `handleNext`: face down, then the next card. */
    method HandleNext()
      requires Valid()
      modifies this
      ensures Valid()
      ensures currentIndex == NextIndex(old(currentIndex), count) && !isFlipped
    {
      isFlipped := false;
      currentIndex := (currentIndex + 1) % count;
    }

    /** `handlePrev`: face down, then the previous card. */
    method HandlePrev()
      requires Valid()
      modifies this
      ensures Valid()
      ensures currentIndex == PrevIndex(old(currentIndex), count) && !isFlipped
    {
      isFlipped := false;
      currentIndex := (currentIndex - 1 + count) % count;
    }

    /** A click on the card turns it over; two clicks restore the face. */
    method Flip()
      requires Valid()
      modifies this
      ensures Valid()
      ensures isFlipped == !old(isFlipped) && currentIndex == old(currentIndex)
    {
      isFlipped := !isFlipped;
    }
  }
}
