/** Learn mode: a cursor over the deck moved by "previous" and "next"
    buttons that stop at either end. */
module LearnMode {
  import opened Cards

  /** The cursor after "previous": one step back, or unchanged at the first card. */
  function PrevIndex(index: nat): (r: nat)
    ensures index == 0 ==> r == 0
    ensures index > 0 ==> r + 1 == index
  {
    if index > 0 then index - 1 else index
  }

  /** The cursor after "next" on a deck of `length` cards: one step forward,
      or unchanged at (or beyond) the last card. */
  function NextIndex(index: nat, length: nat): (r: nat)
    ensures index + 1 < length ==> r == index + 1
    ensures index + 1 >= length ==> r == index
  {
    if index < length - 1 then index + 1 else index
  }

  /** Both moves keep a cursor that is on the deck on the deck. */
  lemma MovesStayInDeck(index: nat, length: nat)
    requires index < length
    ensures PrevIndex(index) < length
    ensures NextIndex(index, length) < length
  {
  }

  /** "Next" then "previous" from any card but the last returns to that card. */
  lemma NextThenPrev(index: nat, length: nat)
    requires index + 1 < length
    ensures PrevIndex(NextIndex(index, length)) == index
  {
  }

  /** "Previous" then "next" from any card but the first returns to that card. */
  lemma PrevThenNext(index: nat, length: nat)
    requires 0 < index < length
    ensures NextIndex(PrevIndex(index), length) == index
  {
  }

  /** Any sequence of moves (true for "next", false for "previous") keeps the
      cursor on a non-empty deck. */
  function Walk(index: nat, length: nat, moves: seq<bool>): nat
    decreases |moves|
  {
    if moves == [] then index
    else Walk(if moves[0] then NextIndex(index, length) else PrevIndex(index), length, moves[1..])
  }

  lemma {:induction false} WalkStaysInDeck(index: nat, length: nat, moves: seq<bool>)
    requires index < length
    ensures Walk(index, length, moves) < length
    decreases |moves|
  {
    if moves != [] {
      var next := if moves[0] then NextIndex(index, length) else PrevIndex(index);
      MovesStayInDeck(index, length);
      WalkStaysInDeck(next, length, moves[1..]);
    }
  }

  /** The state of one Learn-mode component. */
  class LearnSession {
    var cards: seq<FlashCard>
    var currentCardIndex: nat

    /** The shown card `cards[currentCardIndex]` exists. */
    ghost predicate Valid()
      reads this
    {
      currentCardIndex < |cards|
    }

    /** Mounting with a deck: the cursor starts on the first card. */
    constructor (deck: seq<FlashCard>)
      requires |deck| > 0
      ensures Valid()
      ensures cards == deck && currentCardIndex == 0
    {
      cards := deck;
      currentCardIndex := 0;
    }

    method HandlePrev()
      modifies this`currentCardIndex
      ensures currentCardIndex == PrevIndex(old(currentCardIndex))
      ensures old(Valid()) ==> Valid()
    {
      currentCardIndex := if currentCardIndex > 0 then currentCardIndex - 1 else currentCardIndex;
    }

    method HandleNext()
      modifies this`currentCardIndex
      ensures currentCardIndex == NextIndex(old(currentCardIndex), |cards|)
      ensures old(Valid()) ==> Valid()
    {
      currentCardIndex := if currentCardIndex < |cards| - 1 then currentCardIndex + 1 else currentCardIndex;
    }

    /** A new deck arrives as written: the component keeps its cursor, because
        nothing resets it when the deck changes. */
    method ReceiveCardsAsWritten(deck: seq<FlashCard>)
      requires |deck| > 0
      modifies this`cards
      ensures cards == deck && currentCardIndex == old(currentCardIndex)
      ensures Valid() <==> old(currentCardIndex) < |deck|
    {
      cards := deck;
    }

    /** A new deck arrives, corrected: the cursor returns to the first card,
        as the other modes do when their deck changes. */
    method ReceiveCards(deck: seq<FlashCard>)
      requires |deck| > 0
      modifies this
      ensures Valid()
      ensures cards == deck && currentCardIndex == 0
    {
      cards := deck;
      currentCardIndex := 0;
    }
  }

  /** Browsing to the third card of a three-card deck and then switching to a
      one-card deck leaves the cursor past the end of the new deck, so the
      card to show does not exist. */
  method StaleCursorAfterDeckChange(a: FlashCard, b: FlashCard, c: FlashCard)
    returns (index: nat, deckLength: nat)
    ensures index >= deckLength
  {
    var learn := new LearnSession([a, b, c]);
    learn.HandleNext();
    learn.HandleNext();
    learn.ReceiveCardsAsWritten([a]);
    index, deckLength := learn.currentCardIndex, |learn.cards|;
  }

  /** With the corrected deck change, the same steps leave the cursor on the
      new deck. */
  method CursorAfterCorrectedDeckChange(a: FlashCard, b: FlashCard, c: FlashCard)
    returns (index: nat, deckLength: nat)
    ensures index < deckLength
  {
    var learn := new LearnSession([a, b, c]);
    learn.HandleNext();
    learn.HandleNext();
    learn.ReceiveCards([a]);
    index, deckLength := learn.currentCardIndex, |learn.cards|;
  }
}
