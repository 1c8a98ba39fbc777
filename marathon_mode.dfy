/** Marathon mode: answer as many cards as possible in 60 seconds. Each
    non-blank answer is checked with the fuzzy verifier and scores a point when
    correct; the deck is reshuffled and restarted whenever it runs out; a
    once-a-second tick counts the time down and ends the game at zero. */
module MarathonMode {
  import opened Cards
  import Fuzzy

  /** Seconds on the clock when a marathon starts. */
  const InitialTime: nat := 60

  /** The three messages of the final screen. */
  datatype Band = Outstanding | Good | TryAgain

  function BandRank(b: Band): nat {
    match b
    case TryAgain => 0
    case Good => 1
    case Outstanding => 2
  }

  /** The message for a final score: above 10, above 5, or otherwise. */
  function ResultBand(score: int): (b: Band)
    ensures b == Outstanding <==> score > 10
    ensures b == TryAgain <==> score <= 5
  {
    if score > 10 then Outstanding
    else if score > 5 then Good
    else TryAgain
  }

  /** A higher score never earns a lesser message. */
  lemma BandMonotone(s1: int, s2: int)
    requires s1 <= s2
    ensures BandRank(ResultBand(s1)) <= BandRank(ResultBand(s2))
  {
  }

  /** The state of one Marathon-mode component. */
  class MarathonSession {
    var cards: seq<FlashCard>
    var marathonCards: seq<FlashCard>
    var currentCardIndex: nat
    var userAnswer: string
    var score: nat
    var timeLeft: nat
    var isPlaying: bool
    var gameOver: bool

    /** The deck is a shuffle of the given cards and the cursor is on it; the
        clock never exceeds its start value; while playing there is time
        left, and a finished game is not playing and has no time left. */
    ghost predicate Valid()
      reads this
    {
      && |cards| > 0
      && multiset(marathonCards) == multiset(cards)
      && currentCardIndex < |marathonCards|
      && timeLeft <= InitialTime
      && (isPlaying ==> timeLeft > 0 && !gameOver)
      && (gameOver ==> timeLeft == 0 && !isPlaying)
    }

    /** The state `resetMarathon` leaves: a reshuffled deck, first card, empty
        input, no score, a full clock, neither playing nor over. */
    ghost predicate Reset()
      reads this
    {
      && multiset(marathonCards) == multiset(cards)
      && currentCardIndex == 0
      && userAnswer == ""
      && score == 0
      && timeLeft == InitialTime
      && !isPlaying
      && !gameOver
    }

    /** Mounting with a deck runs the deck-change effect, which resets. */
    constructor (deck: seq<FlashCard>, picks: seq<nat>)
      requires |deck| > 0
      ensures Valid() && Reset() && cards == deck
    {
      cards := deck;
      var shuffled := Shuffle(deck, picks);
      marathonCards := shuffled;
      currentCardIndex := 0;
      userAnswer := "";
      score := 0;
      timeLeft := InitialTime;
      isPlaying := false;
      gameOver := false;
    }

    /** The deck-change effect: a new deck resets the marathon. */
    method ReceiveCards(deck: seq<FlashCard>, picks: seq<nat>)
      requires |deck| > 0
      modifies this
      ensures Valid() && Reset() && cards == deck
    {
      cards := deck;
      ResetMarathon(picks);
    }

    method ResetMarathon(picks: seq<nat>)
      requires |cards| > 0
      modifies this
      ensures Valid() && Reset() && cards == old(cards)
    {
      var shuffled := Shuffle(cards, picks);
      marathonCards := shuffled;
      currentCardIndex := 0;
      userAnswer := "";
      score := 0;
      timeLeft := InitialTime;
      isPlaying := false;
      gameOver := false;
    }

    /** Starting (or playing again): a reset followed by playing. */
    method StartGame(picks: seq<nat>)
      requires |cards| > 0
      modifies this
      ensures Valid() && cards == old(cards)
      ensures multiset(marathonCards) == multiset(cards)
      ensures currentCardIndex == 0 && userAnswer == "" && score == 0
      ensures timeLeft == InitialTime && isPlaying && !gameOver
    {
      ResetMarathon(picks);
      isPlaying := true;
    }

    /** Typing in the answer box. */
    method SetUserAnswer(value: string)
      modifies this`userAnswer
      ensures userAnswer == value
    {
      userAnswer := value;
    }

    /** Checking the typed answer. Input that is blank after trimming is
        refused and nothing changes. Otherwise a correct answer scores exactly
        one point and a wrong one none; the cursor moves to the next card, or
        past the last card the deck is reshuffled and the cursor returns to
        the first card; the input is cleared. */
    method CheckAnswer(picks: seq<nat>) returns (checked: bool, correct: bool)
      requires Valid()
      modifies this`score, this`currentCardIndex, this`marathonCards, this`userAnswer
      ensures Valid()
      ensures checked <==> Fuzzy.Trim(old(userAnswer)) != []
      ensures !checked ==>
        && !correct && score == old(score) && currentCardIndex == old(currentCardIndex)
        && marathonCards == old(marathonCards) && userAnswer == old(userAnswer)
      ensures checked ==> correct == Fuzzy.IsCorrect(old(userAnswer), old(marathonCards[currentCardIndex]).answer)
      ensures checked ==> score == old(score) + (if correct then 1 else 0)
      ensures checked && old(currentCardIndex) < |old(marathonCards)| - 1 ==>
        currentCardIndex == old(currentCardIndex) + 1 && marathonCards == old(marathonCards)
      ensures checked && old(currentCardIndex) == |old(marathonCards)| - 1 ==>
        currentCardIndex == 0 && multiset(marathonCards) == multiset(cards)
      ensures checked ==> userAnswer == ""
    {
      if Fuzzy.Trim(userAnswer) == [] {
        checked, correct := false, false;
        return;
      }
      checked := true;
      var currentCard := marathonCards[currentCardIndex];
      correct := Fuzzy.IsCorrect(userAnswer, currentCard.answer);
      score := score + if correct then 1 else 0;
      NextCard(picks);
      userAnswer := "";
    }

    /** The cursor step of a checked answer: the next card, or past the last
        card a reshuffled deck from its first card. */
    method NextCard(picks: seq<nat>)
      requires Valid()
      modifies this`currentCardIndex, this`marathonCards
      ensures Valid()
      ensures old(currentCardIndex) < |old(marathonCards)| - 1 ==>
        currentCardIndex == old(currentCardIndex) + 1 && marathonCards == old(marathonCards)
      ensures old(currentCardIndex) == |old(marathonCards)| - 1 ==>
        currentCardIndex == 0 && multiset(marathonCards) == multiset(cards)
    {
      if currentCardIndex < |marathonCards| - 1 {
        currentCardIndex := currentCardIndex + 1;
      } else {
        var shuffled := Shuffle(cards, picks);
        marathonCards := shuffled;
        currentCardIndex := 0;
      }
    }

    /** One second of the countdown. While playing, the interval takes a
        second off the clock; the effect that watches the clock then ends the
        game as soon as it reads zero. When not playing nothing happens. */
    method Tick()
      requires Valid()
      modifies this`timeLeft, this`isPlaying, this`gameOver
      ensures Valid()
      ensures old(isPlaying) ==> timeLeft == old(timeLeft) - 1
      ensures old(isPlaying) ==> (gameOver <==> timeLeft == 0) && (isPlaying <==> timeLeft > 0)
      ensures !old(isPlaying) ==> timeLeft == old(timeLeft) && !isPlaying && gameOver == old(gameOver)
    {
      if isPlaying && timeLeft > 0 {
        timeLeft := timeLeft - 1;
        if isPlaying && timeLeft == 0 {
          gameOver := true;
          isPlaying := false;
        }
      }
    }
  }

  /** A started marathon ends after exactly 60 ticks whatever is answered
      in between (here one typed answer before each tick, taken from
      `answers` while they last): answers never touch the clock, and the clock
      is the only way a game ends. */
  method SixtySecondsEndTheGame(deck: seq<FlashCard>, picks: seq<nat>, answers: seq<string>)
    returns (ticks: nat, over: bool)
    requires |deck| > 0
    ensures ticks == InitialTime && over
  {
    var marathon := new MarathonSession(deck, picks);
    marathon.StartGame(picks);
    ticks := 0;
    while marathon.isPlaying
      invariant marathon.Valid()
      invariant marathon.timeLeft + ticks == InitialTime
      invariant marathon.isPlaying <==> marathon.timeLeft > 0
      invariant marathon.gameOver <==> marathon.timeLeft == 0
      decreases marathon.timeLeft
    {
      if ticks < |answers| {
        marathon.SetUserAnswer(answers[ticks]);
        var checked, correct := marathon.CheckAnswer(picks);
      }
      marathon.Tick();
      ticks := ticks + 1;
    }
    over := marathon.gameOver;
  }
}
