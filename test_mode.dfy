/** Test mode: the user types an answer for each card of a shuffled deck in
    turn; after the last card every typed answer is checked with the fuzzy
    verifier, and the score, its percentage and an encouragement band are
    shown. */
module TestMode {
  import opened Cards
  import Fuzzy

  /** The number of true entries of `v`. */
  function CountTrue(v: seq<bool>): (r: nat)
    ensures r <= |v|
  {
    if v == [] then 0
    else CountTrue(v[..|v| - 1]) + (if v[|v| - 1] then 1 else 0)
  }

  /** The count is the full length exactly when every entry is true. */
  lemma {:induction false} CountTrueAll(v: seq<bool>)
    ensures CountTrue(v) == |v| <==> forall i :: 0 <= i < |v| ==> v[i]
  {
    if v != [] {
      var front := v[..|v| - 1];
      CountTrueAll(front);
      if forall i :: 0 <= i < |v| ==> v[i] {
        assert forall i :: 0 <= i < |front| ==> front[i] == v[i];
      }
    }
  }

  /** The count is zero exactly when every entry is false. */
  lemma {:induction false} CountTrueNone(v: seq<bool>)
    ensures CountTrue(v) == 0 <==> forall i :: 0 <= i < |v| ==> !v[i]
  {
    if v != [] {
      var front := v[..|v| - 1];
      CountTrueNone(front);
      if forall i :: 0 <= i < |v| ==> !v[i] {
        assert forall i :: 0 <= i < |front| ==> front[i] == v[i];
      }
    }
  }

  /** Turning false entries into true ones never lowers the count. */
  lemma {:induction false} CountTrueMonotone(worse: seq<bool>, better: seq<bool>)
    requires |worse| == |better|
    requires forall i :: 0 <= i < |worse| && worse[i] ==> better[i]
    ensures CountTrue(worse) <= CountTrue(better)
  {
    if worse != [] {
      CountTrueMonotone(worse[..|worse| - 1], better[..|better| - 1]);
    }
  }

  /** Counting one more entry adds one exactly when that entry is true. */
  lemma CountTrueStep(v: seq<bool>, i: nat)
    requires i < |v|
    ensures CountTrue(v[..i + 1]) == CountTrue(v[..i]) + (if v[i] then 1 else 0)
  {
    assert v[..i + 1][..i] == v[..i];
  }

  /** The verdict of the fuzzy check for each position of the deck, one per card. */
  function Verdicts(deck: seq<FlashCard>, answers: seq<string>): (v: seq<bool>)
    requires |deck| == |answers|
    ensures |v| == |deck|
  {
    if deck == [] then []
    else
      Verdicts(deck[..|deck| - 1], answers[..|answers| - 1])
      + [Fuzzy.IsCorrect(answers[|answers| - 1], deck[|deck| - 1].answer)]
  }

  /** Position `i` holds the verdict of answer `i` against card `i`'s answer. */
  lemma {:induction false} VerdictAt(deck: seq<FlashCard>, answers: seq<string>, i: nat)
    requires |deck| == |answers| && i < |deck|
    ensures Verdicts(deck, answers)[i] == Fuzzy.IsCorrect(answers[i], deck[i].answer)
  {
    if i < |deck| - 1 {
      VerdictAt(deck[..|deck| - 1], answers[..|answers| - 1], i);
    }
  }

  /** The final score: the number of positions whose typed answer passes the
      check against the card at that position. */
  function Score(deck: seq<FlashCard>, answers: seq<string>): (score: nat)
    requires |deck| == |answers|
    ensures score <= |deck|
  {
    CountTrue(Verdicts(deck, answers))
  }

  /** Scoring one more position adds one exactly when its answer passes. */
  lemma ScoreStep(deck: seq<FlashCard>, answers: seq<string>, i: nat)
    requires |deck| == |answers| && i < |deck|
    ensures CountTrue(Verdicts(deck, answers)[..i + 1])
      == CountTrue(Verdicts(deck, answers)[..i]) + (if Fuzzy.IsCorrect(answers[i], deck[i].answer) then 1 else 0)
  {
    CountTrueStep(Verdicts(deck, answers), i);
    VerdictAt(deck, answers, i);
  }

  /** Counts, in one pass over the deck, the answers that pass the check. */
  method CalculateScore(testCards: seq<FlashCard>, userAnswers: seq<string>) returns (correctAnswers: nat)
    requires |userAnswers| == |testCards|
    ensures correctAnswers == Score(testCards, userAnswers)
    ensures correctAnswers <= |testCards|
  {
    correctAnswers := 0;
    var index := 0;
    while index < |testCards|
      invariant index <= |testCards|
      invariant correctAnswers == CountTrue(Verdicts(testCards, userAnswers)[..index])
    {
      ScoreStep(testCards, userAnswers, index);
      if Fuzzy.IsCorrect(userAnswers[index], testCards[index].answer) {
        correctAnswers := correctAnswers + 1;
      }
      index := index + 1;
    }
    assert Verdicts(testCards, userAnswers)[..index] == Verdicts(testCards, userAnswers);
  }

  /** `Math.round(score / total * 100)` in integers: the percentage within
      half a point of 100·score/total, a tie rounding up. */
  function Percentage(score: nat, total: nat): (p: nat)
    requires total > 0
    ensures 2 * p * total <= 200 * score + total < 2 * p * total + 2 * total
  {
    (200 * score + total) / (2 * total)
  }

  /** A score out of `total` gives a percentage between 0 and 100, all
      answers correct give 100 and none give 0. */
  lemma PercentageBounds(score: nat, total: nat)
    requires 0 < total && score <= total
    ensures Percentage(score, total) <= 100
    ensures score == total ==> Percentage(score, total) == 100
    ensures score == 0 ==> Percentage(score, total) == 0
  {
    var p := Percentage(score, total);
    if p > 100 {
      MultiplyMonotone(p, 101, 2 * total);
    }
  }

  lemma MultiplyMonotone(a: nat, b: nat, c: nat)
    requires a >= b
    ensures a * c >= b * c
  {
  }

  /** A higher score never gives a lower percentage. */
  lemma PercentageMonotone(s1: nat, s2: nat, total: nat)
    requires 0 < total && s1 <= s2
    ensures Percentage(s1, total) <= Percentage(s2, total)
  {
    var p1, p2 := Percentage(s1, total), Percentage(s2, total);
    if p1 > p2 {
      MultiplyMonotone(p1, p2 + 1, 2 * total);
      assert false;
    }
  }

  /** The three encouragement messages of the result screen. */
  datatype Band = Excellent | Good | NeedsReview

  function BandRank(b: Band): nat {
    match b
    case NeedsReview => 0
    case Good => 1
    case Excellent => 2
  }

  /** The message for a percentage: at least 80, at least 60, or below. */
  function ResultBand(percentage: int): (b: Band)
    ensures b == Excellent <==> percentage >= 80
    ensures b == NeedsReview <==> percentage < 60
  {
    if percentage >= 80 then Excellent
    else if percentage >= 60 then Good
    else NeedsReview
  }

  /** A higher score never earns a lesser message. */
  lemma BandMonotone(s1: nat, s2: nat, total: nat)
    requires 0 < total && s1 <= s2
    ensures BandRank(ResultBand(Percentage(s1, total))) <= BandRank(ResultBand(Percentage(s2, total)))
  {
    PercentageMonotone(s1, s2, total);
  }

  /** Four cards answered right, wrong, right, right score 3 of 4, that is 75
      per cent, and earn the middle message. */
  lemma FourCardScenario(deck: seq<FlashCard>, answers: seq<string>)
    requires |deck| == 4 && |answers| == 4
    requires forall i :: 0 <= i < 4 && i != 1 ==> answers[i] == deck[i].answer
    requires !Fuzzy.IsCorrect(answers[1], deck[1].answer)
    ensures Score(deck, answers) == 3
    ensures Percentage(Score(deck, answers), 4) == 75
    ensures ResultBand(Percentage(Score(deck, answers), 4)) == Good
  {
    var v := Verdicts(deck, answers);
    VerdictAt(deck, answers, 0);
    VerdictAt(deck, answers, 1);
    VerdictAt(deck, answers, 2);
    VerdictAt(deck, answers, 3);
    assert v[0] by { Fuzzy.AnswerItselfIsCorrect(deck[0].answer); }
    assert !v[1];
    assert v[2] by { Fuzzy.AnswerItselfIsCorrect(deck[2].answer); }
    assert v[3] by { Fuzzy.AnswerItselfIsCorrect(deck[3].answer); }
    assert v[..0] == [];
    CountTrueStep(v, 0);
    CountTrueStep(v, 1);
    CountTrueStep(v, 2);
    CountTrueStep(v, 3);
    assert v[..4] == v;
  }

  /** Answers that trim to nothing all count as correct, so a test answered
      only with blanks scores full marks. */
  lemma BlankAnswersScore(deck: seq<FlashCard>, answers: seq<string>)
    requires |deck| == |answers|
    requires forall i :: 0 <= i < |answers| ==> Fuzzy.Trim(answers[i]) == []
    ensures Score(deck, answers) == |deck|
  {
    var v := Verdicts(deck, answers);
    forall i | 0 <= i < |deck| ensures v[i] {
      VerdictAt(deck, answers, i);
      Fuzzy.BlankInputIsCorrect(answers[i], deck[i].answer);
    }
    CountTrueAll(v);
  }

  /** The state of one Test-mode component. */
  class TestSession {
    var cards: seq<FlashCard>
    var testCards: seq<FlashCard>
    var userAnswers: seq<string>
    var currentQuestionIndex: nat
    var showResults: bool
    var score: nat

    /** The deck is a shuffle of the given cards, there is one answer slot per
        card, the cursor is on the deck, the score is at most the number of
        cards, every answer before the cursor was submitted non-empty, and
        results are shown only on the last question. */
    ghost predicate Valid()
      reads this
    {
      && |cards| > 0
      && multiset(testCards) == multiset(cards)
      && |userAnswers| == |testCards|
      && currentQuestionIndex < |testCards|
      && score <= |testCards|
      && (forall i :: 0 <= i < currentQuestionIndex ==> userAnswers[i] != "")
      && (showResults ==> currentQuestionIndex == |testCards| - 1)
    }

    /** A fresh test: reshuffled deck, blank answers, first question, no score. */
    ghost predicate Fresh()
      reads this
    {
      && multiset(testCards) == multiset(cards)
      && userAnswers == seq(|cards|, _ => "")
      && currentQuestionIndex == 0
      && score == 0
      && !showResults
    }

    /** Mounting with a deck runs the deck-change effect. */
    constructor (deck: seq<FlashCard>, picks: seq<nat>)
      requires |deck| > 0
      ensures Valid() && Fresh() && cards == deck
    {
      cards := deck;
      var shuffled := Shuffle(deck, picks);
      testCards := shuffled;
      userAnswers := seq(|deck|, _ => "");
      showResults := false;
      currentQuestionIndex := 0;
      score := 0;
    }

    /** The deck-change effect: a new deck starts a fresh test. */
    method ReceiveCards(deck: seq<FlashCard>, picks: seq<nat>)
      requires |deck| > 0
      modifies this
      ensures Valid() && Fresh() && cards == deck
    {
      cards := deck;
      Restart(picks);
    }

    /** Restarting reshuffles the same deck and clears everything else. */
    method Restart(picks: seq<nat>)
      requires |cards| > 0
      modifies this
      ensures Valid() && Fresh() && cards == old(cards)
    {
      var shuffled := Shuffle(cards, picks);
      testCards := shuffled;
      userAnswers := seq(|cards|, _ => "");
      showResults := false;
      currentQuestionIndex := 0;
      score := 0;
    }

    /** Editing the answer box writes the current question's slot and no other. */
    method HandleAnswerChange(value: string)
      requires Valid()
      modifies this`userAnswers
      ensures Valid()
      ensures |userAnswers| == |old(userAnswers)|
      ensures userAnswers[currentQuestionIndex] == value
      ensures forall i :: 0 <= i < |userAnswers| && i != currentQuestionIndex ==> userAnswers[i] == old(userAnswers[i])
    {
      userAnswers := userAnswers[currentQuestionIndex := value];
    }

    /** Submitting the current answer: refused, changing nothing, when the slot
        is the empty string; otherwise the cursor moves to the next question,
        or on the last question the score is computed and the results shown. */
    method HandleSubmitAnswer() returns (accepted: bool)
      requires Valid()
      modifies this`currentQuestionIndex, this`score, this`showResults
      ensures Valid()
      ensures accepted <==> old(userAnswers[currentQuestionIndex]) != ""
      ensures !accepted ==> currentQuestionIndex == old(currentQuestionIndex) && score == old(score) && showResults == old(showResults)
      ensures accepted && old(currentQuestionIndex) < |testCards| - 1 ==>
        currentQuestionIndex == old(currentQuestionIndex) + 1 && score == old(score) && showResults == old(showResults)
      ensures accepted && old(currentQuestionIndex) == |testCards| - 1 ==>
        currentQuestionIndex == old(currentQuestionIndex) && showResults && score == Score(testCards, userAnswers)
    {
      if userAnswers[currentQuestionIndex] == "" {
        accepted := false;
        return;
      }
      accepted := true;
      if currentQuestionIndex < |testCards| - 1 {
        currentQuestionIndex := currentQuestionIndex + 1;
      } else {
        score := CalculateScore(testCards, userAnswers);
        showResults := true;
      }
    }

    /** The percentage shown on the result screen. */
    function ShownPercentage(): (p: nat)
      reads this
      requires Valid()
      ensures p <= 100
    {
      PercentageBounds(score, |testCards|);
      Percentage(score, |testCards|)
    }
  }
}
