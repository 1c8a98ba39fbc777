/** The main page: a subject and a grade pick a deck from the card library,
    and the chosen mode is shown with that deck, or a notice when the deck is
    empty. */
module IndexPage {
  import opened Cards
  import LearnMode
  import TestMode
  import MarathonMode
  import MatchingGame

  datatype Subject = Physics | Algebra | Geometry

  datatype Mode = Learn | Test | Marathon | Matching

  /** The three subject pools of the card library. */
  datatype Library = Library(physics: seq<FlashCard>, algebra: seq<FlashCard>, geometry: seq<FlashCard>)

  /** The page's initial choices. */
  const DefaultMode: Mode := Learn
  const DefaultSubject: Subject := Physics
  const DefaultGrade: int := 7

  /** The grades the grade selector offers. */
  const Grades: seq<int> := [7, 8, 9, 10, 11]

  /** The pool of the chosen subject. */
  function CardsForSubject(subject: Subject, library: Library): (pool: seq<FlashCard>)
    ensures subject == Physics ==> pool == library.physics
    ensures subject == Algebra ==> pool == library.algebra
    ensures subject == Geometry ==> pool == library.geometry
  {
    match subject
    case Physics => library.physics
    case Algebra => library.algebra
    case Geometry => library.geometry
  }

  /** The card carries exactly this grade; a card without a grade has none. */
  predicate HasGrade(card: FlashCard, grade: int) {
    card.grade == Some(grade)
  }

  /** `xs` is `ys` with some elements left out, the rest in their order. */
  predicate IsSubsequence<T(==)>(xs: seq<T>, ys: seq<T>)
    decreases |ys|
  {
    if xs == [] then true
    else if ys == [] then false
    else (xs[0] == ys[0] && IsSubsequence(xs[1..], ys[1..])) || IsSubsequence(xs, ys[1..])
  }

  /** The cards of `pool` whose grade is `grade`, in pool order: every such
      card is kept as often as it occurs, and every other card is dropped. */
  function FilterByGrade(pool: seq<FlashCard>, grade: int): (r: seq<FlashCard>)
    ensures |r| <= |pool|
    ensures IsSubsequence(r, pool)
    ensures forall c :: c in r <==> c in pool && HasGrade(c, grade)
    ensures forall c :: multiset(r)[c] == if HasGrade(c, grade) then multiset(pool)[c] else 0
  {
    if pool == [] then []
    else
      var rest := FilterByGrade(pool[1..], grade);
      assert pool == [pool[0]] + pool[1..];
      if HasGrade(pool[0], grade) then [pool[0]] + rest else rest
  }

  /** Filtering an already filtered deck by the same grade changes nothing. */
  lemma {:induction false} FilterIdempotent(pool: seq<FlashCard>, grade: int)
    ensures FilterByGrade(FilterByGrade(pool, grade), grade) == FilterByGrade(pool, grade)
  {
    if pool != [] {
      FilterIdempotent(pool[1..], grade);
      var rest := FilterByGrade(pool[1..], grade);
      if HasGrade(pool[0], grade) {
        assert ([pool[0]] + rest)[1..] == rest;
      }
    }
  }

  /** The decks of two different grades share no card. */
  lemma GradeDecksDisjoint(pool: seq<FlashCard>, g1: int, g2: int)
    requires g1 != g2
    ensures forall c :: c in FilterByGrade(pool, g1) ==> c !in FilterByGrade(pool, g2)
  {
  }

  /** A card of the pool whose grade is one of the offered grades appears in
      the deck of that grade, and in no other offered grade's deck. */
  lemma EveryGradedCardIsReachable(pool: seq<FlashCard>, card: FlashCard)
    requires card in pool && card.grade.Some? && card.grade.value in Grades
    ensures exists g :: g in Grades && card in FilterByGrade(pool, g)
    ensures forall g :: g in Grades && card in FilterByGrade(pool, g) ==> g == card.grade.value
  {
    assert card in FilterByGrade(pool, card.grade.value);
  }

  /** The deck for a subject and a grade. */
  function DeckFor(subject: Subject, grade: int, library: Library): (deck: seq<FlashCard>)
    ensures forall c :: c in deck <==> c in CardsForSubject(subject, library) && HasGrade(c, grade)
  {
    FilterByGrade(CardsForSubject(subject, library), grade)
  }

  /** What the main area shows. */
  datatype Screen = NoCards | ModeScreen(mode: Mode, deck: seq<FlashCard>)

  /** The main area: the chosen mode with the deck when the deck has cards,
      the "no flashcards" notice otherwise. */
  function MainContent(mode: Mode, subject: Subject, grade: int, library: Library): (screen: Screen)
    ensures screen == NoCards <==> DeckFor(subject, grade, library) == []
    ensures screen.ModeScreen? ==>
      && screen.mode == mode && |screen.deck| > 0
      && screen.deck == DeckFor(subject, grade, library)
  {
    var deck := DeckFor(subject, grade, library);
    if |deck| > 0 then ModeScreen(mode, deck) else NoCards
  }

  /** Renders the main area and mounts the chosen mode's component with the
      deck: every component that is mounted gets a deck with cards. The
      shuffles the components run draw from `picks` and `itemPicks`. */
  method Render(mode: Mode, subject: Subject, grade: int, library: Library, picks: seq<nat>, itemPicks: seq<nat>)
    returns (shown: bool)
    ensures shown <==> DeckFor(subject, grade, library) != []
    ensures shown <==> MainContent(mode, subject, grade, library).ModeScreen?
  {
    var screen := MainContent(mode, subject, grade, library);
    match screen
    case NoCards =>
      shown := false;
    case ModeScreen(m, deck) =>
      shown := true;
      match m
      case Learn =>
        var learn := new LearnMode.LearnSession(deck);
      case Test =>
        var test := new TestMode.TestSession(deck, picks);
      case Marathon =>
        var marathon := new MarathonMode.MarathonSession(deck, picks);
      case Matching =>
        var matching := new MatchingGame.MatchingSession(deck, picks, itemPicks);
  }

  /** With the page's initial choices the physics grade-7 deck is shown in
      Learn mode when it has cards. */
  lemma InitialScreen(library: Library)
    requires exists c :: c in library.physics && HasGrade(c, 7)
    ensures MainContent(DefaultMode, DefaultSubject, DefaultGrade, library) == ModeScreen(Learn, FilterByGrade(library.physics, 7))
  {
    var c :| c in library.physics && HasGrade(c, 7);
    assert c in DeckFor(Physics, 7, library);
  }
}
