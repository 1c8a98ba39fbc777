# Learn-wave flashcards: session logic in Dafny

This project models the session logic of the learn-wave-cards flashcard app.
A card has an id, a question, an answer, an optional image and an optional
school grade. The main page picks a deck by subject and grade, then runs one
of four modes on it:

- **Learn**: a cursor over the deck with "previous" and "next" buttons that
  stop at either end.
- **Test**: the user types an answer for every card of a shuffled deck, one
  card at a time. An empty answer is refused. After the last card, every
  answer is checked with the lenient verifier described below. The page then
  shows the score, its rounded percentage and one of three messages (at least
  80 %, at least 60 %, below).
- **Marathon**: answer as many cards as possible in 60 seconds.
  - Each non-blank answer is checked with the same verifier and scores a
    point when correct.
  - The cursor moves on, and the deck is reshuffled whenever it runs out.
  - A one-second tick counts the clock down and ends the game at zero.
  - The final message depends on the score: above 10, above 5, or otherwise.
- **Matching**: up to six cards are drawn. Each card gives a question tile
  (`q-<id>`) and an answer tile (`a-<id>`), and the tiles are shuffled.
  A tile id is the pair of side and card id (`MatchingGame.TileId`);
  `MatchingGame.IdStringInjective` shows that comparing the pairs is
  comparing the strings.
  - The first click arms a tile.
  - A second click on its partner (same card, other side) matches the pair.
  - Any other second click uncovers the tile, and a revert covers both tiles
    again one second later.
  - Second clicks count as moves. The game is complete when every drawn card
    is matched. The final message depends on the moves, compared with the
    number of pairs.

The answer verifier (`Fuzzy.IsCorrect`) lower-cases and trims the input and
lower-cases the card's answer. The input passes when either string contains
the other, or when an input longer than three characters occurs in the
answer with its last character dropped.

Everything that is random in the app (the `sort(() => Math.random() - 0.5)`
shuffles) is a Fisher–Yates shuffle here, driven by a sequence of draws passed
in as a parameter. The model promises only that the result is a permutation
of the input. Timers are operations the caller invokes:
- `MarathonMode.MarathonSession.Tick` stands for one firing of the one-second
  interval.
- `MatchingGame.MatchingSession.FireRevertAsWritten` stands for the
  one-second timeout after a mismatch, as the code schedules it.
  `MatchingGame.MatchingSession.FireRevert` is the corrected callback that
  the Findings section describes.

Each stateful React component is a class. Its `useState` variables are the
class's fields, and each event handler or effect is a method that states the
component's whole new state. Each class's `Valid` predicate is the invariant
its methods keep. For the Matching game, `Valid` also says that when the
drawn cards have distinct ids, no two tiles on the board share a tile id.

Modules: `Cards` (the card record, the shuffle), `Fuzzy` (the verifier),
`LearnMode`, `TestMode`, `MarathonMode`, `MatchingGame`, `IndexPage`.

## Model

| member | source | states |
|---|---|---|
| Cards.Shuffle | src/components/TestMode.tsx:20 | the shuffled deck is a permutation of the given one (same multiset, same length) |
| Cards.PrefixOfPermutation | src/components/MatchingGame.tsx:37 | the first n cards of a shuffle are n cards of the original deck |
| Cards.KeyCountedOnce | src/components/MatchingGame.tsx:37 | in a list whose keys are distinct, every element occurs at most once |
| Cards.CountedTwice | src/components/MatchingGame.tsx:37 | an element at two positions occurs at least twice |
| Cards.KeysDistinctOfSubMultiset | src/components/MatchingGame.tsx:37-64 | any rearrangement of part of a list with distinct keys has distinct keys |
| Cards.DrawKeepsDistinctIds | src/components/MatchingGame.tsx:37 | cards drawn from a deck with distinct card ids have distinct ids |
| Cards.Min | src/components/MatchingGame.tsx:103 | the smaller of the two values, at most each, equal to one of them |
| Fuzzy.IsCorrect | src/components/MarathonMode.tsx:73-79 | definition: the three-way disjunction (answer includes input, input includes answer, input longer than 3 with its last character chopped is included in the answer) over the trimmed, lower-cased input and the lower-cased answer; Test mode (TestMode.tsx:50-56) repeats the same check |
| Fuzzy.Trim | src/components/MarathonMode.tsx:73 | definition: `trim()` is `TrimStart` followed by `TrimEnd` |
| Fuzzy.LowerChar | src/components/MarathonMode.tsx:73-74 | definition: `toLowerCase` of one character; capitals A–Z, À–Þ except ×, Ѐ–Џ and А–Я map to their small forms, every other character stays |
| Fuzzy.Contains | src/components/MarathonMode.tsx:77-79 | definition: `includes` holds iff the needle occurs at some position of the haystack |
| Fuzzy.InputInsideAnswer | src/components/MarathonMode.tsx:77 | an input whose normalised form occurs in the lower-cased answer passes |
| Fuzzy.OccursAtEnd | src/components/MarathonMode.tsx:77 | a string occurs at the end of any concatenation it ends |
| Fuzzy.TrimStart | src/components/MarathonMode.tsx:73 | the result is a suffix of the input; everything cut off is JavaScript whitespace; the result does not start with whitespace |
| Fuzzy.TrimEnd | src/components/MarathonMode.tsx:73 | the result is a prefix of the input; everything cut off is whitespace; the result does not end with whitespace |
| Fuzzy.TrimEmptyIff | src/components/MarathonMode.tsx:70 | `trim()` gives the empty string exactly when every character is whitespace |
| Fuzzy.TrimIsInfix | src/components/MarathonMode.tsx:73 | the trimmed string occurs inside the original |
| Fuzzy.Lower | src/components/MarathonMode.tsx:73-74 | lower-casing keeps the length |
| Fuzzy.LowerKeepsBlank | src/components/MarathonMode.tsx:73 | lower-casing leaves whitespace untouched |
| Fuzzy.LowerIdempotent | src/components/MarathonMode.tsx:73-74 | lower-casing twice is lower-casing once |
| Fuzzy.ContainsEmpty | src/components/MarathonMode.tsx:77 | `includes('')` is true for every string |
| Fuzzy.ContainsItself | src/components/MarathonMode.tsx:77 | every string includes itself |
| Fuzzy.NotContainsMissingChar | src/components/MarathonMode.tsx:77 | a needle whose first character is absent from the haystack is not included |
| Fuzzy.BlankInputIsCorrect | src/components/TestMode.tsx:51-56 | an input that trims to nothing passes the check against any answer |
| Fuzzy.AnswerItselfIsCorrect | src/components/MarathonMode.tsx:73-79 | typing the card's answer verbatim always passes |
| Fuzzy.CaseInsensitive | src/components/MarathonMode.tsx:73-74 | the verdict does not change when either side is lower-cased first |
| Fuzzy.LowerAppend | src/components/MarathonMode.tsx:73-74 | `toLowerCase` of a concatenation is the concatenation of the lower-cased parts |
| Fuzzy.WordOfAnswerExample | src/components/MarathonMode.tsx:77 | the single word "волны" passes against "Механические волны" |
| Fuzzy.UnrelatedWordExample | src/components/MarathonMode.tsx:77-79 | "xyz" fails against "частота колебаний" |
| LearnMode.PrevIndex | src/components/LearnMode.tsx:13-15 | "previous" steps back one card, or stays on the first card |
| LearnMode.NextIndex | src/components/LearnMode.tsx:17-19 | "next" steps forward one card, or stays on the last card |
| LearnMode.MovesStayInDeck | src/components/LearnMode.tsx:13-19 | both moves keep a cursor on the deck |
| LearnMode.NextThenPrev | src/components/LearnMode.tsx:13-19 | "next" then "previous" returns to the card, except from the last card |
| LearnMode.PrevThenNext | src/components/LearnMode.tsx:13-19 | "previous" then "next" returns to the card, except from the first card |
| LearnMode.WalkStaysInDeck | src/components/LearnMode.tsx:13-21 | any sequence of moves keeps the shown card `cards[currentCardIndex]` in range |
| LearnMode.LearnSession.constructor | src/components/LearnMode.tsx:10-11 | the cursor starts on the first card of the deck |
| LearnMode.LearnSession.HandlePrev | src/components/LearnMode.tsx:13-15 | the cursor becomes `PrevIndex` of the old one, and stays on the deck |
| LearnMode.LearnSession.HandleNext | src/components/LearnMode.tsx:17-19 | the cursor becomes `NextIndex` of the old one, and stays on the deck |
| LearnMode.LearnSession.ReceiveCardsAsWritten | src/components/LearnMode.tsx:10-21 | a new deck keeps the old cursor, which is valid iff it is below the new deck's length |
| LearnMode.LearnSession.ReceiveCards | src/components/LearnMode.tsx:10-21 | corrected: a new deck puts the cursor on its first card |
| LearnMode.StaleCursorAfterDeckChange | src/components/LearnMode.tsx:21-32 | going to card 3 of 3 and switching to a one-card deck leaves the cursor past the end |
| LearnMode.CursorAfterCorrectedDeckChange | src/components/LearnMode.tsx:21-32 | with the corrected deck change the same steps leave the cursor on the deck |
| TestMode.CountTrue | src/components/TestMode.tsx:49-58 | the count of passing answers is at most the number of answers |
| TestMode.CountTrueAll | src/components/TestMode.tsx:49-58 | the count equals the number of answers iff every answer passes |
| TestMode.CountTrueNone | src/components/TestMode.tsx:49-58 | the count is 0 iff no answer passes |
| TestMode.CountTrueMonotone | src/components/TestMode.tsx:49-58 | turning failed answers into passing ones never lowers the count |
| TestMode.Verdicts | src/components/TestMode.tsx:50-56 | one verdict per card of the deck |
| TestMode.VerdictAt | src/components/TestMode.tsx:50-56 | position i holds the verdict of answer i against card i's answer |
| TestMode.Score | src/components/TestMode.tsx:48-58 | the number of answers that pass the check is at most the number of cards |
| TestMode.ScoreStep | src/components/TestMode.tsx:50-57 | checking one more answer raises the count by one exactly when that answer passes |
| TestMode.CalculateScore | src/components/TestMode.tsx:48-62 | the loop's count is the number of positions whose answer passes, and at most the number of cards |
| TestMode.Percentage | src/components/TestMode.tsx:74 | `Math.round(score / total * 100)`: within half a point of 100·score/total, ties rounding up |
| TestMode.PercentageBounds | src/components/TestMode.tsx:74 | the percentage is at most 100; all correct gives 100, none gives 0 |
| TestMode.PercentageMonotone | src/components/TestMode.tsx:74 | a higher score never gives a lower percentage |
| TestMode.ResultBand | src/components/TestMode.tsx:92-96 | top message iff percentage ≥ 80, bottom message iff below 60 |
| TestMode.BandMonotone | src/components/TestMode.tsx:74-96 | a higher score never earns a lesser message |
| TestMode.FourCardScenario | src/components/TestMode.tsx:48-96 | right, wrong, right, right scores 3, shows 75 %, and gets the middle message |
| TestMode.BlankAnswersScore | src/components/TestMode.tsx:34-62 | answers that trim to nothing all count as correct, so a test answered only with blanks scores full marks (whether a blank is accepted at submission is stated by `HandleSubmitAnswer`: exactly the non-empty ones are) |
| TestMode.TestSession.constructor | src/components/TestMode.tsx:12-26 | mounting starts a fresh test: shuffled deck, one empty answer per card, first question, no score |
| TestMode.TestSession.ReceiveCards | src/components/TestMode.tsx:18-26 | a new deck starts a fresh test on it |
| TestMode.TestSession.Restart | src/components/TestMode.tsx:64-71 | restarting reshuffles the same deck and clears answers, cursor, score and results |
| TestMode.TestSession.HandleAnswerChange | src/components/TestMode.tsx:28-32 | typing writes the current question's answer slot and no other |
| TestMode.TestSession.HandleSubmitAnswer | src/components/TestMode.tsx:34-46 | refused, with nothing changed, iff the slot is empty; otherwise moves to the next question, or on the last one stores the score of all answers and shows the results |
| TestMode.TestSession.ShownPercentage | src/components/TestMode.tsx:74 | the shown percentage never exceeds 100 |
| MarathonMode.ResultBand | src/components/MarathonMode.tsx:116-120 | top message iff score > 10, bottom message iff score ≤ 5 |
| MarathonMode.BandMonotone | src/components/MarathonMode.tsx:116-120 | a higher score never earns a lesser message |
| MarathonMode.MarathonSession.constructor | src/components/MarathonMode.tsx:13-26 | mounting resets: shuffled deck, first card, empty input, no score, 60 s, not playing, not over |
| MarathonMode.MarathonSession.ReceiveCards | src/components/MarathonMode.tsx:23-26 | a new deck resets the marathon |
| MarathonMode.MarathonSession.ResetMarathon | src/components/MarathonMode.tsx:53-62 | the reset state, with the deck a reshuffle of the cards |
| MarathonMode.MarathonSession.StartGame | src/components/MarathonMode.tsx:64-67 | a reset followed by playing with the full 60 s |
| MarathonMode.MarathonSession.SetUserAnswer | src/components/MarathonMode.tsx:185 | the input holds what was typed |
| MarathonMode.MarathonSession.CheckAnswer | src/components/MarathonMode.tsx:69-97 | blank input is refused and changes nothing; otherwise the verdict is the fuzzy check against the current card, a correct answer scores exactly one point, the cursor advances or the deck is reshuffled and restarted, and the input is cleared |
| MarathonMode.MarathonSession.NextCard | src/components/MarathonMode.tsx:86-94 | the cursor moves to the next card, or past the last card the deck is reshuffled and the cursor returns to the first card |
| MarathonMode.MarathonSession.Tick | src/components/MarathonMode.tsx:28-44 | while playing one second is taken off and the game ends exactly when the clock reaches 0; otherwise nothing changes |
| MarathonMode.SixtySecondsEndTheGame | src/components/MarathonMode.tsx:28-44 | a started marathon ends after exactly 60 ticks, whatever is answered in between |
| MatchingGame.DigitChar | src/components/MatchingGame.tsx:44 | a digit's character is a decimal digit |
| MatchingGame.NatToString | src/components/MatchingGame.tsx:44 | a non-negative id's numeral is non-empty and all digits |
| MatchingGame.IntToString | src/components/MatchingGame.tsx:44 | an id's numeral is non-empty |
| MatchingGame.ParseNatToString | src/components/MatchingGame.tsx:44 | reading a numeral back gives the number |
| MatchingGame.NumeralSign | src/components/MatchingGame.tsx:44 | a numeral starts with '-' iff the id is negative |
| MatchingGame.IntToStringInjective | src/components/MatchingGame.tsx:44 | different ids give different numerals |
| MatchingGame.IdString | src/components/MatchingGame.tsx:44-54 | a tile id's string is `q-` or `a-` by side, followed by the card id's numeral |
| MatchingGame.IdStringInjective | src/components/MatchingGame.tsx:44-54 | two tile ids have the same string iff they are the same side of the same card, so ids may be compared as pairs |
| MatchingGame.QuestionItem | src/components/MatchingGame.tsx:43-50 | a question tile shows the card's question, refers to its id, and starts covered and unmatched |
| MatchingGame.AnswerItem | src/components/MatchingGame.tsx:53-60 | an answer tile shows the card's answer, refers to its id, and starts covered and unmatched |
| MatchingGame.ItemsFor | src/components/MatchingGame.tsx:40-61 | a game of n cards has 2n tiles |
| MatchingGame.ItemAt | src/components/MatchingGame.tsx:41-61 | card k's question tile is tile 2k and its answer tile is tile 2k+1 |
| MatchingGame.TileAt | src/components/MatchingGame.tsx:41-61 | tile i is a side of card i/2: the question when i is even, else the answer |
| MatchingGame.ItemsStartCovered | src/components/MatchingGame.tsx:48-59 | every built tile is covered and unmatched |
| MatchingGame.ShuffledItemsCovered | src/components/MatchingGame.tsx:64 | a shuffle of the tiles is still all covered and unmatched |
| MatchingGame.PrefixedIdsDiffer | src/components/MatchingGame.tsx:44-54 | `q-`/`a-` ids differ when the sides or the card ids differ |
| MatchingGame.TileIdsDiffer | src/components/MatchingGame.tsx:41-61 | two different tiles of a game with distinct card ids have different ids (side and card id) |
| MatchingGame.ItemIdsUnique | src/components/MatchingGame.tsx:41-61 | with distinct card ids all tile ids of a game are distinct |
| MatchingGame.ShuffleKeepsUniqueIds | src/components/MatchingGame.tsx:64 | shuffling the tiles keeps their ids distinct |
| MatchingGame.BuildItems | src/components/MatchingGame.tsx:40-61 | the `forEach` loop builds exactly the question-then-answer tile list of the drawn cards |
| MatchingGame.IsPair | src/components/MatchingGame.tsx:89 | definition: two tiles match iff they refer to the same card and are of different sides |
| MatchingGame.PartnerExists | src/components/MatchingGame.tsx:40-61 | every tile of the built tile list has a partner in it (the other side of its card) |
| MatchingGame.PartnerIsUnique | src/components/MatchingGame.tsx:89 | in the built tile list of cards with distinct ids, a tile has at most one partner |
| MatchingGame.BoardPartnerExists | src/components/MatchingGame.tsx:37-64 | every tile of a dealt (shuffled) board has a partner on the board |
| MatchingGame.BoardPartnerIsUnique | src/components/MatchingGame.tsx:37-89 | on a board dealt from cards with distinct ids, a tile has at most one partner, so with `BoardPartnerExists` exactly one |
| MatchingGame.SetSelected | src/components/MatchingGame.tsx:78-80 | exactly the tiles with the clicked id become selected |
| MatchingGame.MarkMatched | src/components/MatchingGame.tsx:92-98 | exactly the tiles with either id become matched and covered |
| MatchingGame.Deselect | src/components/MatchingGame.tsx:115-121 | exactly the tiles with either id become covered |
| MatchingGame.SelectOnlyClicked | src/components/MatchingGame.tsx:78-80 | with distinct ids, selecting changes the clicked tile alone |
| MatchingGame.MatchOnlyPair | src/components/MatchingGame.tsx:92-121 | with distinct ids, a match or a revert changes the two named tiles alone |
| MatchingGame.OthersHaveOtherIds | src/components/MatchingGame.tsx:78-121 | on a board with distinct tile ids, no other tile shares tile k's id |
| MatchingGame.BoardUpdatesKeepTiles | src/components/MatchingGame.tsx:78-121 | selecting, matching and covering keep every tile's id, text and side, and never undo a match |
| MatchingGame.SameTilesKeepIds | src/components/MatchingGame.tsx:78-121 | a board update that keeps the tiles keeps their ids distinct |
| MatchingGame.SelectKeepsOthers | src/components/MatchingGame.tsx:78-80 | with distinct ids, selecting tile k leaves every tile other than k and the armed tile as it was |
| MatchingGame.MatchKeepsOthers | src/components/MatchingGame.tsx:92-98 | with distinct ids, matching tile k with the armed tile leaves every other position as it was |
| MatchingGame.ArmKeepsAccounted | src/components/MatchingGame.tsx:78-80 | arming a tile while nothing is armed keeps every uncovered tile armed or waiting for a revert |
| MatchingGame.MatchKeepsAccounted | src/components/MatchingGame.tsx:92-98 | a match keeps every uncovered tile armed or waiting for a revert |
| MatchingGame.MissKeepsAccounted | src/components/MatchingGame.tsx:110-123 | a mismatch and its scheduled revert keep every uncovered tile armed or waiting for a revert |
| MatchingGame.MovesBand | src/components/MatchingGame.tsx:146-150 | top message iff moves ≤ pairs + 2, bottom message iff moves exceed both pairs + 2 and twice the pairs |
| MatchingGame.MovesBandMonotone | src/components/MatchingGame.tsx:146-150 | fewer moves never earn a lesser message, and a game without a mismatch is excellent |
| MatchingGame.MatchingSession.FinalMessage | src/components/MatchingGame.tsx:142-152 | a message is shown iff the game is complete, and it is the band of the session's moves against `cards.slice(0, 6).length`: excellent within two moves of it, "keep practicing" beyond twice it plus two |
| MatchingGame.NamedAppend | src/components/MatchingGame.tsx:114 | scheduling a revert keeps the tiles already named by waiting reverts and adds its own two |
| MatchingGame.NamedTail | src/components/MatchingGame.tsx:114-123 | firing the oldest revert keeps the names of the others |
| MatchingGame.DealBoard | src/components/MatchingGame.tsx:37-64 | min(6, deck size) cards from the deck, and a shuffle of their tiles, all covered and unmatched, with distinct tile ids when the deck's card ids are distinct |
| MatchingGame.MatchingSession.constructor | src/components/MatchingGame.tsx:22-33 | mounting: not started, nothing armed, and a fresh board when the deck has cards |
| MatchingGame.MatchingSession.ReceiveCards | src/components/MatchingGame.tsx:29-33 | a non-empty new deck gets a fresh board; an empty one leaves the board |
| MatchingGame.MatchingSession.PrepareGame | src/components/MatchingGame.tsx:35-68 | a fresh board dealt from the deck with the counters cleared, its tile ids distinct when the deck's card ids are; the armed tile and waiting reverts are kept |
| MatchingGame.MatchingSession.StartNewGame | src/components/MatchingGame.tsx:127-130 | a fresh board, with distinct tile ids when the deck's card ids are distinct, and the game is on |
| MatchingGame.MatchingSession.HandleItemClick | src/components/MatchingGame.tsx:70-125 | matched or selected tiles ignore clicks; a first click arms; a second click is one move and either matches the pair, with the pair count up and completion exactly at the number of drawn cards, or uncovers and schedules a revert; tiles never change identity, matches are never undone, every uncovered tile stays accounted for, and with distinct card ids every position other than the clicked tile and the armed tile is unchanged |
| MatchingGame.MatchingSession.HandleSecondClick | src/components/MatchingGame.tsx:82-123 | a second click is one move; on the armed tile's partner both become matched and the pair count rises, otherwise tile k is uncovered and a revert naming both is queued; the invariant, including distinct tile ids, is kept, and no other position changes |
| MatchingGame.MatchingSession.FireRevertAsWritten | src/components/MatchingGame.tsx:114-123 | the oldest revert covers its two tiles and always disarms, keeping the board invariant |
| MatchingGame.MatchingSession.FireRevert | src/components/MatchingGame.tsx:114-123 | corrected: disarms only if the armed tile is the one it names, so every uncovered tile stays armed or waiting to be covered; keeps the board invariant |
| MatchingGame.ArmThenMiss | src/components/MatchingGame.tsx:70-123 | arming a tile and then clicking a non-partner uncovers both, keeps the first armed and schedules one revert naming both |
| MatchingGame.StuckTileAsWritten | src/components/MatchingGame.tsx:70-125 | mismatch, then a quick match and a new first click: when the revert fires, the new tile stays uncovered, unarmed and ignores clicks |
| MatchingGame.StuckTileCorrected | src/components/MatchingGame.tsx:70-125 | the same clicks with the corrected revert leave the new tile armed |
| IndexPage.CardsForSubject | src/pages/Index.tsx:27-38 | the subject selects its own pool |
| IndexPage.HasGrade | src/pages/Index.tsx:41 | definition: a card belongs to a grade iff its grade equals the selected one |
| IndexPage.FilterByGrade | src/pages/Index.tsx:40-42 | the deck keeps, in pool order and with their multiplicity, exactly the cards of that grade |
| IndexPage.FilterIdempotent | src/pages/Index.tsx:40-42 | filtering the deck again by the same grade changes nothing |
| IndexPage.GradeDecksDisjoint | src/pages/Index.tsx:40-42 | decks of different grades share no card |
| IndexPage.EveryGradedCardIsReachable | src/pages/Index.tsx:40-42 | a card with an offered grade is in that grade's deck and in no other offered grade's deck |
| IndexPage.DeckFor | src/pages/Index.tsx:27-42 | the deck holds exactly the subject's cards of the grade |
| IndexPage.MainContent | src/pages/Index.tsx:68-80 | the mode is shown with the deck iff the deck has cards, else the "no flashcards" notice |
| IndexPage.Render | src/pages/Index.tsx:68-81 | a mode's component is mounted iff the deck has cards, and then with a deck that meets every component's non-empty precondition |
| IndexPage.InitialScreen | src/pages/Index.tsx:15-17 | the initial choices show Learn mode with physics grade 7 when that deck has cards |

## Left out

- Randomness: each `sort(() => Math.random() - 0.5)` is a Fisher–Yates shuffle over caller-supplied draws. Only "a permutation of the input" is promised. The skewed distribution of a random comparator is not modelled.
- Timers: `setInterval` and `setTimeout` are the operations `Tick` and `FireRevertAsWritten` (with `FireRevert` as its corrected form), called by the caller. Wall-clock time and timer cancellation on unmount are not modelled. So is the extra interval the Marathon effect may create between a tick and its re-run.
- React rendering: each handler sees the state of the last render, and each handler call is one render step. Batching of several events inside one render is not modelled.
- MarathonMode.MarathonSession.CheckAnswer, TestMode.TestSession.HandleSubmitAnswer and MatchingGame.MatchingSession.HandleItemClick are modelled without their render guards: the code only shows the answer form while `isPlaying`, the submit button while `!showResults`, and the board while `isGameStarted && !gameCompleted`. The model allows these handlers in every state and states what they do there.
- Side effects that change no state are left out: toasts, input focus, JSX layout, card flipping, the Header.
- Fuzzy.LowerChar: lower-casing covers Basic Latin, Latin-1 and basic Cyrillic (U+0400–U+042F) capitals. Every other case mapping (including capitals of the same scripts outside these ranges, such as Ł U+0141 or Ґ U+0490) and mappings that change the length are not modelled; such characters are left as they are.
- Strings are sequences of Unicode scalar values, while JavaScript strings are sequences of UTF-16 code units. For characters outside the Basic Multilingual Plane the `length > 3` test and the one-unit chop of `substring(0, length - 1)` therefore differ: input "ab😀" against answer "ab😁" passes in JavaScript (the chop leaves "ab" plus the shared high surrogate) but not in the model.
- TestMode.Percentage: `Math.round` on a double is modelled exactly on integers. Floating-point error at exact halves is not modelled.
- IndexPage.FilterByGrade: the grade comes from `parseInt` of one of the selector values "7" to "11". It is modelled as that integer; parsing other strings is not modelled.
- MatchingGame.IntToString: card ids are modelled as integers written in plain decimal. JavaScript writes numbers of magnitude 1e21 and above in exponent form (`${1e21}` is "1e+21"), and non-integer numeric ids are not modelled.
- MatchingGame.IntToStringInjective: holds of the model's unbounded integers only. Above 2^53 JavaScript numbers merge distinct integers, so two such card ids can give the same tile id there.
- MatchingGame.MatchingSession.PrepareGame keeps the armed tile across a new board, as the code does. A stale armed tile then makes the first click on a deck changed mid-game count as a second click. This is kept as written and not corrected.
- The stuck tile found here means no later play on that board can complete the game. The model shows only that clicks on the tile are ignored; no lemma covers every later sequence of clicks.
- The code has no multiple-choice questions, distractor answers, time bonuses or penalties, and no formula cards; the model follows the code and has none of them either.

## Findings

| source | as written | input that shows it | evidently intended | confidence | as-written member | corrected member |
|---|---|---|---|---|---|---|
| src/components/LearnMode.tsx:11-21 | the cursor is not reset when the `cards` prop changes | go to card 3 of a 3-card deck, then pick a grade whose deck has 1 card: `cards[2]` is undefined and `currentCard.id` throws | a new deck starts at its first card, as the other modes do | medium, not executed | LearnMode.StaleCursorAfterDeckChange | LearnMode.CursorAfterCorrectedDeckChange |
| src/components/MatchingGame.tsx:114-123 | the revert after a mismatch always clears the armed tile | arm A, click a non-partner B, then within the second click A's partner and then tile Y: when the revert fires, Y stays uncovered but unarmed, and clicks on it are ignored | the revert disarms only the tile it belongs to, so every uncovered tile is the armed one or waiting to be covered | medium, not executed | MatchingGame.StuckTileAsWritten | MatchingGame.StuckTileCorrected |
