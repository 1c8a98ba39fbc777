/** The matching game: up to six cards are drawn, each gives a question tile
    and an answer tile, and the shuffled tiles are uncovered two at a time.
    A second click on the partner tile of the first (same card, other side)
    matches the pair; any other second click is shown briefly and then both
    tiles are covered again. */
module MatchingGame {
  import opened Cards

  /** The most cards one game uses. */
  const MaxPairs: nat := 6

  // ----- Tile ids: `q-<id>` and `a-<id>` -----

  function DigitChar(d: nat): (c: char)
    requires d < 10
    ensures '0' <= c <= '9'
  {
    ('0' as int + d) as char
  }

  function DigitValue(c: char): nat
    requires '0' <= c <= '9'
  {
    c as int - '0' as int
  }

  predicate AllDigits(s: string) {
    forall k :: 0 <= k < |s| ==> '0' <= s[k] <= '9'
  }

  /** The decimal numeral of `n`, as a template literal writes a non-negative integer. */
  function NatToString(n: nat): (s: string)
    ensures |s| > 0 && AllDigits(s)
    decreases n
  {
    if n < 10 then [DigitChar(n)] else NatToString(n / 10) + [DigitChar(n % 10)]
  }

  /** The decimal numeral of `i`, with a minus sign when negative. */
  function IntToString(i: int): (s: string)
    ensures |s| > 0
  {
    if i < 0 then "-" + NatToString(-i) else NatToString(i)
  }

  /** Reads a decimal numeral back. */
  function ParseNat(s: string): nat
    requires |s| > 0 && AllDigits(s)
  {
    if |s| == 1 then DigitValue(s[0])
    else ParseNat(s[..|s| - 1]) * 10 + DigitValue(s[|s| - 1])
  }

  lemma {:induction false} ParseNatToString(n: nat)
    ensures ParseNat(NatToString(n)) == n
    decreases n
  {
    if n >= 10 {
      var s := NatToString(n);
      assert s[..|s| - 1] == NatToString(n / 10);
      ParseNatToString(n / 10);
    }
  }

  /** A numeral starts with a minus sign exactly when the number is negative. */
  lemma NumeralSign(a: int)
    ensures IntToString(a)[0] == '-' <==> a < 0
  {
    if a >= 0 {
      assert '0' <= NatToString(a)[0] <= '9';
    }
  }

  /** Different card ids give different numerals. */
  lemma IntToStringInjective(a: int, b: int)
    requires IntToString(a) == IntToString(b)
    ensures a == b
  {
    var sa, sb := IntToString(a), IntToString(b);
    NumeralSign(a);
    NumeralSign(b);
    if a < 0 {
      assert sa[1..] == NatToString(-a);
      assert sb[1..] == NatToString(-b);
      ParseNatToString(-a);
      ParseNatToString(-b);
    } else {
      ParseNatToString(a);
      ParseNatToString(b);
    }
  }

  // ----- Tiles -----

  datatype ItemType = Question | Answer

  /** A tile's id, written `q-<card id>` for a question tile and
      `a-<card id>` for an answer tile. */
  datatype TileId = TileId(side: ItemType, cardId: int)

  /** The id as the string the board compares. */
  function IdString(t: TileId): (s: string)
    ensures |s| > 2 && s[1] == '-'
    ensures s[0] == (if t.side == Question then 'q' else 'a')
  {
    (if t.side == Question then "q-" else "a-") + IntToString(t.cardId)
  }

  /** Two ids are equal as strings exactly when they are the same id, so
      comparing `TileId`s is comparing the strings. */
  lemma IdStringInjective(a: TileId, b: TileId)
    ensures IdString(a) == IdString(b) <==> a == b
  {
    var p := if a.side == Question then "q-" else "a-";
    var q := if b.side == Question then "q-" else "a-";
    if a != b {
      PrefixedIdsDiffer(p, q, a.cardId, b.cardId);
    }
  }

  /** One tile of the board. */
  datatype MatchingItem = MatchingItem(
    id: TileId,
    content: string,
    itemType: ItemType,
    originalId: int,
    isMatched: bool,
    isSelected: bool)

  function QuestionItem(card: FlashCard): (item: MatchingItem)
    ensures item.itemType == Question && item.originalId == card.id && item.content == card.question
    ensures !item.isMatched && !item.isSelected
  {
    MatchingItem(TileId(Question, card.id), card.question, Question, card.id, false, false)
  }

  function AnswerItem(card: FlashCard): (item: MatchingItem)
    ensures item.itemType == Answer && item.originalId == card.id && item.content == card.answer
    ensures !item.isMatched && !item.isSelected
  {
    MatchingItem(TileId(Answer, card.id), card.answer, Answer, card.id, false, false)
  }

  /** The tiles of the drawn cards, in drawing order: each card's question
      tile followed by its answer tile. */
  function ItemsFor(gameCards: seq<FlashCard>): (items: seq<MatchingItem>)
    ensures |items| == 2 * |gameCards|
  {
    if gameCards == [] then []
    else ItemsFor(gameCards[..|gameCards| - 1]) + [QuestionItem(gameCards[|gameCards| - 1]), AnswerItem(gameCards[|gameCards| - 1])]
  }

  /** Card `k` gives tiles `2k` (its question) and `2k + 1` (its answer). */
  lemma {:induction false} ItemAt(gameCards: seq<FlashCard>, k: nat)
    requires k < |gameCards|
    ensures ItemsFor(gameCards)[2 * k] == QuestionItem(gameCards[k])
    ensures ItemsFor(gameCards)[2 * k + 1] == AnswerItem(gameCards[k])
    decreases |gameCards|
  {
    var n := |gameCards|;
    var front := gameCards[..n - 1];
    var last := gameCards[n - 1];
    assert ItemsFor(gameCards) == ItemsFor(front) + [QuestionItem(last), AnswerItem(last)];
    if k < n - 1 {
      ItemAt(front, k);
      assert front[k] == gameCards[k];
    }
  }

  /** Tile `i` is the question (even `i`) or the answer (odd `i`) of card `i / 2`. */
  lemma TileAt(gameCards: seq<FlashCard>, i: nat)
    requires i < |ItemsFor(gameCards)|
    ensures i / 2 < |gameCards|
    ensures ItemsFor(gameCards)[i] == if i % 2 == 0 then QuestionItem(gameCards[i / 2]) else AnswerItem(gameCards[i / 2])
  {
    ItemAt(gameCards, i / 2);
  }

  /** Every built tile starts covered and unmatched. */
  lemma ItemsStartCovered(gameCards: seq<FlashCard>)
    ensures forall item :: item in ItemsFor(gameCards) ==> !item.isMatched && !item.isSelected
  {
    var items := ItemsFor(gameCards);
    forall item | item in items ensures !item.isMatched && !item.isSelected {
      var i :| 0 <= i < |items| && items[i] == item;
      TileAt(gameCards, i);
    }
  }

  /** A shuffle of a game's tiles is all covered and unmatched. */
  lemma ShuffledItemsCovered(gameCards: seq<FlashCard>, shuffled: seq<MatchingItem>)
    requires multiset(shuffled) == multiset(ItemsFor(gameCards))
    ensures AllCovered(shuffled)
  {
    ItemsStartCovered(gameCards);
    forall k | 0 <= k < |shuffled| ensures !shuffled[k].isMatched && !shuffled[k].isSelected {
      assert shuffled[k] in multiset(ItemsFor(gameCards));
    }
  }

  /** Two ids made of a two-character prefix and a numeral differ when the
      prefixes or the numbers differ. */
  lemma PrefixedIdsDiffer(p: string, q: string, a: int, b: int)
    requires |p| == 2 && |q| == 2
    requires p != q || a != b
    ensures p + IntToString(a) != q + IntToString(b)
  {
    var x, y := p + IntToString(a), q + IntToString(b);
    if p != q {
      assert x[..2] == p && y[..2] == q;
    } else if a != b {
      assert x[2..] == IntToString(a) && y[2..] == IntToString(b);
      if IntToString(a) == IntToString(b) {
        IntToStringInjective(a, b);
      }
    }
  }

  /** Two different tiles of a game with distinct card ids have different ids. */
  lemma TileIdsDiffer(gameCards: seq<FlashCard>, i: nat, j: nat)
    requires DistinctIds(gameCards)
    requires i < j < |ItemsFor(gameCards)|
    ensures ItemsFor(gameCards)[i].id != ItemsFor(gameCards)[j].id
  {
    TileAt(gameCards, i);
    TileAt(gameCards, j);
  }

  /** With distinct card ids, the tile ids of a game are distinct. */
  lemma ItemIdsUnique(gameCards: seq<FlashCard>)
    requires DistinctIds(gameCards)
    ensures UniqueIds(ItemsFor(gameCards))
  {
    forall i: nat, j: nat | i < j < |ItemsFor(gameCards)| ensures ItemsFor(gameCards)[i].id != ItemsFor(gameCards)[j].id {
      TileIdsDiffer(gameCards, i, j);
    }
  }

  /** No two tiles of the board share an id. */
  predicate UniqueIds(items: seq<MatchingItem>) {
    forall i, j :: 0 <= i < j < |items| ==> items[i].id != items[j].id
  }

  function ItemId(item: MatchingItem): TileId {
    item.id
  }

  /** Reordering tiles with distinct ids keeps their ids distinct. */
  lemma ShuffleKeepsUniqueIds(built: seq<MatchingItem>, items: seq<MatchingItem>)
    requires UniqueIds(built) && multiset(items) == multiset(built)
    ensures UniqueIds(items)
  {
    assert KeysDistinct(built, ItemId);
    KeysDistinctOfSubMultiset(built, items, ItemId);
    forall i, j | 0 <= i < j < |items| ensures items[i].id != items[j].id {
      assert ItemId(items[i]) != ItemId(items[j]);
    }
  }

  /** Builds the tile list card by card, pushing a question tile and then an answer tile. */
  method BuildItems(gameCards: seq<FlashCard>) returns (items: seq<MatchingItem>)
    ensures items == ItemsFor(gameCards)
  {
    items := [];
    var index := 0;
    while index < |gameCards|
      invariant index <= |gameCards|
      invariant items == ItemsFor(gameCards[..index])
    {
      var card := gameCards[index];
      items := items + [QuestionItem(card)];
      items := items + [AnswerItem(card)];
      assert gameCards[..index + 1][..index] == gameCards[..index];
      index := index + 1;
    }
    assert gameCards[..index] == gameCards;
  }

  /** Two tiles form a pair when they come from the same card and show different sides. */
  predicate IsPair(a: MatchingItem, b: MatchingItem) {
    a.originalId == b.originalId && a.itemType != b.itemType
  }

  /** Every tile of a game has a partner among its tiles: the other side of its card. */
  lemma PartnerExists(gameCards: seq<FlashCard>, i: nat)
    requires i < |ItemsFor(gameCards)|
    ensures exists j :: 0 <= j < |ItemsFor(gameCards)| && IsPair(ItemsFor(gameCards)[i], ItemsFor(gameCards)[j])
  {
    var j := if i % 2 == 0 then i + 1 else i - 1;
    TileAt(gameCards, i);
    TileAt(gameCards, j);
    assert IsPair(ItemsFor(gameCards)[i], ItemsFor(gameCards)[j]);
  }

  /** A tile's partner is its only pair among the tiles of a game with distinct card ids. */
  lemma PartnerIsUnique(gameCards: seq<FlashCard>, i: nat, j: nat, k: nat)
    requires DistinctIds(gameCards)
    requires i < |ItemsFor(gameCards)| && j < |ItemsFor(gameCards)| && k < |ItemsFor(gameCards)|
    requires IsPair(ItemsFor(gameCards)[i], ItemsFor(gameCards)[j])
    requires IsPair(ItemsFor(gameCards)[i], ItemsFor(gameCards)[k])
    ensures j == k
  {
    TileAt(gameCards, i);
    TileAt(gameCards, j);
    TileAt(gameCards, k);
  }

  /** Every tile of a board dealt from the drawn cards has a partner on the board. */
  lemma BoardPartnerExists(drawn: seq<FlashCard>, items: seq<MatchingItem>, i: nat)
    requires multiset(items) == multiset(ItemsFor(drawn)) && i < |items|
    ensures exists j :: 0 <= j < |items| && IsPair(items[i], items[j])
  {
    var built := ItemsFor(drawn);
    assert items[i] in multiset(built);
    var p :| 0 <= p < |built| && built[p] == items[i];
    PartnerExists(drawn, p);
    var q :| 0 <= q < |built| && IsPair(built[p], built[q]);
    assert built[q] in multiset(items);
    var j :| 0 <= j < |items| && items[j] == built[q];
    assert IsPair(items[i], items[j]);
  }

  /** On a board dealt from drawn cards with distinct ids, a tile has exactly
      one partner: any two of its pairs are the same tile. */
  lemma BoardPartnerIsUnique(drawn: seq<FlashCard>, items: seq<MatchingItem>, i: nat, j: nat, k: nat)
    requires DistinctIds(drawn) && multiset(items) == multiset(ItemsFor(drawn))
    requires i < |items| && j < |items| && k < |items|
    requires IsPair(items[i], items[j]) && IsPair(items[i], items[k])
    ensures j == k
  {
    var built := ItemsFor(drawn);
    ItemIdsUnique(drawn);
    ShuffleKeepsUniqueIds(built, items);
    assert items[i] in multiset(built);
    assert items[j] in multiset(built);
    assert items[k] in multiset(built);
    var pi :| 0 <= pi < |built| && built[pi] == items[i];
    var pj :| 0 <= pj < |built| && built[pj] == items[j];
    var pk :| 0 <= pk < |built| && built[pk] == items[k];
    PartnerIsUnique(drawn, pi, pj, pk);
    OthersHaveOtherIds(items, j);
    assert items[k].id == items[j].id;
  }

  /** Every tile is covered and unmatched. */
  predicate AllCovered(items: seq<MatchingItem>) {
    forall k :: 0 <= k < |items| ==> !items[k].isMatched && !items[k].isSelected
  }

  /** `items` is a board dealt from `deck`: the drawn cards are min(6, |deck|)
      cards of the deck, and the tiles are a covered shuffle of their tiles;
      distinct card ids give distinct drawn ids and distinct tile ids. */
  ghost predicate Dealt(deck: seq<FlashCard>, drawn: seq<FlashCard>, items: seq<MatchingItem>) {
    && |drawn| == Min(MaxPairs, |deck|)
    && multiset(drawn) <= multiset(deck)
    && multiset(items) == multiset(ItemsFor(drawn))
    && |items| == 2 * |drawn|
    && AllCovered(items)
    && (DistinctIds(deck) ==> DistinctIds(drawn))
    && (DistinctIds(drawn) ==> UniqueIds(items))
  }

  /** Deals a board from `deck`: at most six cards from a shuffle of it, and
      a shuffle of their tiles, all covered and unmatched. */
  method DealBoard(deck: seq<FlashCard>, cardPicks: seq<nat>, itemPicks: seq<nat>)
    returns (ghost drawn: seq<FlashCard>, items: seq<MatchingItem>)
    ensures |items| == 2 * Min(MaxPairs, |deck|) && AllCovered(items)
    ensures DistinctIds(deck) ==> UniqueIds(items)
    ensures Dealt(deck, drawn, items)
  {
    var shuffled := Shuffle(deck, cardPicks);
    var count := Min(MaxPairs, |shuffled|);
    PrefixOfPermutation(shuffled, deck, count);
    drawn := shuffled[..count];
    var built := BuildItems(shuffled[..count]);
    items := Shuffle(built, itemPicks);
    ShuffledItemsCovered(drawn, items);
    if DistinctIds(deck) {
      DrawKeepsDistinctIds(deck, drawn);
    }
    if DistinctIds(drawn) {
      ItemIdsUnique(drawn);
      ShuffleKeepsUniqueIds(built, items);
    }
  }

  // ----- Board updates -----

  /** Marks every tile with id `id` as selected. */
  function SetSelected(items: seq<MatchingItem>, id: TileId): (r: seq<MatchingItem>)
    ensures |r| == |items|
    ensures forall k :: 0 <= k < |r| ==> r[k] == if items[k].id == id then items[k].(isSelected := true) else items[k]
  {
    seq(|items|, k requires 0 <= k < |items| => if items[k].id == id then items[k].(isSelected := true) else items[k])
  }

  /** Marks every tile with id `a` or `b` as matched and no longer selected. */
  function MarkMatched(items: seq<MatchingItem>, a: TileId, b: TileId): (r: seq<MatchingItem>)
    ensures |r| == |items|
    ensures forall k :: 0 <= k < |r| ==>
      r[k] == if items[k].id == a || items[k].id == b then items[k].(isMatched := true, isSelected := false) else items[k]
  {
    seq(|items|, k requires 0 <= k < |items| =>
      if items[k].id == a || items[k].id == b then items[k].(isMatched := true, isSelected := false) else items[k])
  }

  /** Marks every tile with id `a` or `b` as no longer selected. */
  function Deselect(items: seq<MatchingItem>, a: TileId, b: TileId): (r: seq<MatchingItem>)
    ensures |r| == |items|
    ensures forall k :: 0 <= k < |r| ==> r[k] == if items[k].id == a || items[k].id == b then items[k].(isSelected := false) else items[k]
  {
    seq(|items|, k requires 0 <= k < |items| => if items[k].id == a || items[k].id == b then items[k].(isSelected := false) else items[k])
  }

  /** The same tiles in the same places: only the two flags may differ. */
  predicate SameTiles(before: seq<MatchingItem>, after: seq<MatchingItem>) {
    |before| == |after| &&
    forall k :: 0 <= k < |before| ==>
      && after[k].id == before[k].id && after[k].content == before[k].content
      && after[k].itemType == before[k].itemType && after[k].originalId == before[k].originalId
  }

  /** A matched tile stays matched. */
  predicate MatchesKept(before: seq<MatchingItem>, after: seq<MatchingItem>)
    requires |before| == |after|
  {
    forall k :: 0 <= k < |before| && before[k].isMatched ==> after[k].isMatched
  }

  /** On a board with distinct ids, every tile but `k` has another id than `k`'s. */
  lemma OthersHaveOtherIds(items: seq<MatchingItem>, k: nat)
    requires UniqueIds(items) && k < |items|
    ensures forall j :: 0 <= j < |items| && j != k ==> items[j].id != items[k].id
  {
    forall j | 0 <= j < |items| && j != k ensures items[j].id != items[k].id {
      if j < k { assert items[j].id != items[k].id; } else { assert items[k].id != items[j].id; }
    }
  }

  /** On a board with distinct ids, selecting a tile by its id changes that
      tile alone. */
  lemma SelectOnlyClicked(items: seq<MatchingItem>, k: nat)
    requires UniqueIds(items) && k < |items|
    ensures SetSelected(items, items[k].id)[k] == items[k].(isSelected := true)
    ensures forall j :: 0 <= j < |items| && j != k ==> SetSelected(items, items[k].id)[j] == items[j]
  {
    OthersHaveOtherIds(items, k);
  }

  /** Selecting, matching and reverting change only the two flags, and
      never undo a match. */
  lemma BoardUpdatesKeepTiles(items: seq<MatchingItem>, a: TileId, b: TileId)
    ensures SameTiles(items, SetSelected(items, a)) && MatchesKept(items, SetSelected(items, a))
    ensures SameTiles(items, MarkMatched(items, a, b)) && MatchesKept(items, MarkMatched(items, a, b))
    ensures SameTiles(items, Deselect(items, a, b)) && MatchesKept(items, Deselect(items, a, b))
  {
  }

  /** Every tile other than tile `k` and the armed tile is as it was. */
  predicate KeptExcept(before: seq<MatchingItem>, after: seq<MatchingItem>, k: nat, selected: Option<MatchingItem>)
    requires |before| == |after|
  {
    forall j :: 0 <= j < |before| && j != k && !IsArmed(selected, before[j].id) ==> after[j] == before[j]
  }

  /** On a board with distinct ids, selecting tile `k` keeps every other tile. */
  lemma SelectKeepsOthers(items: seq<MatchingItem>, k: nat, selected: Option<MatchingItem>)
    requires k < |items|
    ensures UniqueIds(items) ==> KeptExcept(items, SetSelected(items, items[k].id), k, selected)
  {
    if UniqueIds(items) {
      OthersHaveOtherIds(items, k);
    }
  }

  /** On a board with distinct ids, matching tile `k` with the armed tile
      keeps every tile that is neither of them. */
  lemma MatchKeepsOthers(items: seq<MatchingItem>, k: nat, armed: MatchingItem)
    requires k < |items|
    ensures UniqueIds(items) ==> KeptExcept(items, MarkMatched(items, items[k].id, armed.id), k, Some(armed))
  {
    if UniqueIds(items) {
      OthersHaveOtherIds(items, k);
    }
  }

  /** On a board with distinct ids, a match changes the two paired tiles alone. */
  lemma MatchOnlyPair(items: seq<MatchingItem>, k: nat, m: nat)
    requires UniqueIds(items) && k < |items| && m < |items|
    ensures forall j :: 0 <= j < |items| && j != k && j != m ==> MarkMatched(items, items[k].id, items[m].id)[j] == items[j]
    ensures forall j :: 0 <= j < |items| && j != k && j != m ==> Deselect(items, items[k].id, items[m].id)[j] == items[j]
  {
    OthersHaveOtherIds(items, k);
    OthersHaveOtherIds(items, m);
  }

  // ----- Moves banding -----

  datatype Band = Excellent | WellDone | KeepPracticing

  function BandRank(b: Band): nat {
    match b
    case KeepPracticing => 0
    case WellDone => 1
    case Excellent => 2
  }

  /** The message for finishing `pairs` pairs in `moves` moves: at most two
      moves over the minimum, at most twice the minimum, or more. */
  function MovesBand(moves: nat, pairs: nat): (b: Band)
    ensures b == Excellent <==> moves <= pairs + 2
    ensures b == KeepPracticing <==> moves > pairs + 2 && moves > 2 * pairs
  {
    if moves <= pairs + 2 then Excellent
    else if moves <= 2 * pairs then WellDone
    else KeepPracticing
  }

  /** Fewer moves never earn a lesser message, and a game played without a
      single mismatch is always excellent. */
  lemma MovesBandMonotone(m1: nat, m2: nat, pairs: nat)
    requires m1 <= m2
    ensures BandRank(MovesBand(m2, pairs)) <= BandRank(MovesBand(m1, pairs))
    ensures MovesBand(pairs, pairs) == Excellent
  {
  }

  /** The delayed action scheduled after a mismatch: a second later it covers
      the tile just clicked and the tile that was armed when it was clicked. */
  datatype Revert = Revert(clickedId: TileId, armedId: TileId)

  /** Some revert still waiting to fire names the tile `id`. */
  predicate Named(reverts: seq<Revert>, id: TileId) {
    exists i :: 0 <= i < |reverts| && (reverts[i].clickedId == id || reverts[i].armedId == id)
  }

  /** Scheduling a revert keeps every earlier name and adds its own two. */
  lemma NamedAppend(reverts: seq<Revert>, r: Revert, id: TileId)
    ensures Named(reverts + [r], id) <==> Named(reverts, id) || r.clickedId == id || r.armedId == id
  {
    var rs := reverts + [r];
    if Named(reverts, id) {
      var i :| 0 <= i < |reverts| && (reverts[i].clickedId == id || reverts[i].armedId == id);
      assert rs[i] == reverts[i];
    }
    if r.clickedId == id || r.armedId == id {
      assert rs[|reverts|] == r;
    }
    if Named(rs, id) {
      var i :| 0 <= i < |rs| && (rs[i].clickedId == id || rs[i].armedId == id);
      if i < |reverts| {
        assert rs[i] == reverts[i];
      }
    }
  }

  /** Firing the oldest revert keeps the names of the others. */
  lemma NamedTail(reverts: seq<Revert>, id: TileId)
    requires |reverts| > 0 && Named(reverts, id)
    requires reverts[0].clickedId != id && reverts[0].armedId != id
    ensures Named(reverts[1..], id)
  {
    var i :| 0 <= i < |reverts| && (reverts[i].clickedId == id || reverts[i].armedId == id);
    assert reverts[1..][i - 1] == reverts[i];
  }

  /** The tile `id` is the armed one. */
  predicate IsArmed(selected: Option<MatchingItem>, id: TileId) {
    selected.Some? && selected.value.id == id
  }

  /** Every uncovered, unmatched tile is either the armed tile or about to be
      covered by a waiting revert: no tile is left uncovered for good. */
  predicate Accounted(items: seq<MatchingItem>, selected: Option<MatchingItem>, reverts: seq<Revert>) {
    forall k :: 0 <= k < |items| && items[k].isSelected && !items[k].isMatched ==>
      IsArmed(selected, items[k].id) || Named(reverts, items[k].id)
  }

  /** A board with every tile covered is accounted for, whatever is armed. */
  lemma CoveredIsAccounted(items: seq<MatchingItem>, selected: Option<MatchingItem>, reverts: seq<Revert>)
    requires AllCovered(items)
    ensures Accounted(items, selected, reverts)
  {
  }

  /** Arming a covered tile with nothing armed keeps every uncovered tile accounted for. */
  lemma ArmKeepsAccounted(items: seq<MatchingItem>, k: nat, reverts: seq<Revert>)
    requires k < |items|
    ensures Accounted(items, None, reverts) ==> Accounted(SetSelected(items, items[k].id), Some(items[k]), reverts)
  {
  }

  /** Matching tile `k` with the armed tile keeps every uncovered tile
      accounted for, with nothing armed afterwards. */
  lemma MatchKeepsAccounted(items: seq<MatchingItem>, k: nat, armed: MatchingItem, reverts: seq<Revert>)
    requires k < |items|
    ensures Accounted(items, Some(armed), reverts) ==>
      Accounted(MarkMatched(items, items[k].id, armed.id), None, reverts)
  {
  }

  /** A miss uncovers tile `k` and schedules a revert naming it and the armed
      tile, which keeps every uncovered tile accounted for. */
  lemma MissKeepsAccounted(items: seq<MatchingItem>, k: nat, armed: MatchingItem, reverts: seq<Revert>)
    requires k < |items|
    ensures Accounted(items, Some(armed), reverts) ==>
      Accounted(SetSelected(items, items[k].id), Some(armed), reverts + [Revert(items[k].id, armed.id)])
  {
    var r := Revert(items[k].id, armed.id);
    forall id | Named(reverts, id) ensures Named(reverts + [r], id) {
      NamedAppend(reverts, r, id);
    }
    NamedAppend(reverts, r, items[k].id);
  }

  /** The state of one matching-game component. The reverts scheduled with
      `setTimeout` and not yet fired are kept in `pendingReverts`, oldest first:
      they all have the same one-second delay, so they fire in that order. */
  class MatchingSession {
    var cards: seq<FlashCard>
    var isGameStarted: bool
    var matchingItems: seq<MatchingItem>
    var selectedItem: Option<MatchingItem>
    var matchedPairs: nat
    var moves: nat
    var gameCompleted: bool
    var pendingReverts: seq<Revert>
    /** The cards drawn by the last setup. */
    ghost var gameCards: seq<FlashCard>

    /** Every match was a second click, and when the drawn cards have
        distinct ids no two tiles of the board share an id. */
    ghost predicate Valid()
      reads this
    {
      && matchedPairs <= moves
      && (DistinctIds(gameCards) ==> UniqueIds(matchingItems))
    }

    /** The board the last setup built, with the counters cleared. */
    ghost predicate Prepared()
      reads this
    {
      Dealt(cards, gameCards, matchingItems) && matchedPairs == 0 && moves == 0 && !gameCompleted
    }

    /** The message of the final screen: none while the game is on; once it
        is complete, the band of the moves against the number of cards drawn
        (`cards.slice(0, 6).length`). */
    function FinalMessage(): (message: Option<Band>)
      reads this
      ensures message.Some? <==> gameCompleted
      ensures gameCompleted ==> message == Some(MovesBand(moves, Min(MaxPairs, |cards|)))
      ensures gameCompleted && moves <= Min(MaxPairs, |cards|) + 2 ==> message == Some(Excellent)
      ensures gameCompleted && moves > 2 * Min(MaxPairs, |cards|) + 2 ==> message == Some(KeepPracticing)
    {
      if gameCompleted then Some(MovesBand(moves, Min(MaxPairs, |cards|))) else None
    }

    /** The tile `id` is the armed one. */
    predicate Armed(id: TileId)
      reads this
    {
      IsArmed(selectedItem, id)
    }

    /** No tile is left uncovered for good. */
    ghost predicate SelectionAccounted()
      reads this
    {
      Accounted(matchingItems, selectedItem, pendingReverts)
    }

    /** Mounting with a deck: nothing started, and the deck-change effect sets
        up a board when the deck has cards. */
    constructor (deck: seq<FlashCard>, cardPicks: seq<nat>, itemPicks: seq<nat>)
      ensures Valid() && SelectionAccounted()
      ensures cards == deck && !isGameStarted && selectedItem == None && pendingReverts == []
      ensures |deck| > 0 ==> Prepared()
      ensures |deck| == 0 ==> matchingItems == [] && matchedPairs == 0 && moves == 0 && !gameCompleted
    {
      cards := deck;
      isGameStarted := false;
      matchingItems := [];
      selectedItem := None;
      matchedPairs := 0;
      moves := 0;
      gameCompleted := false;
      pendingReverts := [];
      gameCards := [];
      new;
      if |deck| > 0 {
        PrepareGame(cardPicks, itemPicks);
      }
    }

    /** The deck-change effect: a non-empty new deck gets a new board; an
        empty one leaves the board as it was. */
    method ReceiveCards(deck: seq<FlashCard>, cardPicks: seq<nat>, itemPicks: seq<nat>)
      requires Valid()
      modifies this
      ensures Valid() && cards == deck
      ensures isGameStarted == old(isGameStarted) && selectedItem == old(selectedItem)
      ensures pendingReverts == old(pendingReverts)
      ensures |deck| > 0 ==> Prepared() && SelectionAccounted()
      ensures |deck| == 0 ==>
        && matchingItems == old(matchingItems) && matchedPairs == old(matchedPairs)
        && moves == old(moves) && gameCompleted == old(gameCompleted)
    {
      cards := deck;
      if |deck| > 0 {
        PrepareGame(cardPicks, itemPicks);
      }
    }

    /** Draws at most six cards from a shuffle of the deck, builds their tiles,
        shuffles the tiles and clears the counters. The armed tile and the
        waiting reverts are left as they were. */
    method PrepareGame(cardPicks: seq<nat>, itemPicks: seq<nat>)
      modifies this
      ensures Valid() && Prepared() && SelectionAccounted()
      ensures DistinctIds(cards) ==> UniqueIds(matchingItems)
      ensures cards == old(cards) && isGameStarted == old(isGameStarted)
      ensures selectedItem == old(selectedItem) && pendingReverts == old(pendingReverts)
    {
      ghost var drawn;
      var items;
      drawn, items := DealBoard(cards, cardPicks, itemPicks);
      CoveredIsAccounted(items, selectedItem, pendingReverts);
      gameCards := drawn;
      matchingItems := items;
      matchedPairs := 0;
      moves := 0;
      gameCompleted := false;
    }

    /** "Start game" and "play again": a new board, then the game is on. */
    method StartNewGame(cardPicks: seq<nat>, itemPicks: seq<nat>)
      modifies this
      ensures Valid() && Prepared() && SelectionAccounted() && isGameStarted
      ensures DistinctIds(cards) ==> UniqueIds(matchingItems)
      ensures cards == old(cards) && selectedItem == old(selectedItem) && pendingReverts == old(pendingReverts)
    {
      PrepareGame(cardPicks, itemPicks);
      isGameStarted := true;
    }

    /** A click on tile `k`. A matched or selected tile ignores the click.
        With no armed tile, the tile is selected and armed. Otherwise this is a
        second click and counts one move: a pair is matched, both tiles
        matched and covered, the pair count goes up and the game is complete
        when it reaches the number of drawn cards; anything else uncovers the
        tile and schedules a revert of it and the armed tile. */
    method HandleItemClick(k: nat)
      requires Valid() && k < |matchingItems|
      modifies this`matchingItems, this`selectedItem, this`moves, this`matchedPairs, this`gameCompleted, this`pendingReverts
      ensures Valid()
      ensures old(SelectionAccounted()) ==> SelectionAccounted()
      ensures SameTiles(old(matchingItems), matchingItems)
      ensures MatchesKept(old(matchingItems), matchingItems)
      ensures DistinctIds(gameCards) ==> KeptExcept(old(matchingItems), matchingItems, k, old(selectedItem))
      ensures old(matchingItems[k].isMatched || matchingItems[k].isSelected) ==>
        && matchingItems == old(matchingItems) && selectedItem == old(selectedItem)
        && moves == old(moves) && matchedPairs == old(matchedPairs) && gameCompleted == old(gameCompleted)
        && pendingReverts == old(pendingReverts)
      ensures !old(matchingItems[k].isMatched || matchingItems[k].isSelected) && old(selectedItem) == None ==>
        && matchingItems == SetSelected(old(matchingItems), old(matchingItems[k]).id)
        && selectedItem == Some(old(matchingItems[k]))
        && moves == old(moves) && matchedPairs == old(matchedPairs) && gameCompleted == old(gameCompleted)
        && pendingReverts == old(pendingReverts)
      ensures !old(matchingItems[k].isMatched || matchingItems[k].isSelected) && old(selectedItem) != None ==>
        moves == old(moves) + 1
      ensures (!old(matchingItems[k].isMatched || matchingItems[k].isSelected) && old(selectedItem) != None
        && IsPair(old(selectedItem).value, old(matchingItems[k]))) ==>
        && matchingItems == MarkMatched(old(matchingItems), old(matchingItems[k]).id, old(selectedItem).value.id)
        && matchedPairs == old(matchedPairs) + 1 && selectedItem == None
        && gameCompleted == (old(gameCompleted) || matchedPairs == Min(MaxPairs, |cards|))
        && pendingReverts == old(pendingReverts)
      ensures (!old(matchingItems[k].isMatched || matchingItems[k].isSelected) && old(selectedItem) != None
        && !IsPair(old(selectedItem).value, old(matchingItems[k]))) ==>
        && matchingItems == SetSelected(old(matchingItems), old(matchingItems[k]).id)
        && matchedPairs == old(matchedPairs) && selectedItem == old(selectedItem) && gameCompleted == old(gameCompleted)
        && pendingReverts == old(pendingReverts) + [Revert(old(matchingItems[k]).id, old(selectedItem).value.id)]
    {
      var item := matchingItems[k];
      if item.isMatched || item.isSelected {
        return;
      }
      if selectedItem == None {
        ghost var board := matchingItems;
        matchingItems := SetSelected(matchingItems, item.id);
        selectedItem := Some(item);
        SelectKeepsOthers(board, k, None);
        ArmKeepsAccounted(board, k, pendingReverts);
        return;
      }
      HandleSecondClick(k);
    }

    /** The second click of a turn, on the covered tile `k` while a tile is
        armed: one move; a pair is matched, both tiles matched and covered,
        the armed tile released, the pair count up and the game complete when
        it reaches the number of drawn cards; anything else uncovers the tile
        and schedules a revert of it and the armed tile. */
    method HandleSecondClick(k: nat)
      requires Valid() && k < |matchingItems|
      requires !matchingItems[k].isMatched && !matchingItems[k].isSelected && selectedItem.Some?
      modifies this`matchingItems, this`selectedItem, this`moves, this`matchedPairs, this`gameCompleted, this`pendingReverts
      ensures Valid()
      ensures old(SelectionAccounted()) ==> SelectionAccounted()
      ensures SameTiles(old(matchingItems), matchingItems)
      ensures MatchesKept(old(matchingItems), matchingItems)
      ensures DistinctIds(gameCards) ==> KeptExcept(old(matchingItems), matchingItems, k, old(selectedItem))
      ensures moves == old(moves) + 1
      ensures IsPair(old(selectedItem).value, old(matchingItems[k])) ==>
        && matchingItems == MarkMatched(old(matchingItems), old(matchingItems[k]).id, old(selectedItem).value.id)
        && matchedPairs == old(matchedPairs) + 1 && selectedItem == None
        && gameCompleted == (old(gameCompleted) || matchedPairs == Min(MaxPairs, |cards|))
        && pendingReverts == old(pendingReverts)
      ensures !IsPair(old(selectedItem).value, old(matchingItems[k])) ==>
        && matchingItems == SetSelected(old(matchingItems), old(matchingItems[k]).id)
        && matchedPairs == old(matchedPairs) && selectedItem == old(selectedItem) && gameCompleted == old(gameCompleted)
        && pendingReverts == old(pendingReverts) + [Revert(old(matchingItems[k]).id, old(selectedItem).value.id)]
    {
      var item := matchingItems[k];
      ghost var board := matchingItems;
      var armed := selectedItem.value;
      moves := moves + 1;
      if IsPair(armed, item) {
        matchingItems := MarkMatched(matchingItems, item.id, armed.id);
        MatchKeepsOthers(board, k, armed);
        MatchKeepsAccounted(board, k, armed, pendingReverts);
        BoardUpdatesKeepTiles(board, item.id, armed.id);
        SameTilesKeepIds(board, matchingItems);
        var pairsBefore := matchedPairs;
        matchedPairs := matchedPairs + 1;
        selectedItem := None;
        if pairsBefore + 1 == Min(MaxPairs, |cards|) {
          gameCompleted := true;
        }
      } else {
        matchingItems := SetSelected(matchingItems, item.id);
        SelectKeepsOthers(board, k, selectedItem);
        MissKeepsAccounted(board, k, armed, pendingReverts);
        BoardUpdatesKeepTiles(board, item.id, armed.id);
        SameTilesKeepIds(board, matchingItems);
        pendingReverts := pendingReverts + [Revert(item.id, armed.id)];
      }
    }

    /** The oldest waiting revert fires, as written: it covers the two tiles
        it names and always disarms, even when the armed tile is one picked
        after the mismatch it belongs to. */
    method FireRevertAsWritten()
      requires Valid() && pendingReverts != []
      modifies this`matchingItems, this`selectedItem, this`pendingReverts
      ensures Valid()
      ensures matchingItems == Deselect(old(matchingItems), old(pendingReverts[0]).clickedId, old(pendingReverts[0]).armedId)
      ensures selectedItem == None
      ensures pendingReverts == old(pendingReverts[1..])
      ensures SameTiles(old(matchingItems), matchingItems)
      ensures MatchesKept(old(matchingItems), matchingItems)
    {
      var r := pendingReverts[0];
      pendingReverts := pendingReverts[1..];
      matchingItems := Deselect(matchingItems, r.clickedId, r.armedId);
      selectedItem := None;
    }

    /** The oldest waiting revert fires, corrected: it covers the two tiles it
        names and disarms only when the armed tile is still the one it names,
        so a tile armed after the mismatch stays armed. */
    method FireRevert()
      requires Valid() && pendingReverts != []
      modifies this`matchingItems, this`selectedItem, this`pendingReverts
      ensures Valid()
      ensures old(SelectionAccounted()) ==> SelectionAccounted()
      ensures matchingItems == Deselect(old(matchingItems), old(pendingReverts[0]).clickedId, old(pendingReverts[0]).armedId)
      ensures selectedItem == if old(Armed(pendingReverts[0].armedId)) then None else old(selectedItem)
      ensures pendingReverts == old(pendingReverts[1..])
      ensures SameTiles(old(matchingItems), matchingItems)
      ensures MatchesKept(old(matchingItems), matchingItems)
    {
      var r := pendingReverts[0];
      ghost var before := pendingReverts;
      pendingReverts := pendingReverts[1..];
      matchingItems := Deselect(matchingItems, r.clickedId, r.armedId);
      if selectedItem.Some? && selectedItem.value.id == r.armedId {
        selectedItem := None;
      }
      forall id | Named(before, id) && id != r.clickedId && id != r.armedId ensures Named(pendingReverts, id) {
        NamedTail(before, id);
      }
    }
  }

  /** A board where tiles `a` and `a2` are a pair, `b` is not the partner of
      `a`, and `y` is a fourth tile, all covered, nothing armed and nothing
      waiting. */
  ghost predicate StuckScenarioBoard(s: MatchingSession, a: nat, a2: nat, b: nat, y: nat)
    reads s
  {
    && s.Valid() && s.SelectionAccounted()
    && s.selectedItem == None && s.pendingReverts == []
    && DistinctIds(s.gameCards)
    && a < |s.matchingItems| && a2 < |s.matchingItems| && b < |s.matchingItems| && y < |s.matchingItems|
    && a != a2 && a != b && a != y && a2 != b && a2 != y && b != y
    && IsPair(s.matchingItems[a], s.matchingItems[a2])
    && !IsPair(s.matchingItems[a], s.matchingItems[b])
    && AllCovered(s.matchingItems)
  }

  /** Tiles never change identity, so distinct ids stay distinct. */
  lemma SameTilesKeepIds(before: seq<MatchingItem>, after: seq<MatchingItem>)
    requires SameTiles(before, after)
    ensures UniqueIds(before) ==> UniqueIds(after)
  {
  }

  /** The state after arming `a` and then clicking the wrong tile `b` on `board`. */
  ghost predicate AfterMiss(s: MatchingSession, board: seq<MatchingItem>, a: nat, b: nat)
    reads s
  {
    && s.Valid() && s.SelectionAccounted()
    && |s.matchingItems| == |board| && a < |board| && b < |board|
    && UniqueIds(s.matchingItems)
    && s.matchingItems[a] == board[a].(isSelected := true)
    && s.matchingItems[b] == board[b].(isSelected := true)
    && (forall j :: 0 <= j < |board| && j != a && j != b ==> s.matchingItems[j] == board[j])
    && s.selectedItem == Some(board[a])
    && s.pendingReverts == [Revert(board[b].id, board[a].id)]
  }

  /** The first two clicks of the scenarios: arm `a`, then miss with `b`. */
  method ArmThenMiss(s: MatchingSession, a: nat, a2: nat, b: nat, y: nat)
    requires StuckScenarioBoard(s, a, a2, b, y)
    modifies s
    ensures AfterMiss(s, old(s.matchingItems), a, b)
  {
    ghost var board := s.matchingItems;
    SelectOnlyClicked(board, a);
    s.HandleItemClick(a);
    ghost var b1 := s.matchingItems;
    SameTilesKeepIds(board, b1);
    SelectOnlyClicked(b1, b);
    s.HandleItemClick(b);
    SameTilesKeepIds(b1, s.matchingItems);
  }

  /** Arm `a`, click the wrong tile `b`, and within the second click `a`'s
      partner and then `y`; when the revert fires, `y` stays uncovered but is
      no longer armed, so a further click on it is ignored: the tile is stuck
      and its pair can no longer be matched on this board. */
  method StuckTileAsWritten(s: MatchingSession, a: nat, a2: nat, b: nat, y: nat)
    returns (stuck: MatchingItem)
    requires StuckScenarioBoard(s, a, a2, b, y)
    modifies s
    ensures |s.matchingItems| == old(|s.matchingItems|)
    ensures stuck == s.matchingItems[y] && stuck.isSelected && !stuck.isMatched
    ensures s.selectedItem == None && s.pendingReverts == []
    ensures !s.SelectionAccounted()
  {
    ArmThenMiss(s, a, a2, b, y);
    ghost var b2 := s.matchingItems;
    MatchOnlyPair(b2, a2, a);
    s.HandleItemClick(a2);
    ghost var b3 := s.matchingItems;
    SameTilesKeepIds(b2, b3);
    SelectOnlyClicked(b3, y);
    s.HandleItemClick(y);
    ghost var b4 := s.matchingItems;
    SameTilesKeepIds(b3, b4);
    MatchOnlyPair(b4, b, a);
    s.FireRevertAsWritten();
    stuck := s.matchingItems[y];
    s.HandleItemClick(y);
    assert s.matchingItems[y] == stuck;
  }

  /** The same clicks with the corrected revert leave `y` armed, as every
      uncovered tile should be once no revert is waiting. */
  method StuckTileCorrected(s: MatchingSession, a: nat, a2: nat, b: nat, y: nat)
    returns (armed: MatchingItem)
    requires StuckScenarioBoard(s, a, a2, b, y)
    modifies s
    ensures |s.matchingItems| == old(|s.matchingItems|)
    ensures armed == s.matchingItems[y] && armed.isSelected && !armed.isMatched
    ensures s.Armed(armed.id) && s.pendingReverts == []
    ensures s.SelectionAccounted()
  {
    ArmThenMiss(s, a, a2, b, y);
    ghost var b2 := s.matchingItems;
    MatchOnlyPair(b2, a2, a);
    s.HandleItemClick(a2);
    ghost var b3 := s.matchingItems;
    SameTilesKeepIds(b2, b3);
    SelectOnlyClicked(b3, y);
    s.HandleItemClick(y);
    ghost var b4 := s.matchingItems;
    SameTilesKeepIds(b3, b4);
    MatchOnlyPair(b4, b, a);
    s.FireRevert();
    armed := s.matchingItems[y];
  }
}
