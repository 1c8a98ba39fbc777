/** The flashcard record shared by every practice mode, and the deck shuffle
    that every mode performs with `[...cards].sort(() => Math.random() - 0.5)`. */
module Cards {

  datatype Option<+T> = None | Some(value: T)

  /** One card of a subject pool; `image` and `grade` are optional. */
  datatype FlashCard = FlashCard(
    id: int,
    question: string,
    answer: string,
    image: Option<string>,
    grade: Option<int>)

  function Min(a: int, b: int): (m: int)
    ensures m <= a && m <= b
    ensures m == a || m == b
  {
    if a <= b then a else b
  }

  /** A shuffle of a copy of `s`. The random draws of the source's comparator
      are not modelled: `picks` supplies them, and whatever they are the result
      is a permutation of `s` (same cards, same multiplicities, same length). */
  method Shuffle<T>(s: seq<T>, picks: seq<nat>) returns (r: seq<T>)
    ensures multiset(r) == multiset(s)
    ensures |r| == |s|
  {
    var a := new T[|s|](i requires 0 <= i < |s| => s[i]);
    assert a[..] == s;
    var i := a.Length;
    while i > 1
      invariant 0 <= i <= a.Length
      invariant multiset(a[..]) == multiset(s)
    {
      i := i - 1;
      var j := if i < |picks| then picks[i] % (i + 1) else i;
      a[i], a[j] := a[j], a[i];
    }
    r := a[..];
    assert |multiset(r)| == |multiset(s)|;
  }

  /** The first `n` cards of a permutation of `s` are a sub-multiset of `s`. */
  lemma PrefixOfPermutation<T>(shuffled: seq<T>, s: seq<T>, n: nat)
    requires multiset(shuffled) == multiset(s)
    requires n <= |shuffled|
    ensures multiset(shuffled[..n]) <= multiset(s)
    ensures |shuffled[..n]| == n
  {
    assert shuffled == shuffled[..n] + shuffled[n..];
  }

  /** Different positions of `s` hold different keys. */
  predicate KeysDistinct<T, K(==)>(s: seq<T>, key: T -> K) {
    forall a, b :: 0 <= a < b < |s| ==> key(s[a]) != key(s[b])
  }

  /** With distinct keys, no value occurs twice. */
  lemma {:induction false} KeyCountedOnce<T, K>(s: seq<T>, key: T -> K, x: T)
    requires KeysDistinct(s, key)
    ensures multiset(s)[x] <= 1
  {
    if s != [] {
      var rest := s[1..];
      assert s == [s[0]] + rest;
      forall a, b | 0 <= a < b < |rest| ensures key(rest[a]) != key(rest[b]) {
        assert rest[a] == s[a + 1] && rest[b] == s[b + 1];
      }
      KeyCountedOnce(rest, key, x);
      if x == s[0] {
        forall i | 0 <= i < |rest| ensures rest[i] != x {
          assert key(s[0]) != key(s[i + 1]);
        }
      }
    }
  }

  /** A value at two positions occurs at least twice. */
  lemma CountedTwice<T>(s: seq<T>, a: nat, b: nat)
    requires a < b < |s| && s[a] == s[b]
    ensures multiset(s)[s[a]] >= 2
  {
    assert s == s[..b] + s[b..];
    assert s[..b][a] == s[a];
    assert s[b..][0] == s[b];
  }

  /** Drawing some of the values of a sequence with distinct keys, in any
      order, gives distinct keys. */
  lemma KeysDistinctOfSubMultiset<T, K>(s: seq<T>, t: seq<T>, key: T -> K)
    requires KeysDistinct(s, key) && multiset(t) <= multiset(s)
    ensures KeysDistinct(t, key)
  {
    forall a, b | 0 <= a < b < |t| ensures key(t[a]) != key(t[b]) {
      if t[a] == t[b] {
        CountedTwice(t, a, b);
        KeyCountedOnce(s, key, t[a]);
        assert false;
      } else {
        assert t[a] in multiset(t) && t[b] in multiset(t);
        var i :| 0 <= i < |s| && s[i] == t[a];
        var j :| 0 <= j < |s| && s[j] == t[b];
        if i < j {
          assert key(s[i]) != key(s[j]);
        } else {
          assert key(s[j]) != key(s[i]);
        }
      }
    }
  }

  function CardId(c: FlashCard): int {
    c.id
  }

  /** No two cards of the deck share an id. */
  predicate DistinctIds(cards: seq<FlashCard>) {
    forall a, b :: 0 <= a < b < |cards| ==> cards[a].id != cards[b].id
  }

  /** Cards drawn from a deck with distinct ids, in any order, have distinct ids. */
  lemma DrawKeepsDistinctIds(deck: seq<FlashCard>, drawn: seq<FlashCard>)
    requires DistinctIds(deck) && multiset(drawn) <= multiset(deck)
    ensures DistinctIds(drawn)
  {
    assert KeysDistinct(deck, CardId);
    KeysDistinctOfSubMultiset(deck, drawn, CardId);
    forall a, b | 0 <= a < b < |drawn| ensures drawn[a].id != drawn[b].id {
      assert CardId(drawn[a]) != CardId(drawn[b]);
    }
  }
}
