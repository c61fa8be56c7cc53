/** The deck: the 52-card product of suits and ranks, dealt from its end. */
module Decks {
  import opened Cards

  /** The deck as built before shuffling: for each suit in order, every rank
      in order, so card i has rank i % 13 and suit i / 13. */
  function FullDeck(): (d: seq<Card>)
    ensures |d| == 52
    ensures forall i :: 0 <= i < 52 ==> d[i] == Card(AllRanks[i % 13], AllSuits[i / 13])
  {
    seq(52, i requires 0 <= i < 52 => Card(AllRanks[i % 13], AllSuits[i / 13]))
  }

  /** Position of a card in the unshuffled deck. */
  function FullDeckIndex(c: Card): (i: nat)
    ensures i < 52 && FullDeck()[i] == c
  {
    var r := c.RankValue() - 2;
    match c.suit
    case Hearts => r
    case Diamonds => 13 + r
    case Clubs => 26 + r
    case Spades => 39 + r
  }

  /** The unshuffled deck holds each of the 52 (rank, suit) pairs exactly once. */
  lemma FullDeckHoldsEachCardOnce(c: Card)
    ensures multiset(FullDeck())[c] == 1
  {
    var d := FullDeck();
    var k := FullDeckIndex(c);
    forall i, j | 0 <= i < j < 52 ensures d[i] != d[j] {
      if d[i] == d[j] {
        RankValueIsPosition(i % 13, Hearts);
        RankValueIsPosition(j % 13, Hearts);
      }
    }
    CountOfDistinct(d, k);
  }

  /** In a sequence without repeats, the element at position k occurs once. */
  lemma {:induction false} CountOfDistinct(s: seq<Card>, k: nat)
    requires k < |s|
    requires forall i, j :: 0 <= i < j < |s| ==> s[i] != s[j]
    ensures multiset(s)[s[k]] == 1
  {
    var n := |s| - 1;
    assert s == s[..n] + [s[n]];
    if k == n {
      assert s[n] !in s[..n];
    } else {
      CountOfDistinct(s[..n], k);
      assert s[n] != s[k];
    }
  }

  /** Any shuffle of the full deck (a sequence with its multiset) has 52
      cards, contains every card and contains none twice. */
  lemma ShuffledDeckIsComplete(cards: seq<Card>, c: Card)
    requires multiset(cards) == multiset(FullDeck())
    ensures |cards| == 52
    ensures c in cards && multiset(cards)[c] == 1
  {
    FullDeckHoldsEachCardOnce(c);
    assert |multiset(cards)| == |multiset(FullDeck())|;
  }

  class Deck {
    var cards: seq<Card>

    /** A deck built from the full deck and then shuffled: `shuffled` is the
        permutation the random shuffle produced. */
    constructor (shuffled: seq<Card>)
      requires multiset(shuffled) == multiset(FullDeck())
      ensures cards == shuffled
    {
      cards := shuffled;
    }

    /** `is_empty`: no card remains. */
    function IsEmpty(): (r: bool)
      reads this
      ensures r <==> |cards| == 0
    {
      |cards| == 0
    }

    /** `deal`: on a non-empty deck, removes and returns the last card;
        on an empty deck, returns no card and changes nothing. */
    method Deal() returns (card: Option<Card>)
      modifies this
      ensures old(cards) == [] ==> card == None && cards == old(cards)
      ensures old(cards) != [] ==> card == Some(old(cards)[|old(cards)| - 1])
      ensures old(cards) != [] ==> cards == old(cards)[..|old(cards)| - 1]
    {
      if !IsEmpty() {
        card := Some(cards[|cards| - 1]);
        cards := cards[..|cards| - 1];
      } else {
        card := None;
      }
    }
  }
}
