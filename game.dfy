/** The game state: a shuffled deck, the players in seating order and the
    index of the player whose turn it is. */
module Game {
  import opened Cards
  import opened Decks
  import opened Hands
  import opened HandSort
  import opened Players

  /** The five cards the k-th player receives from a deck d when every
      player is dealt five cards in turn from the end of the deck. */
  function DealtTo(d: seq<Card>, k: nat): (r: seq<Card>)
    requires 5 * (k + 1) <= |d|
    ensures |r| == 5
  {
    d[|d| - 5 * (k + 1)..|d| - 5 * k]
  }

  /** The order in which repeated `pop()` hands out the cards of s: its last
      card first. */
  function PopOrder(s: seq<Card>): (r: seq<Card>)
    ensures |r| == |s|
    ensures forall i :: 0 <= i < |s| ==> r[i] == s[|s| - 1 - i]
  {
    if s == [] then [] else PopOrder(s[1..]) + [s[0]]
  }

  /** Popping hands out every card of s once. */
  lemma {:induction false} PopOrderPermutes(s: seq<Card>)
    ensures multiset(PopOrder(s)) == multiset(s)
  {
    if s != [] {
      PopOrderPermutes(s[1..]);
      assert s == [s[0]] + s[1..];
    }
  }

  /** Popping one card more off the end of the deck extends the pop order
      by that card. */
  lemma PopOrderStep(d: seq<Card>, t: nat)
    requires 0 < t <= |d|
    ensures PopOrder(d[t - 1..]) == PopOrder(d[t..]) + [d[t - 1]]
  {
    assert d[t - 1..][1..] == d[t..];
  }

  /** All cards dealt to the first n players. */
  function DealtToFirst(d: seq<Card>, n: nat): multiset<Card>
    requires 5 * n <= |d|
  {
    if n == 0 then multiset{} else DealtToFirst(d, n - 1) + multiset(DealtTo(d, n - 1))
  }

  /** Dealing conserves cards: what is left in the deck together with what
      the players received is the deck before the deal. */
  lemma {:induction false} DealConserves(d: seq<Card>, n: nat)
    requires 5 * n <= |d|
    ensures multiset(d[..|d| - 5 * n]) + DealtToFirst(d, n) == multiset(d)
  {
    if n == 0 {
      assert d[..|d| - 5 * n] == d;
      assert multiset(d) + multiset{} == multiset(d);
    } else {
      var m := |d| - 5 * n;
      DealConserves(d, n - 1);
      var before, last := d[..|d| - 5 * (n - 1)], DealtTo(d, n - 1);
      assert before == d[..m] + last;
      calc {
        multiset(d[..m]) + DealtToFirst(d, n);
        multiset(d[..m]) + (DealtToFirst(d, n - 1) + multiset(last));
        (multiset(d[..m]) + multiset(last)) + DealtToFirst(d, n - 1);
        multiset(before) + DealtToFirst(d, n - 1);
      }
    }
  }

  /** `(i + 1) % n`: the seat after seat i, wrapping to the first seat. */
  function NextIndex(i: nat, n: nat): (j: nat)
    requires n > 0
    ensures j < n
    ensures i < n ==> j == if i + 1 == n then 0 else i + 1
  {
    (i + 1) % n
  }

  /** The seat reached from seat i after k turns. */
  function AdvanceTimes(i: nat, n: nat, k: nat): (j: nat)
    requires n > 0
    ensures k > 0 || i < n ==> j < n
  {
    if k == 0 then i else NextIndex(AdvanceTimes(i, n, k - 1), n)
  }

  /** Before the last seat is passed, each turn moves one seat on. */
  lemma {:induction false} AdvanceClimbs(i: nat, n: nat, k: nat)
    requires i + k < n
    ensures AdvanceTimes(i, n, k) == i + k
  {
    if k > 0 {
      AdvanceClimbs(i, n, k - 1);
    }
  }

  /** Turns compose: a turns and then b more are a + b turns. */
  lemma {:induction false} AdvanceCompose(i: nat, n: nat, a: nat, b: nat)
    requires n > 0
    ensures AdvanceTimes(i, n, a + b) == AdvanceTimes(AdvanceTimes(i, n, a), n, b)
  {
    if b > 0 {
      AdvanceCompose(i, n, a, b - 1);
    }
  }

  /** n turns at a table of n players bring the turn back to where it
      started. */
  lemma FullRound(i: nat, n: nat)
    requires i < n
    ensures AdvanceTimes(i, n, n) == i
  {
    AdvanceClimbs(i, n, n - i - 1);
    assert AdvanceTimes(i, n, n - i) == 0;
    AdvanceCompose(i, n, n - i, i);
    AdvanceClimbs(0, n, i);
  }

  /** `max(..., key=...)`: the first position holding the largest value. The
      values are scanned left to right and the best so far is replaced only by
      a strictly larger one. */
  function FirstMax(counts: seq<nat>): (i: nat)
    requires |counts| > 0
    ensures i < |counts|
    ensures forall k :: 0 <= k < |counts| ==> counts[k] <= counts[i]
    ensures forall k :: 0 <= k < i ==> counts[k] < counts[i]
  {
    if |counts| == 1 then 0
    else
      var best := FirstMax(counts[..|counts| - 1]);
      if counts[|counts| - 1] > counts[best] then |counts| - 1 else best
  }

  /** The number of books of each player, in seating order. */
  function BookCounts(ps: seq<Player>): (counts: seq<nat>)
    reads ps
    ensures |counts| == |ps|
    ensures forall k :: 0 <= k < |ps| ==> counts[k] == |ps[k].books|
  {
    if ps == [] then [] else [|ps[0].books|] + BookCounts(ps[1..])
  }

  /** `all(not player.has_cards() for player in ps)`. */
  function AllHandsEmpty(ps: seq<Player>): (r: bool)
    reads ps
    ensures r <==> forall k :: 0 <= k < |ps| ==> ps[k].hand == []
  {
    ps == [] || (!ps[0].HasCards() && AllHandsEmpty(ps[1..]))
  }

  class GoFishGame {
    const deck: Deck
    const players: seq<Player>
    var currentPlayerIndex: nat

    /** The players are distinct objects and the turn index names one of
        them (it stays 0 at a table without players). */
    ghost predicate Valid()
      reads this
    {
      (forall i, j :: 0 <= i < j < |players| ==> players[i] != players[j])
      && (currentPlayerIndex < |players| || (|players| == 0 && currentPlayerIndex == 0))
    }

    /** `__init__`: a shuffled deck, one player per (name, flag) pair (the
        shorter list decides, as with `zip`), the first player to move, and
        five cards dealt to each player. */
    constructor (playerNames: seq<string>, isHumanFlags: seq<bool>, shuffled: seq<Card>)
      requires multiset(shuffled) == multiset(FullDeck()) && |shuffled| == 52
      requires 5 * |playerNames| <= 52 || 5 * |isHumanFlags| <= 52
      ensures Valid()
      ensures |players| == if |playerNames| <= |isHumanFlags| then |playerNames| else |isHumanFlags|
      ensures forall k :: 0 <= k < |players| ==>
                players[k].name == playerNames[k] && players[k].isHuman == isHumanFlags[k]
      ensures currentPlayerIndex == 0
      ensures deck.cards == shuffled[..52 - 5 * |players|]
      ensures forall k :: 0 <= k < |players| ==>
                Sorted(players[k].hand) && |players[k].hand| == 5
                && multiset(players[k].hand) == multiset(DealtTo(shuffled, k))
                && players[k].books == []
      ensures forall k :: 0 <= k < |players| ==>
                RankwiseEqual(players[k].hand, PopOrder(DealtTo(shuffled, k)))
    {
      ShuffledDeckIsComplete(shuffled, Card(Two, Hearts));
      var n := if |playerNames| <= |isHumanFlags| then |playerNames| else |isHumanFlags|;
      var seated: seq<Player> := [];
      for k := 0 to n
        invariant |seated| == k
        invariant forall i :: 0 <= i < k ==> fresh(seated[i])
        invariant forall i, j :: 0 <= i < j < k ==> seated[i] != seated[j]
        invariant forall i :: 0 <= i < k ==>
                    seated[i].name == playerNames[i] && seated[i].isHuman == isHumanFlags[i]
                    && seated[i].hand == [] && seated[i].books == []
      {
        var p := new Player(playerNames[k], isHumanFlags[k]);
        seated := seated + [p];
      }
      deck := new Deck(shuffled);
      players := seated;
      currentPlayerIndex := 0;
      new;
      label Seated:
      DealCards();
      forall k | 0 <= k < |players|
        ensures RankwiseEqual(players[k].hand, PopOrder(DealtTo(shuffled, k)))
      {
        assert old@Seated(players[k].hand) + PopOrder(DealtTo(shuffled, k)) == PopOrder(DealtTo(shuffled, k));
      }
    }

    /** Player p, who held `before` and the books `books`, has been dealt
        the five cards `cards`: its hand is sorted, holds exactly the old and
        the dealt cards, and keeps per rank the old cards followed by the
        dealt ones in the order they left the deck; its books are unchanged. */
    ghost predicate Received(p: Player, before: seq<Card>, books: seq<Rank>, cards: seq<Card>)
      reads p
    {
      Sorted(p.hand)
      && |p.hand| == |before| + 5
      && multiset(p.hand) == multiset(before) + multiset(cards)
      && RankwiseEqual(p.hand, before + PopOrder(cards))
      && p.books == books
    }

    /** `deal_cards`: each player in turn receives five cards, one
        `add_to_hand` per card, from the end of the deck. The deck must hold
        enough cards: on an exhausted deck the source hands `None` to
        `add_to_hand`, whose sort then fails. */
    method DealCards()
      requires Valid()
      requires 5 * |players| <= |deck.cards|
      modifies deck, players
      ensures Valid()
      ensures deck.cards == old(deck.cards)[..|old(deck.cards)| - 5 * |players|]
      ensures forall k :: 0 <= k < |players| ==>
                Received(players[k], old(players[k].hand), old(players[k].books), DealtTo(old(deck.cards), k))
    {
      ghost var d := deck.cards;
      for i := 0 to |players|
        invariant deck.cards == d[..|d| - 5 * i]
        invariant forall k :: 0 <= k < i ==>
                    Received(players[k], old(players[k].hand), old(players[k].books), DealtTo(d, k))
        invariant forall k :: i <= k < |players| ==>
                    players[k].hand == old(players[k].hand) && players[k].books == old(players[k].books)
      {
        DealFive(players[i]);
        assert d[..|d| - 5 * i][..|d| - 5 * i - 5] == d[..|d| - 5 * (i + 1)];
        assert d[..|d| - 5 * i][|d| - 5 * i - 5..] == DealtTo(d, i);
      }
    }

    /** The body of the loop of `deal_cards`: five cards, one at a time,
        from the end of the deck into the player's hand. */
    method DealFive(player: Player)
      requires 5 <= |deck.cards|
      modifies deck, player
      ensures deck.cards == old(deck.cards)[..|old(deck.cards)| - 5]
      ensures Received(player, old(player.hand), old(player.books), old(deck.cards)[|old(deck.cards)| - 5..])
    {
      ghost var d, start := deck.cards, player.hand;
      var top := |d|;
      ghost var dealt: seq<Card> := [];
      assert start + dealt == start;
      for j := 0 to 5
        invariant deck.cards == d[..top - j]
        invariant dealt == PopOrder(d[top - j..])
        invariant j > 0 ==> Sorted(player.hand)
        invariant |player.hand| == |start| + j
        invariant multiset(player.hand) == multiset(start) + multiset(dealt)
        invariant RankwiseEqual(player.hand, start + dealt)
        invariant player.books == old(player.books)
      {
        PopOrderStep(d, top - j);
        CardsOfRankExtend(player.hand, start, dealt, d[top - j - 1]);
        DealOne(player);
        dealt := dealt + [d[top - j - 1]];
      }
      PopOrderPermutes(d[top - 5..]);
    }

    /** One step of the loop of `deal_cards`: `add_to_hand([deck.deal()])`
        on a deck that still has a card. */
    method DealOne(player: Player)
      requires deck.cards != []
      modifies deck, player
      ensures deck.cards == old(deck.cards)[..|old(deck.cards)| - 1]
      ensures Sorted(player.hand)
      ensures |player.hand| == |old(player.hand)| + 1
      ensures multiset(player.hand) == multiset(old(player.hand)) + multiset{old(deck.cards)[|old(deck.cards)| - 1]}
      ensures RankwiseEqual(player.hand, old(player.hand) + [old(deck.cards)[|old(deck.cards)| - 1]])
      ensures player.books == old(player.books)
    {
      var card := deck.Deal();
      player.AddToHand([card.value]);
    }

    /** `get_current_player`: the player whose turn it is (the source raises
        IndexError at a table without players). */
    function GetCurrentPlayer(): (p: Option<Player>)
      requires Valid()
      reads this
      ensures p.None? <==> |players| == 0
      ensures p.Some? ==> p.value in players && p.value == players[currentPlayerIndex]
    {
      if |players| == 0 then None else Some(players[currentPlayerIndex])
    }

    /** `next_turn`: the turn passes to the next seat, wrapping after the
        last (the source fails with ZeroDivisionError at a table without
        players; then ok is false and nothing changes). */
    method NextTurn() returns (ok: bool)
      requires Valid()
      modifies this
      ensures Valid()
      ensures ok <==> |players| > 0
      ensures currentPlayerIndex ==
                if ok then NextIndex(old(currentPlayerIndex), |players|) else old(currentPlayerIndex)
    {
      if |players| == 0 {
        ok := false;
      } else {
        ok := true;
        currentPlayerIndex := (currentPlayerIndex + 1) % |players|;
      }
    }

    /** `check_winner`: the first player, in seating order, among those
        holding the most books (`max` raises ValueError on an empty table). */
    function CheckWinner(): (w: Option<Player>)
      reads this, players
      ensures w.None? <==> |players| == 0
      ensures w.Some? ==> w.value in players
      ensures w.Some? ==> forall k :: 0 <= k < |players| ==> |players[k].books| <= |w.value.books|
      ensures w.Some? ==> exists i :: 0 <= i < |players| && players[i] == w.value
                            && (forall k :: 0 <= k < i ==> |players[k].books| < |w.value.books|)
    {
      if |players| == 0 then None else Some(players[FirstMax(BookCounts(players))])
    }

    /** `is_game_over`: the deck is exhausted or no player holds a card. */
    function IsGameOver(): (r: bool)
      reads this, deck, players
      ensures r <==> deck.cards == [] || forall k :: 0 <= k < |players| ==> players[k].hand == []
    {
      deck.IsEmpty() || AllHandsEmpty(players)
    }
  }
}
