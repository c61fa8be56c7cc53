/** Pure views of a hand: the list comprehensions of `ask_for_card`,
    `remove_from_hand` and `check_for_books`, and the facts relating them. */
module Hands {
  import opened Cards

  /** The card has the given rank: the `card.rank == rank` test of the comprehensions. */
  predicate HasRank(c: Card, rank: Rank) {
    c.rank == rank
  }

  /** `[card for card in s if card.rank == rank]`. */
  function CardsOfRank(s: seq<Card>, rank: Rank): (r: seq<Card>)
    ensures |r| <= |s|
    ensures forall i :: 0 <= i < |r| ==> HasRank(r[i], rank)
  {
    if s == [] then []
    else (if HasRank(s[0], rank) then [s[0]] else []) + CardsOfRank(s[1..], rank)
  }

  /** `[card for card in s if card.rank != rank]`. */
  function OtherCards(s: seq<Card>, rank: Rank): (r: seq<Card>)
    ensures |r| <= |s|
    ensures forall i :: 0 <= i < |r| ==> !HasRank(r[i], rank)
  {
    if s == [] then []
    else (if HasRank(s[0], rank) then [] else [s[0]]) + OtherCards(s[1..], rank)
  }

  /** The cards of s whose rank is not in `removed`, in order: the hand
      left after `remove_from_hand` has been called for each rank in `removed`. */
  function Without(s: seq<Card>, removed: set<Rank>): (r: seq<Card>)
    ensures |r| <= |s|
    ensures forall i :: 0 <= i < |r| ==> r[i].rank !in removed
  {
    if s == [] then []
    else (if s[0].rank in removed then [] else [s[0]]) + Without(s[1..], removed)
  }

  /** `[card.rank for card in s]`. */
  function RanksOf(s: seq<Card>): (r: seq<Rank>)
    ensures |r| == |s|
    ensures forall i :: 0 <= i < |s| ==> r[i] == s[i].rank
  {
    if s == [] then [] else [s[0].rank] + RanksOf(s[1..])
  }

  /** The ranks that occur exactly four times in the hand: its complete books. */
  function BookRanks(s: seq<Card>): (r: set<Rank>)
    ensures forall rank :: rank in r <==> |CardsOfRank(s, rank)| == 4
  {
    CardsOfRankCountAll(s);
    set rank | rank in RanksOf(s) && multiset(RanksOf(s))[rank] == 4
  }

  /** Selecting a rank and its complement split a hand without losing or
      duplicating any card. */
  lemma {:induction false} Partition(s: seq<Card>, rank: Rank)
    ensures multiset(CardsOfRank(s, rank)) + multiset(OtherCards(s, rank)) == multiset(s)
    ensures |CardsOfRank(s, rank)| + |OtherCards(s, rank)| == |s|
  {
    if s != [] {
      Partition(s[1..], rank);
      assert s == [s[0]] + s[1..];
    }
  }

  /** The number of cards of a rank is the count used by `check_for_books`. */
  lemma {:induction false} CardsOfRankCount(s: seq<Card>, rank: Rank)
    ensures |CardsOfRank(s, rank)| == multiset(RanksOf(s))[rank]
  {
    if s != [] {
      CardsOfRankCount(s[1..], rank);
    }
  }

  lemma CardsOfRankCountAll(s: seq<Card>)
    ensures forall rank :: |CardsOfRank(s, rank)| == multiset(RanksOf(s))[rank]
  {
    forall rank ensures |CardsOfRank(s, rank)| == multiset(RanksOf(s))[rank] {
      CardsOfRankCount(s, rank);
    }
  }

  /** Selecting a rank distributes over concatenation. */
  lemma {:induction false} CardsOfRankAppend(a: seq<Card>, b: seq<Card>, rank: Rank)
    ensures CardsOfRank(a + b, rank) == CardsOfRank(a, rank) + CardsOfRank(b, rank)
  {
    if a != [] {
      assert (a + b)[0] == a[0] && (a + b)[1..] == a[1..] + b;
      CardsOfRankAppend(a[1..], b, rank);
      var head := if HasRank(a[0], rank) then [a[0]] else [];
      calc {
        CardsOfRank(a + b, rank);
        head + CardsOfRank(a[1..] + b, rank);
        head + (CardsOfRank(a[1..], rank) + CardsOfRank(b, rank));
        (head + CardsOfRank(a[1..], rank)) + CardsOfRank(b, rank);
        CardsOfRank(a, rank) + CardsOfRank(b, rank);
      }
    } else {
      assert a + b == b;
    }
  }

  /** a and b hold the same cards of every rank, in the same order: they
      differ at most in how cards of different ranks are interleaved. */
  predicate RankwiseEqual(a: seq<Card>, b: seq<Card>) {
    forall rank :: CardsOfRank(a, rank) == CardsOfRank(b, rank)
  }

  /** Dealing one more card into a hand keeps, rank by rank, the hand's
      cards equal to those of the starting hand followed by the cards dealt so
      far in the order they were dealt. */
  lemma CardsOfRankExtend(h: seq<Card>, start: seq<Card>, dealt: seq<Card>, c: Card)
    requires RankwiseEqual(h, start + dealt)
    ensures RankwiseEqual(h + [c], start + (dealt + [c]))
  {
    forall rank ensures CardsOfRank(h + [c], rank) == CardsOfRank(start + (dealt + [c]), rank) {
      CardsOfRankAppend(h, [c], rank);
      CardsOfRankAppend(start + dealt, [c], rank);
      assert start + (dealt + [c]) == (start + dealt) + [c];
    }
  }

  /** Clearing no ranks leaves the hand as it is: the state of
      `check_for_books` before its loop has removed anything. */
  lemma {:induction false} WithoutNothing(s: seq<Card>)
    ensures Without(s, {}) == s
  {
    if s != [] {
      WithoutNothing(s[1..]);
    }
  }

  /** Removing one more rank from a partly cleared hand is the same as
      clearing the larger set of ranks at once. */
  lemma {:induction false} WithoutOneMore(s: seq<Card>, removed: set<Rank>, rank: Rank)
    ensures OtherCards(Without(s, removed), rank) == Without(s, removed + {rank})
  {
    if s != [] {
      WithoutOneMore(s[1..], removed, rank);
      var w := Without(s, removed);
      var sym := s[0].rank;
      if sym in removed {
        assert w == Without(s[1..], removed);
      } else {
        assert w == [s[0]] + Without(s[1..], removed);
        assert w[0] == s[0] && w[1..] == Without(s[1..], removed);
        if sym == rank {
          assert OtherCards(w, rank) == OtherCards(Without(s[1..], removed), rank);
        } else {
          assert OtherCards(w, rank) == [s[0]] + OtherCards(Without(s[1..], removed), rank);
        }
      }
    }
  }

  /** After clearing a set of ranks, those ranks have no cards left and every
      other rank keeps all its cards, in their order. */
  lemma {:induction false} CardsOfRankWithout(s: seq<Card>, removed: set<Rank>, rank: Rank)
    ensures CardsOfRank(Without(s, removed), rank) == if rank in removed then [] else CardsOfRank(s, rank)
  {
    if s != [] {
      CardsOfRankWithout(s[1..], removed, rank);
      var w := Without(s, removed);
      if s[0].rank in removed {
        assert w == Without(s[1..], removed);
      } else {
        assert w == [s[0]] + Without(s[1..], removed);
        assert w[0] == s[0] && w[1..] == Without(s[1..], removed);
        assert CardsOfRank(w, rank)
            == (if HasRank(s[0], rank) then [s[0]] else []) + CardsOfRank(Without(s[1..], removed), rank);
      }
    }
  }

  /** Once the complete books are cleared from a hand, no rank in it occurs
      four times: clearing books a second time changes nothing. */
  lemma NoBooksAfterClearing(s: seq<Card>)
    ensures BookRanks(Without(s, BookRanks(s))) == {}
    ensures Without(Without(s, BookRanks(s)), {}) == Without(s, BookRanks(s))
  {
    var books := BookRanks(s);
    var w := Without(s, books);
    forall rank | rank in RanksOf(w)
      ensures multiset(RanksOf(w))[rank] != 4
    {
      CardsOfRankWithout(s, books, rank);
      CardsOfRankCount(w, rank);
      CardsOfRankCount(s, rank);
      if rank !in books {
        assert rank !in RanksOf(s) || multiset(RanksOf(s))[rank] != 4;
      }
    }
    WithoutNothing(w);
  }

  /** The sequence lists each rank of the set exactly once and nothing else. */
  predicate ListsOnce(listed: seq<Rank>, ranks: set<Rank>) {
    (forall i :: 0 <= i < |listed| ==> listed[i] in ranks)
    && (forall rank :: rank in ranks ==> rank in listed)
    && (forall i, j :: 0 <= i < j < |listed| ==> listed[i] != listed[j])
  }

  /** Appending a rank not yet listed keeps a listing without repeats. */
  lemma ListsOnceExtend(listed: seq<Rank>, ranks: set<Rank>, rank: Rank)
    requires ListsOnce(listed, ranks) && rank !in ranks
    ensures ListsOnce(listed + [rank], ranks + {rank})
  {
  }

  /** Associativity of one append, stated on its own so that the loop of
      `check_for_books` does not have to search for it, which costs the
      solver far more than this lemma does. */
  lemma AppendOne(a: seq<Rank>, b: seq<Rank>, x: Rank)
    ensures (a + b) + [x] == a + (b + [x])
  {
  }

  /** `list.remove(x)`: the sequence without the first occurrence of x
      (the list method raises ValueError when x is absent). */
  function RemoveFirst(s: seq<Card>, x: Card): (r: seq<Card>)
    requires x in s
    ensures |r| == |s| - 1
    ensures multiset(r) == multiset(s) - multiset{x}
  {
    assert s == [s[0]] + s[1..];
    if s[0] == x then s[1..] else [s[0]] + RemoveFirst(s[1..], x)
  }

  /** s with its first k cards of the given rank removed: the opponent's
      hand after k rounds of the removal loop of `ask_for_card`. */
  function DropMatching(s: seq<Card>, rank: Rank, k: nat): (r: seq<Card>)
    ensures k <= |CardsOfRank(s, rank)| ==> |r| + k == |s|
  {
    if s == [] then []
    else if HasRank(s[0], rank) then (if k == 0 then s else DropMatching(s[1..], rank, k - 1))
    else [s[0]] + DropMatching(s[1..], rank, k)
  }

  lemma {:induction false} DropMatchingNone(s: seq<Card>, rank: Rank)
    ensures DropMatching(s, rank, 0) == s
  {
    if s != [] && !HasRank(s[0], rank) {
      DropMatchingNone(s[1..], rank);
    }
  }

  /** Removing (by value) the k-th selected card from the hand in which the
      first k were already removed removes exactly the next card of that rank. */
  lemma {:induction false} DropMatchingStep(s: seq<Card>, rank: Rank, k: nat)
    requires k < |CardsOfRank(s, rank)|
    ensures CardsOfRank(s, rank)[k] in DropMatching(s, rank, k)
    ensures RemoveFirst(DropMatching(s, rank, k), CardsOfRank(s, rank)[k]) == DropMatching(s, rank, k + 1)
  {
    var sel, rest := CardsOfRank(s, rank), CardsOfRank(s[1..], rank);
    if HasRank(s[0], rank) {
      assert sel == [s[0]] + rest;
      if k == 0 {
        DropMatchingNone(s[1..], rank);
        assert DropMatching(s, rank, 0) == s;
      } else {
        assert sel[k] == rest[k - 1];
        DropMatchingStep(s[1..], rank, k - 1);
      }
    } else {
      assert sel == rest;
      DropMatchingStep(s[1..], rank, k);
      var x, t := rest[k], DropMatching(s[1..], rank, k);
      assert DropMatching(s, rank, k) == [s[0]] + t;
      assert s[0] != x;
      assert ([s[0]] + t)[1..] == t;
      assert RemoveFirst([s[0]] + t, x) == [s[0]] + RemoveFirst(t, x);
    }
  }

  /** Once every selected card is removed, the hand holds exactly the cards
      of the other ranks. */
  lemma {:induction false} DropMatchingAll(s: seq<Card>, rank: Rank)
    ensures DropMatching(s, rank, |CardsOfRank(s, rank)|) == OtherCards(s, rank)
  {
    if s != [] {
      DropMatchingAll(s[1..], rank);
    }
  }

  /** One round of `check_for_books` that finds a book: removing a rank held
      four times from a partly cleared hand removes exactly four cards. */
  lemma ClearOneBook(s: seq<Card>, removed: set<Rank>, rank: Rank)
    requires rank !in removed
    requires multiset(RanksOf(s))[rank] == 4
    ensures OtherCards(Without(s, removed), rank) == Without(s, removed + {rank})
    ensures |Without(s, removed + {rank})| + 4 == |Without(s, removed)|
  {
    WithoutOneMore(s, removed, rank);
    CardsOfRankWithout(s, removed, rank);
    CardsOfRankCount(s, rank);
    Partition(Without(s, removed), rank);
  }
}
