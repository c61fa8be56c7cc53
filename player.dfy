/** A player: a name, a role flag, a hand kept sorted by rank value, and the
    ranks of the books collected so far. */
module Players {
  import opened Cards
  import opened Hands
  import opened HandSort

  class Player {
    const name: string
    const isHuman: bool
    var hand: seq<Card>
    var books: seq<Rank>

    constructor (name: string, isHuman: bool)
      ensures this.name == name && this.isHuman == isHuman
      ensures hand == [] && books == []
    {
      this.name := name;
      this.isHuman := isHuman;
      hand := [];
      books := [];
    }

    /** `ask_for_card`: takes every card of the requested rank out of the
        opponent's hand, one `remove` at a time, and returns them in the
        opponent's hand order. The caller's own hand is left alone. */
    method AskForCard(rank: Rank, opponent: Player) returns (requested: seq<Card>)
      modifies opponent
      ensures requested == CardsOfRank(old(opponent.hand), rank)
      ensures opponent.hand == OtherCards(old(opponent.hand), rank)
      ensures multiset(opponent.hand) + multiset(requested) == multiset(old(opponent.hand))
      ensures |opponent.hand| + |requested| == |old(opponent.hand)|
      ensures Sorted(old(opponent.hand)) ==> Sorted(opponent.hand)
      ensures opponent.books == old(opponent.books)
      ensures opponent != this ==> hand == old(hand)
    {
      ghost var original := opponent.hand;
      DropMatchingNone(original, rank);
      requested := CardsOfRank(opponent.hand, rank);
      if requested != [] {
        for k := 0 to |requested|
          invariant opponent.hand == DropMatching(original, rank, k)
          invariant opponent.books == old(opponent.books)
        {
          DropMatchingStep(original, rank, k);
          opponent.hand := RemoveFirst(opponent.hand, requested[k]);
        }
      }
      DropMatchingAll(original, rank);
      Partition(original, rank);
      if Sorted(original) {
        OtherCardsKeepsSorted(original, rank);
      }
    }

    /** `add_to_hand`: appends the cards and re-sorts the whole hand. */
    method AddToHand(cards: seq<Card>)
      modifies this
      ensures hand == Sort(old(hand) + cards)
      ensures Sorted(hand)
      ensures multiset(hand) == multiset(old(hand)) + multiset(cards)
      ensures |hand| == |old(hand)| + |cards|
      ensures RankwiseEqual(hand, old(hand) + cards)
      ensures books == old(books)
    {
      var extended := hand + cards;
      var sorted := new Card[|extended|](i requires 0 <= i < |extended| => extended[i]);
      assert sorted[..] == extended;
      InsertionSortHand(sorted);
      hand := sorted[..];
      SortSorted(extended);
      SortPermutes(extended);
      forall rank ensures CardsOfRank(hand, rank) == CardsOfRank(extended, rank) {
        SortStable(extended, rank);
      }
    }

    /** `remove_from_hand`: splits the hand by rank, keeps the other ranks in
        their order and returns the cards of the given rank. */
    method RemoveFromHand(rank: Rank) returns (matching: seq<Card>)
      modifies this
      ensures matching == CardsOfRank(old(hand), rank)
      ensures hand == OtherCards(old(hand), rank)
      ensures Sorted(old(hand)) ==> Sorted(hand)
      ensures books == old(books)
    {
      if Sorted(hand) {
        OtherCardsKeepsSorted(hand, rank);
      }
      Partition(hand, rank);
      matching := CardsOfRank(hand, rank);
      hand := OtherCards(hand, rank);
    }

    /** `check_for_books`: every rank held exactly four times is recorded
        once as a book and its cards leave the hand. The ranks are visited in
        an unspecified order (that of a Python set), so the order in which new
        books are appended is not fixed: the new books are some listing,
        without repeats, of the hand's complete books. */
    method CheckForBooks()
      modifies this
      ensures hand == Without(old(hand), BookRanks(old(hand)))
      ensures Sorted(old(hand)) ==> Sorted(hand)
      ensures |books| >= |old(books)| && books[..|old(books)|] == old(books)
      ensures ListsOnce(books[|old(books)|..], BookRanks(old(hand)))
      ensures |hand| + 4 * |books| == |old(hand)| + 4 * |old(books)|
    {
      ghost var original, recorded := hand, books;
      ghost var bookRanks := BookRanks(hand);
      var ranksInHand := RanksOf(hand);
      var pending := set rank | rank in ranksInHand;
      ghost var removed: set<Rank> := {};
      ghost var added: seq<Rank> := [];
      WithoutNothing(original);
      assert bookRanks <= pending;
      while pending != {}
        invariant forall rank :: rank in removed <==> rank in bookRanks && rank !in pending
        invariant hand == Without(original, removed)
        invariant books == recorded + added
        invariant ListsOnce(added, removed)
        invariant |hand| + 4 * |added| == |original|
        decreases pending
      {
        var rank :| rank in pending;
        if multiset(ranksInHand)[rank] == 4 {
          AppendOne(recorded, added, rank);
          books := books + [rank];
          var cleared := RemoveFromHand(rank);
          ClearOneBook(original, removed, rank);
          ListsOnceExtend(added, removed, rank);
          added := added + [rank];
          removed := removed + {rank};
        }
        pending := pending - {rank};
      }
      assert removed == bookRanks;
      assert books[|recorded|..] == added;
      if Sorted(original) {
        WithoutKeepsSorted(original, bookRanks);
      }
    }

    /** `has_cards`: the hand is not empty. */
    function HasCards(): (r: bool)
      reads this
      ensures r <==> hand != []
    {
      |hand| > 0
    }
  }
}
