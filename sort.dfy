/** `insertion_sort_hand`: a stable in-place insertion sort of a hand by rank
    value, specified by the recursive functions Insert and Sort. */
module HandSort {
  import opened Cards
  import opened Hands

  /** Non-decreasing by rank value. */
  predicate Sorted(s: seq<Card>) {
    forall i, j :: 0 <= i < j < |s| ==> s[i].RankValue() <= s[j].RankValue()
  }

  /** Keeping only the cards of other ranks keeps every card at or above a
      lower bound the hand already respects. */
  lemma {:induction false} OtherCardsAtLeast(s: seq<Card>, rank: Rank, bound: int)
    requires forall k :: 0 <= k < |s| ==> bound <= s[k].RankValue()
    ensures forall k :: 0 <= k < |OtherCards(s, rank)| ==> bound <= OtherCards(s, rank)[k].RankValue()
  {
    if s != [] {
      OtherCardsAtLeast(s[1..], rank, bound);
    }
  }

  /** `remove_from_hand` keeps a sorted hand sorted. */
  lemma {:induction false} OtherCardsKeepsSorted(s: seq<Card>, rank: Rank)
    requires Sorted(s)
    ensures Sorted(OtherCards(s, rank))
  {
    if s != [] {
      OtherCardsKeepsSorted(s[1..], rank);
      OtherCardsAtLeast(s[1..], rank, s[0].RankValue());
    }
  }

  /** Clearing a set of ranks keeps every card at or above a lower bound the
      hand already respects. */
  lemma {:induction false} WithoutAtLeast(s: seq<Card>, removed: set<Rank>, bound: int)
    requires forall k :: 0 <= k < |s| ==> bound <= s[k].RankValue()
    ensures forall k :: 0 <= k < |Without(s, removed)| ==> bound <= Without(s, removed)[k].RankValue()
  {
    if s != [] {
      WithoutAtLeast(s[1..], removed, bound);
    }
  }

  /** Clearing the books keeps a sorted hand sorted. */
  lemma {:induction false} WithoutKeepsSorted(s: seq<Card>, removed: set<Rank>)
    requires Sorted(s)
    ensures Sorted(Without(s, removed))
  {
    if s != [] {
      WithoutKeepsSorted(s[1..], removed);
      WithoutAtLeast(s[1..], removed, s[0].RankValue());
    }
  }

  /** What one pass of the inner loop does: x moves left past exactly the
      trailing cards whose rank value is strictly greater than its own. */
  function Insert(x: Card, s: seq<Card>): (r: seq<Card>)
    ensures |r| == |s| + 1
  {
    if s == [] || s[|s| - 1].RankValue() <= x.RankValue() then s + [x]
    else Insert(x, s[..|s| - 1]) + [s[|s| - 1]]
  }

  /** What the outer loop computes: each card in turn inserted into the
      sorted prefix before it. */
  function Sort(s: seq<Card>): (r: seq<Card>)
    ensures |r| == |s|
  {
    if s == [] then [] else Insert(s[|s| - 1], Sort(s[..|s| - 1]))
  }

  lemma {:induction false} InsertPermutes(x: Card, s: seq<Card>)
    ensures multiset(Insert(x, s)) == multiset(s) + multiset{x}
  {
    if !(s == [] || s[|s| - 1].RankValue() <= x.RankValue()) {
      var n := |s| - 1;
      InsertPermutes(x, s[..n]);
      assert s == s[..n] + [s[n]];
    }
  }

  /** The sort neither loses nor duplicates a card. */
  lemma {:induction false} SortPermutes(s: seq<Card>)
    ensures multiset(Sort(s)) == multiset(s)
  {
    if s != [] {
      var n := |s| - 1;
      SortPermutes(s[..n]);
      InsertPermutes(s[n], Sort(s[..n]));
      assert s == s[..n] + [s[n]];
    }
  }

  /** Inserting a card no greater than a bound into cards no greater than
      that bound gives cards no greater than it. */
  lemma {:induction false} InsertBounded(x: Card, s: seq<Card>, bound: int)
    requires x.RankValue() <= bound
    requires forall k :: 0 <= k < |s| ==> s[k].RankValue() <= bound
    ensures forall k :: 0 <= k < |s| + 1 ==> Insert(x, s)[k].RankValue() <= bound
  {
    if !(s == [] || s[|s| - 1].RankValue() <= x.RankValue()) {
      InsertBounded(x, s[..|s| - 1], bound);
    }
  }

  lemma {:induction false} InsertSorted(x: Card, s: seq<Card>)
    requires Sorted(s)
    ensures Sorted(Insert(x, s))
  {
    if !(s == [] || s[|s| - 1].RankValue() <= x.RankValue()) {
      var n := |s| - 1;
      InsertSorted(x, s[..n]);
      InsertBounded(x, s[..n], s[n].RankValue());
    }
  }

  /** The sort's result is non-decreasing by rank value. */
  lemma {:induction false} SortSorted(s: seq<Card>)
    ensures Sorted(Sort(s))
  {
    if s != [] {
      var n := |s| - 1;
      SortSorted(s[..n]);
      InsertSorted(s[n], Sort(s[..n]));
    }
  }

  lemma {:induction false} InsertStable(x: Card, s: seq<Card>, rank: Rank)
    ensures CardsOfRank(Insert(x, s), rank) == CardsOfRank(s, rank) + CardsOfRank([x], rank)
  {
    if s == [] || s[|s| - 1].RankValue() <= x.RankValue() {
      CardsOfRankAppend(s, [x], rank);
    } else {
      var n := |s| - 1;
      var init, last := s[..n], s[n];
      assert s == init + [last];
      assert Insert(x, s) == Insert(x, init) + [last];
      InsertStable(x, init, rank);
      CardsOfRankAppend(Insert(x, init), [last], rank);
      CardsOfRankAppend(init, [last], rank);
      var fx, fl := CardsOfRank([x], rank), CardsOfRank([last], rank);
      assert fx == [] || fl == [];
      calc {
        CardsOfRank(Insert(x, s), rank);
        CardsOfRank(Insert(x, init), rank) + fl;
        CardsOfRank(init, rank) + fx + fl;
        CardsOfRank(init, rank) + fl + fx;
        CardsOfRank(s, rank) + fx;
      }
    }
  }

  /** Stability: the cards of each rank appear in the sorted hand in the same
      relative order as in the input. */
  lemma {:induction false} SortStable(s: seq<Card>, rank: Rank)
    ensures CardsOfRank(Sort(s), rank) == CardsOfRank(s, rank)
  {
    if s != [] {
      var n := |s| - 1;
      SortStable(s[..n], rank);
      InsertStable(s[n], Sort(s[..n]), rank);
      CardsOfRankAppend(s[..n], [s[n]], rank);
      assert s == s[..n] + [s[n]];
    }
  }

  /** Insert places x right after the last card not greater than it: when
      every card from position p on is greater than x and the card before p is
      not, x lands at position p. */
  lemma {:induction false} InsertAt(x: Card, s: seq<Card>, p: nat)
    requires p <= |s|
    requires forall k :: p <= k < |s| ==> s[k].RankValue() > x.RankValue()
    requires p > 0 ==> s[p - 1].RankValue() <= x.RankValue()
    ensures Insert(x, s) == s[..p] + [x] + s[p..]
  {
    if p < |s| {
      var n := |s| - 1;
      InsertAt(x, s[..n], p);
      assert s[..n][..p] == s[..p];
      assert s[p..] == s[..n][p..] + [s[n]];
    } else {
      assert s[..p] == s;
    }
  }

  lemma SortPrefix(s: seq<Card>, i: nat)
    requires i < |s|
    ensures Sort(s[..i + 1]) == Insert(s[i], Sort(s[..i]))
  {
    assert s[..i + 1][..i] == s[..i];
  }

  /** The body of the outer loop of `insertion_sort_hand`: the key card at
      position i is shifted left past the cards before it that are strictly
      greater, and lands at position p. */
  method InsertKey(hand: array<Card>, i: nat, ghost prefix: seq<Card>) returns (ghost p: nat)
    requires 0 < i < hand.Length && hand[..i] == prefix
    modifies hand
    ensures p <= i
    ensures forall k :: p <= k < i ==> prefix[k].RankValue() > old(hand[i]).RankValue()
    ensures p > 0 ==> prefix[p - 1].RankValue() <= old(hand[i]).RankValue()
    ensures hand[..i + 1] == prefix[..p] + [old(hand[i])] + prefix[p..]
    ensures hand[i + 1..] == old(hand[i + 1..])
  {
    var key := hand[i];
    var j := i - 1;
    while j >= 0 && hand[j].RankValue() > key.RankValue()
      invariant -1 <= j <= i - 1
      invariant forall k :: 0 <= k <= j ==> hand[k] == prefix[k]
      invariant forall k :: j + 2 <= k <= i ==> hand[k] == prefix[k - 1]
      invariant forall k :: i < k < hand.Length ==> hand[k] == old(hand[k])
      invariant forall k :: j < k < i ==> prefix[k].RankValue() > key.RankValue()
      decreases j
    {
      hand[j + 1] := hand[j];
      j := j - 1;
    }
    hand[j + 1] := key;
    p := j + 1;
    assert hand[..i + 1] == prefix[..p] + [key] + prefix[p..];
    assert hand[i + 1..] == old(hand[i + 1..]);
  }

  /** `insertion_sort_hand`: sorts the hand in place. */
  method InsertionSortHand(hand: array<Card>)
    modifies hand
    ensures hand[..] == Sort(old(hand[..]))
  {
    ghost var input := hand[..];
    if hand.Length == 0 {
      return;
    }
    assert input[..1] == [input[0]] && input[..1][..0] == [];
    for i := 1 to hand.Length
      invariant hand[..i] == Sort(input[..i])
      invariant hand[i..] == input[i..]
    {
      ghost var sorted := hand[..i];
      assert hand[i] == input[i];
      var p := InsertKey(hand, i, sorted);
      InsertAt(input[i], sorted, p);
      SortPrefix(input, i);
    }
    assert hand[..] == hand[..hand.Length] && input == input[..hand.Length];
  }
}
