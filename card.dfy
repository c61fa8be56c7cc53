/** Playing cards: the 13 ranks, the 4 suits, and the rank ordering that
    the hand sort uses (the `rank_order` table of `Card.get_rank_value`). */
module Cards {

  datatype Option<T> = None | Some(value: T)

  /** The 13 rank symbols "2" .. "10", "J", "Q", "K", "A". */
  datatype Rank = Two | Three | Four | Five | Six | Seven | Eight | Nine | Ten
                | Jack | Queen | King | Ace
  {
    /** The rank's text, as stored in a card's `rank` attribute: a key of
        the `rank_order` table, whose value locates the rank in the ranks
        list. */
    function Symbol(): (s: string)
      ensures RankOrder(s).Some? && AllRanks[RankOrder(s).value - 2] == this
    {
      match this
      case Two => "2"
      case Three => "3"
      case Four => "4"
      case Five => "5"
      case Six => "6"
      case Seven => "7"
      case Eight => "8"
      case Nine => "9"
      case Ten => "10"
      case Jack => "J"
      case Queen => "Q"
      case King => "K"
      case Ace => "A"
    }
  }

  datatype Suit = Hearts | Diamonds | Clubs | Spades

  /** The `ranks` list the deck is built from, in its listed order. */
  const AllRanks: seq<Rank> :=
    [Two, Three, Four, Five, Six, Seven, Eight, Nine, Ten, Jack, Queen, King, Ace]

  /** The `suits` list the deck is built from, in its listed order. */
  const AllSuits: seq<Suit> := [Hearts, Diamonds, Clubs, Spades]

  /** The `rank_order` dictionary: a rank symbol's ordering value, or None
      where the lookup would raise a KeyError. */
  function RankOrder(symbol: string): (v: Option<int>)
    ensures v.Some? ==> 2 <= v.value <= 14
  {
    if symbol == "2" then Some(2)
    else if symbol == "3" then Some(3)
    else if symbol == "4" then Some(4)
    else if symbol == "5" then Some(5)
    else if symbol == "6" then Some(6)
    else if symbol == "7" then Some(7)
    else if symbol == "8" then Some(8)
    else if symbol == "9" then Some(9)
    else if symbol == "10" then Some(10)
    else if symbol == "J" then Some(11)
    else if symbol == "Q" then Some(12)
    else if symbol == "K" then Some(13)
    else if symbol == "A" then Some(14)
    else None
  }

  datatype Card = Card(rank: Rank, suit: Suit)
  {
    /** `get_rank_value`: the card's rank looked up in the `rank_order`
        table. The values are written out per rank rather than computed as
        `RankOrder(rank.Symbol())`, so that the sort's proofs compare
        integers and never strings; RankValueIsTableLookup shows that the
        two agree and that the lookup never fails. */
    function RankValue(): (v: int)
      ensures 2 <= v <= 14
    {
      match rank
      case Two => 2
      case Three => 3
      case Four => 4
      case Five => 5
      case Six => 6
      case Seven => 7
      case Eight => 8
      case Nine => 9
      case Ten => 10
      case Jack => 11
      case Queen => 12
      case King => 13
      case Ace => 14
    }
  }

  /** The `rank_order` lookup of a card's rank symbol always succeeds, and
      yields the card's rank value, which is the rank's position in the ranks
      list offset by 2. */
  lemma RankValueIsTableLookup(c: Card)
    ensures RankOrder(c.rank.Symbol()) == Some(c.RankValue())
    ensures AllRanks[c.RankValue() - 2] == c.rank
  {
  }

  /** The ordering value of the rank at position i of the ranks list is i + 2:
      2 < 3 < ... < 10 < J < Q < K < A. */
  lemma RankValueIsPosition(i: nat, s: Suit)
    requires i < |AllRanks|
    ensures Card(AllRanks[i], s).RankValue() == i + 2
  {
  }

  /** The ordering is strictly increasing along the ranks list. */
  lemma RankValueOrdered(i: nat, j: nat, s: Suit, t: Suit)
    requires i < j < |AllRanks|
    ensures Card(AllRanks[i], s).RankValue() < Card(AllRanks[j], t).RankValue()
  {
  }

  /** Two cards have the same ordering value exactly when they have the same
      rank, and the same rank symbol exactly when they have the same rank. */
  lemma RankValueInjective(c: Card, d: Card)
    ensures c.RankValue() == d.RankValue() <==> c.rank == d.rank
    ensures c.rank.Symbol() == d.rank.Symbol() <==> c.rank == d.rank
  {
  }
}
