# Go Fish game engine, modelled in Dafny

This project models the game-state engine of `goFish.py`: everything above
the `GoFishGUI` class. The engine covers five things:

- cards and their rank ordering;
- the 52-card deck and dealing from its end;
- the stable insertion sort that keeps every hand ordered by rank value;
- the player operations: asking an opponent for a rank, adding cards,
  removing a rank, and collecting four-of-a-kind books;
- the game object: the initial five-card deal, turn rotation, winner
  selection and the game-over test.

Modules follow the structure of the program:

| file | module | contents |
|---|---|---|
| `card.dfy` | `Cards` | `Rank`, `Suit`, `Card`, the `rank_order` table |
| `deck.dfy` | `Decks` | the unshuffled 52-card deck and the `Deck` class |
| `hand.dfy` | `Hands` | the list comprehensions of the player methods as functions, and their facts |
| `sort.dfy` | `HandSort` | `insertion_sort_hand` on an array, specified by the functions `Insert` and `Sort` |
| `player.dfy` | `Players` | the `Player` class |
| `game.dfy` | `Game` | the `GoFishGame` class, turn arithmetic and winner selection |

Modelling choices:

- **State.** Objects whose fields the source updates in place become classes:
  `Deck.cards`, `Player.hand`, `Player.books` and
  `GoFishGame.currentPlayerIndex`. The in-place sort works on an `array`.
- **Ranks and suits.** The source's rank and suit strings become the datatypes
  `Rank` and `Suit`. `Rank.Symbol()` gives a rank's string, and
  `RankValueInjective` shows that two cards have the same string exactly when
  they have the same rank.
- **The shuffle.** The random shuffle is a parameter of the constructors. Any
  permutation (same multiset) of the unshuffled deck is allowed.
- **`check_for_books`.** Python iterates over `set(ranks_in_hand)` in no
  specified order. The model picks the next rank with `:|`, so what it proves
  holds for every visiting order.
- **Error paths.** Where the source raises at a table without players, the
  model returns `None` or `false`:
  - `get_current_player` would raise `IndexError`;
  - `check_winner` would raise `ValueError` from `max`;
  - `next_turn` would raise `ZeroDivisionError`.

## Model

| member | source | states |
|---|---|---|
| Cards.Rank.Symbol | goFish.py:30 | every rank's text is present in the `rank_order` table, and its value gives back the rank's position in the ranks list |
| Cards.RankOrder | goFish.py:16-19 | every value present in the `rank_order` table lies in 2..14 (a missing key is `None`, the KeyError) |
| Cards.Card.RankValue | goFish.py:16-19 | a card's ordering value lies in 2..14 |
| Cards.RankValueIsTableLookup | goFish.py:16-19 | the table lookup of every card's rank symbol succeeds and yields the card's rank value; that value minus 2 is the rank's position in the ranks list |
| Cards.RankValueIsPosition | goFish.py:16-19 | the rank at position i of the ranks list has ordering value i + 2 |
| Cards.RankValueOrdered | goFish.py:16-19 | the ordering is strictly increasing along the ranks list: 2 < 3 < … < 10 < J < Q < K < A |
| Cards.RankValueInjective | goFish.py:16-19 | equal ordering values, and equal rank symbols, each hold exactly when the ranks are equal |
| Decks.FullDeck | goFish.py:28-31 | the deck is built suit by suit, rank by rank: 52 cards, card i having rank i mod 13 and suit i div 13 |
| Decks.FullDeckIndex | goFish.py:28-31 | every (rank, suit) pair occurs in the built deck, at a computed position |
| Decks.FullDeckHoldsEachCardOnce | goFish.py:28-31 | the built deck holds every card exactly once |
| Decks.ShuffledDeckIsComplete | goFish.py:28-35 | after any shuffle the deck still has 52 cards, each exactly once |
| Decks.Deck.constructor | goFish.py:28-32 | the deck holds the shuffled permutation of the full deck |
| Decks.Deck.IsEmpty | goFish.py:41-42 | empty exactly when no card remains |
| Decks.Deck.Deal | goFish.py:37-39 | on a non-empty deck: returns the last card and leaves the others in order; on an empty deck: returns no card and changes nothing |
| Hands.CardsOfRank | goFish.py:65 | the selected cards are no more than the hand and all have the requested rank |
| Hands.OtherCards | goFish.py:78 | the kept cards are no more than the hand and none has the removed rank |
| Hands.Without | goFish.py:81-86 | the hand left after clearing a set of ranks holds no card of those ranks |
| Hands.RanksOf | goFish.py:82 | the rank list has one entry per card, the rank of the card at that position |
| Hands.BookRanks | goFish.py:82-84 | a rank is a book of the hand exactly when the hand holds four cards of that rank |
| Hands.CardsOfRankCountAll | goFish.py:82-84 | for every rank at once, the number of cards of the rank equals `ranks_in_hand.count(rank)` |
| Hands.Partition | goFish.py:76-79 | the two comprehensions split a hand with no card lost or duplicated (multisets and lengths add up) |
| Hands.CardsOfRankCount | goFish.py:82-84 | the number of cards of a rank equals `ranks_in_hand.count(rank)` |
| Hands.CardsOfRankAppend | goFish.py:65 | selecting a rank distributes over concatenation of hands |
| Hands.CardsOfRankExtend | goFish.py:102-103 | one more dealt card keeps every rank's cards equal to the start hand's followed by the cards dealt so far, in dealing order |
| Hands.WithoutNothing | goFish.py:81-86 | clearing no ranks leaves the hand unchanged |
| Hands.WithoutOneMore | goFish.py:85-86 | one more `remove_from_hand` on a partly cleared hand equals clearing the larger set of ranks |
| Hands.CardsOfRankWithout | goFish.py:81-86 | after clearing, a cleared rank has no cards and every other rank keeps all its cards in order |
| Hands.NoBooksAfterClearing | goFish.py:81-86 | after clearing the books, no rank is held four times, so a second `check_for_books` changes nothing |
| Hands.ListsOnceExtend | goFish.py:85 | appending a rank not yet listed keeps the new books a repeat-free listing |
| Hands.RemoveFirst | goFish.py:68 | `list.remove` of a present card takes out exactly one copy of it |
| Hands.DropMatching | goFish.py:67-68 | after k of the loop's removals, with k at most the number of requested cards, the opponent's hand is exactly k cards shorter |
| Hands.DropMatchingNone | goFish.py:67-68 | before the removal loop runs, the opponent's hand is unchanged |
| Hands.DropMatchingStep | goFish.py:67-68 | each `remove` in the loop takes out exactly the next card of the requested rank |
| Hands.DropMatchingAll | goFish.py:67-68 | once the loop has removed every requested card, the hand holds exactly the other ranks' cards, in order |
| Hands.ClearOneBook | goFish.py:84-86 | removing a rank held four times from a partly cleared hand removes exactly four cards |
| HandSort.OtherCardsAtLeast | goFish.py:78 | keeping the other ranks' cards keeps a lower bound on rank value that the whole hand respects |
| HandSort.OtherCardsKeepsSorted | goFish.py:76-79 | removing a rank from a sorted hand leaves it sorted |
| HandSort.WithoutAtLeast | goFish.py:81-86 | clearing ranks keeps a lower bound on rank value that the whole hand respects |
| HandSort.WithoutKeepsSorted | goFish.py:81-86 | clearing the books from a sorted hand leaves it sorted |
| HandSort.Insert | goFish.py:47-53 | one pass of the inner loop adds exactly one card |
| HandSort.Sort | goFish.py:46-53 | the outer loop's result has the input's length |
| HandSort.InsertPermutes | goFish.py:47-53 | one insertion pass neither loses nor duplicates a card |
| HandSort.SortPermutes | goFish.py:46-53 | the sort is a permutation of its input |
| HandSort.InsertBounded | goFish.py:50 | inserting a card below a bound into cards below it keeps every card below it |
| HandSort.InsertSorted | goFish.py:47-53 | inserting into a sorted prefix keeps it sorted |
| HandSort.SortSorted | goFish.py:46-53 | the sort's result is non-decreasing by rank value |
| HandSort.InsertStable | goFish.py:50 | the strict `>` never moves a card past one of equal rank: per rank, the inserted card comes after the others |
| HandSort.SortStable | goFish.py:46-53 | the sort is stable: each rank's cards keep their relative order |
| HandSort.InsertAt | goFish.py:49-53 | the key lands right after the last card whose rank value is not greater than its own |
| HandSort.SortPrefix | goFish.py:47-53 | the first i + 1 cards sorted are the i-th card inserted into the first i sorted |
| HandSort.InsertKey | goFish.py:47-53 | the inner loop shifts exactly the greater cards one place right and drops the key into the gap; the rest of the array is untouched |
| HandSort.InsertionSortHand | goFish.py:46-53 | the array afterwards holds `Sort` of its old contents (sorted, a permutation, stable by the lemmas above) |
| Players.Player.constructor | goFish.py:58-62 | a new player has its name and role flag, an empty hand and no books |
| Players.Player.AskForCard | goFish.py:64-70 | returns exactly the opponent's cards of the rank, in hand order; the opponent keeps exactly its other cards, in order; the lengths and multisets add up; a sorted opponent hand stays sorted; the opponent's books are untouched; when the opponent is another player, the asker's hand is untouched too |
| Players.Player.AddToHand | goFish.py:72-74 | the hand becomes the sort of old hand plus new cards: sorted, a permutation of both, longer by the number of cards, each rank in its original order; books untouched |
| Players.Player.RemoveFromHand | goFish.py:76-79 | returns every card of the rank; the hand keeps exactly the other cards in order (Partition gives the conservation); a sorted hand stays sorted; books untouched |
| Players.Player.CheckForBooks | goFish.py:81-86 | the hand loses exactly the ranks held four times; old books stay as a prefix; the new books list each such rank exactly once and nothing else; four cards leave per book; a sorted hand stays sorted |
| Players.Player.HasCards | goFish.py:88-89 | true exactly when the hand is not empty |
| Game.DealtTo | goFish.py:100-103 | each player receives five cards |
| Game.PopOrder | goFish.py:37-39 | repeated `pop()` hands out a sequence's cards last first: position i gets the card at position length − 1 − i |
| Game.PopOrderStep | goFish.py:37-39 | popping one card more appends that card to the pop order |
| Game.PopOrderPermutes | goFish.py:37-39 | popping hands out every card once: the pop order is a permutation |
| Game.DealConserves | goFish.py:100-103 | the deck left after dealing plus all cards the players received is the deck before the deal |
| Game.NextIndex | goFish.py:108-109 | the next turn index stays in range and is the following seat, wrapping to 0 after the last |
| Game.AdvanceTimes | goFish.py:108-109 | after any number of turns the index is in range |
| Game.AdvanceClimbs | goFish.py:108-109 | before the last seat is passed, k turns move k seats on |
| Game.AdvanceCompose | goFish.py:108-109 | a turns followed by b turns are a + b turns |
| Game.FullRound | goFish.py:108-109 | n turns at a table of n players return the turn to where it started |
| Game.FirstMax | goFish.py:111-112 | `max` with a key picks a position holding the largest value, and no earlier position holds that value |
| Game.BookCounts | goFish.py:111-112 | the key of each player is its number of books |
| Game.AllHandsEmpty | goFish.py:114-115 | true exactly when no player has a card |
| Game.GoFishGame.constructor | goFish.py:94-98 | one player per name and flag pair, as many as the shorter list; turn index 0; deck shrunk by five cards per player; each player holds a sorted hand of exactly its five dealt cards, per rank in the order they left the deck, and no books |
| Game.GoFishGame.DealCards | goFish.py:100-103 | the deck loses its last 5·n cards; each player k has `Received` the k-th group of five from the end: player k's hand is sorted, five longer, and gains exactly the k-th group of five from the end; per rank, its cards are its old ones followed by the new ones in the order they left the deck; books untouched |
| Game.GoFishGame.DealFive | goFish.py:102-103 | the inner loop moves the deck's last five cards into the player's hand (`Received`), which ends sorted, five longer, with exactly those cards added, and per rank the old cards followed by the new ones in the order they were popped; books untouched |
| Game.GoFishGame.DealOne | goFish.py:103 | one `add_to_hand([deck.deal()])`: the deck loses its last card, which joins the hand in sorted position after the cards of its rank already held; books untouched |
| Game.GoFishGame.GetCurrentPlayer | goFish.py:105-106 | the player at the turn index; none at a table without players |
| Game.GoFishGame.NextTurn | goFish.py:108-109 | the index moves to the next seat and stays in range |
| Game.GoFishGame.CheckWinner | goFish.py:111-112 | a player with the most books, and no player before it has as many; none at an empty table |
| Game.GoFishGame.IsGameOver | goFish.py:114-115 | true exactly when the deck is empty or every hand is empty |

## Left out

- `Deck.shuffle` (`random.shuffle`) is not modelled. The constructors take the shuffled order as a parameter, required to be a permutation of the full deck.
- The `GoFishGUI` class and the `__main__` block are not part of this model. They hold the tkinter widgets, dialogs, the event loop and the random choice of computer turns.
- `Card.__str__` and `Card.get_suit_symbol` are not modelled. They only build display strings.
- Players.Player.AskForCard and Players.Player.RemoveFromHand take a `Rank`, while the source takes any string. A string outside the 13 rank symbols matches no card in the source, so it returns nothing and changes nothing; the model has no way to ask for such a string.
- Cards.Card.RankValue never takes the `KeyError` path of the table lookup. Cards are only ever built with the 13 listed ranks (RankValueIsTableLookup).
- Game.GoFishGame.DealCards requires the deck to hold five cards per player. Without enough cards, the source passes the `None` from `deal` to `add_to_hand`, whose sort then fails on `None`. In the constructor this means at most ten players.
- Game.GoFishGame.constructor also requires the shuffled deck to have 52 cards. A permutation of the full deck always does.
- Players.Player.CheckForBooks does not fix the order in which new books are appended, because Python's set iteration order is unspecified. It states which ranks are appended, once each.
- Players.Player.AskForCard compares cards by value in `list.remove`, where Python compares `Card` objects by identity. Every card of the rank is removed, so the result is the same either way.
