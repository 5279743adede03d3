# A verified model of the Set card-game simulator

This project models `core.py` of the `set-game` repository in Dafny. That file simulates the card game
"Set":

- A **card** is a tuple of feature values.
- A **deck** holds every card of the game (the Cartesian product of `options` values over
  `features` positions) in shuffled order and deals them from the front.
- A group of cards is a **set** when, on every feature, the cards are all equal or all different.
- The **brute-force player** keeps the open cards in a list. It appends dealt cards, removes
  cards by value, and finds sets by trying every `k`-card combination of the open cards, where
  `k` is the number of options per feature.
- The **game** deals the whole deck card by card. After each card it asks the player for sets,
  records the first one and removes its cards.

The modules follow the source's classes:

- `CardSets` covers `Card`, `CardSet` and `is_valid`.
- `Combinatorics` covers the enumeration order of `itertools.combinations`.
- `Decks` covers `itertools.product` and the `Deck` class.
- `Players` covers `BruteForcePlayer`.
- `Games` covers `Game`.
- `Wrappers` holds `Option`.

The parts of the source that change state are Dafny classes and methods:

- the deck's stack;
- the player's list of open cards;
- the loop of `Game.play`.

Each method is proved against a pure specification function:

- `Removal` for `remove_cards`;
- `Sets` for `calc_sets`;
- `PlayFrom` for `play`.

The properties the source promises are proved as lemmas about those functions.

## Model

| member | source | states |
|---|---|---|
| CardSets.IsValid | core.py:43-56 | The result is exactly the validity rule. An empty group gives false. A group is a set iff it is non-empty, no card is shorter than the first, and every feature of the first card has 1 or `len(cards)` distinct values. None (the IndexError) is returned exactly when the loop reaches a feature that some card lacks after all earlier features passed. |
| CardSets.ValidSet | core.py:43-56 | The validity rule as a predicate: a non-empty group in which no card is shorter than the first, and every feature of the first card has 1 or `len(cards)` distinct values. It agrees with `is_valid` wherever that returns (IsValid). |
| CardSets.DistinctCount | core.py:50-53 | A column has at most as many distinct values as cards, and exactly as many iff its values are pairwise different. |
| CardSets.DistinctOne | core.py:50-53 | A column has exactly one distinct value iff it is non-empty and all its values are equal. |
| CardSets.ValidSetCharacterization | core.py:49-56 | A group is a set iff it is non-empty, no card is shorter than the first, and on every feature the cards are all the same or all different. |
| CardSets.ValidSetPermutation | core.py:43-56 | For cards of equal width, validity does not depend on the order of the cards. |
| CardSets.CardSetEqualityIsOrdered | core.py:37-38 | `CardSet` equality compares the card tuples in order: two distinct cards in swapped order give unequal groups. Validity is the same for both orders. |
| CardSets.ValidSetExamples | tests/test_set.py:8-26 | The empty group is not a set. `(1),(1),(1)`, `(1),(2),(3)` and `(1,1),(2,1),(3,1)` are sets. `(1),(2),(2)` is not. |
| CardSets.OneFeatureExample | core.py:49-54 | Three one-feature cards form a set iff their values are all equal or all different. |
| Combinatorics.IndexCombinations | core.py:88-89 | There are no combinations when fewer than `k` indices remain. |
| Combinatorics.IndexCombinationsShape | core.py:88-89 | Every enumerated combination is a strictly increasing `k`-tuple of positions. |
| Combinatorics.IndexCombinationsComplete | core.py:88-89 | Every strictly increasing `k`-tuple of positions is enumerated. |
| Combinatorics.IndexCombinationsSorted | core.py:88-89 | The combinations come in strictly increasing lexicographic order, so none repeats. |
| Combinatorics.IndexCombinationsCount | core.py:88-89 | There are exactly C(n, k) combinations. |
| Combinatorics.IndexCombinationsAll | core.py:88-89 | Choosing all `n` positions gives exactly one combination: all of them, in order. |
| Combinatorics.PickSubMultiset | core.py:88-89 | The cards of a combination are a sub-multiset of the pool. |
| Decks.ProductSize | core.py:23 | The product has `options^features` cards. |
| Decks.ProductCards | core.py:23 | Every card of the product has `features` values, each in `[0, options)`. |
| Decks.ProductDistinct | core.py:23 | No card of the product occurs twice. |
| Decks.ProductComplete | core.py:23 | Every card of the game is in the product. |
| Decks.Product | core.py:23 | `itertools.product(range(options), repeat=features)` in the product's own order. Its size, card shape, distinctness and completeness are the four lemmas above. |
| Decks.DeckContents | core.py:22-24 | Take any shuffle of the product. It has `options^features` cards, pairwise distinct, each a card of the game, and every card of the game is among them. |
| Decks.SmallProduct | tests/test_set.py:34-36 | The product for two features with two options is `(0,0),(0,1),(1,0),(1,1)`. |
| Decks.Deck.constructor | core.py:12-17 | A new deck keeps its configuration. Its stack is the shuffled product, with the contents `DeckContents` describes. |
| Decks.Deck.Initialize | core.py:22-24 | The stack becomes the given shuffle of the product. It has `options^features` distinct cards, and exactly the cards of the game. |
| Decks.Deck.NextCard | core.py:26-30 | On a non-empty stack it returns the front card, and the stack loses exactly that card, so the length drops by one. On an empty stack it returns None and the stack is unchanged. |
| Decks.Deck.Length | core.py:19-20 | `__len__`: the number of undealt cards. NextCard and Initialize state their effect on it. |
| Players.FirstIndex | core.py:84 | Gives the position of the first card equal to the given one: no equal card comes before it. |
| Players.RemoveFirst | core.py:84 | `list.remove` shortens the pool by exactly one card. |
| Players.RemoveFirstSpec | core.py:84 | `list.remove` deletes one copy of the card, the first one, and keeps the other cards in order. |
| Players.Removal | core.py:82-84 | A successful `remove_cards` shrinks the pool by the number of cards removed. |
| Players.RemovalSpec | core.py:82-84 | `remove_cards` succeeds iff the cards are a sub-multiset of the pool, and then exactly those cards leave. A failure names a requested card. The pool never gains cards. |
| Players.BruteForcePlayer.constructor | core.py:74-77 | A new player has no open cards and keeps the set size. |
| Players.BruteForcePlayer.ShowCards | core.py:79-80 | The pool becomes the old pool followed by the shown cards, in order. |
| Players.BruteForcePlayer.RemoveCards | core.py:82-84 | The new pool and the success flag are those of `Removal`. The flag is false exactly where the source raises ValueError, and the pool then keeps the removals done before the failure. |
| Players.BruteForcePlayer.CalcSets | core.py:86-90 | Reads the pool without changing it. Every set offered has `k` cards, is valid, and is made of open cards. |
| Players.Sets | core.py:86-90 | `calc_sets` as a value: the valid `k`-card combinations of the pool in `itertools.combinations` order. What it returns is stated by SetIndicesExact, SetIndicesSorted, SetsIndexed, FirstSetIsLeast and SetsSound. |
| Players.SetsOfKeepValid | core.py:87-90 | The list comprehension over combinations pairs each kept combination with the set of its cards, position by position. |
| Players.SetsIndexed | core.py:86-90 | The i-th set returned is made of the cards at the i-th valid combination. |
| Players.KeepValidExact | core.py:87 | The filter keeps exactly the combinations whose cards form a set. |
| Players.KeepValidSorted | core.py:87 | The filter preserves lexicographic order. |
| Players.SetIndicesExact | core.py:86-90 | A combination is used iff it is a strictly increasing `k`-tuple of pool positions whose cards form a set. |
| Players.SetIndicesSorted | core.py:86-90 | The sets come in strictly increasing lexicographic order of their positions. |
| Players.FirstSetIsLeast | core.py:86-90 | When any valid combination exists, the result is non-empty. Its first set is the lexicographically least valid combination. |
| Players.SetsSound | core.py:86-90 | Every returned set has `k` cards, is valid, and is a sub-multiset of the pool. |
| Players.SetsTooFewCards | core.py:86-90 | With fewer than `k` open cards there are no sets. |
| Players.SetsWholePool | core.py:86-90 | With exactly `k` open cards, the only possible set is the whole pool, offered iff it is a set. |
| Players.ThreeCardExamples | tests/test_set.py:89-98 | `(0),(1),(1)` gives no sets. `(0),(1),(2)` gives exactly that set. |
| Players.NoIndexErrorOnOneWidth | core.py:49-50 | On a pool whose cards all have one width, `is_valid` never raises IndexError on any combination, so there `calc_sets` returns normally and Sets is its result. |
| Games.TurnSpec | core.py:108-117 | A turn records a set iff `calc_sets` finds one. It records the first, a valid set of `k` cards. Removing it succeeds, and the pool shrinks by exactly `k`. |
| Games.TurnConserves | core.py:108-117 | A turn only moves cards: the cards shown equal the cards left open plus the cards taken. |
| Games.Turn | core.py:108-117 | One turn on the open cards after the new card is shown: nothing with no sets, otherwise the first set is recorded and its cards removed. TurnSpec and TurnConserves state what it does. |
| Games.TurnKeepsWidth | core.py:103-117 | A turn keeps the open and undealt cards of one width, so a game on a one-width deck and pool only ever searches one-width pools. |
| Games.PlayTurn | core.py:103-117 | One loop iteration. With no sets, the new card just joins the pool. Otherwise the removal of the first set succeeds and the set leads the rest of the result. |
| Games.PlayFrom | core.py:100-120 | The rest of the game from a deck and an open pool, one turn per card until the deck is empty. Game.Play is proved equal to it, and PlaySound, PlayConservesCards, PlayCount, PlayBound and PlayTakesFirstSet state its properties. |
| Games.PlaySound | core.py:100-120 | Every recorded set has `k` cards and is valid. |
| Games.PlayConservesCards | core.py:100-120 | No card is created or lost. Deck plus initial pool equals the final pool plus the cards of all recorded sets. |
| Games.PlayCount | core.py:100-120 | (number of sets found) × k + final pool size = initial pool size + deck size. |
| Games.PlayBound | core.py:100-120 | Starting with no open cards, (number of sets found) × k ≤ deck size. |
| Games.PlayTakesFirstSet | core.py:109-117 | When the open cards after a draw contain any valid `k`-card combination `c`, the turn records a set. The first set recorded is the cards of a valid `k`-card combination that is `c` or lexicographically before it, i.e. the least one. |
| Games.PlaySkipsTurnWithoutSets | core.py:109-111 | When the open cards after a draw contain no valid `k`-card combination, nothing is recorded and the new card stays open. |
| Games.Game.constructor | core.py:94-98 | A new game keeps its configuration and owns a fresh deck holding the given shuffle. |
| Games.Game.Play | core.py:100-120 | Draws exactly `len(deck)` cards and empties the deck. Every `remove_cards` call succeeds. The sets found and the final pool are those of `PlayFrom`, so all the `PlayFrom` lemmas above hold for the real loop. |

## Left out

- Console output: the `print` calls in `play` and the `__main__` block have no effect on the
  model's state.
- `random.shuffle`: the deck order is a parameter that must be a permutation of the product
  (`IsShuffle`). The tests assign the stack directly, and `Game` accepts any given order.
- `BasePlayer`: its methods only raise NotImplementedError. The game is modelled with
  `BruteForcePlayer`, the only real player.
- `CardSet.__repr__` is formatting only. `CardSet.__init__` is the datatype constructor, and
  `__eq__` is datatype equality.
- Python integers are unbounded, like Dafny's `int`. The configuration values are `nat`, and
  the source does not check that they are positive, so neither does the model.
- Players.BruteForcePlayer.CalcSets: when a combination contains a card shorter than its first card,
  `is_valid` may raise IndexError and abort `calc_sets`. `Sets` instead counts that combination
  as not a set, and Games.Game.Play and Games.PlayFrom then carry on where `play` would abort
  (for example a stack set by hand to `(0,0),(1),(2,0)` with three options). The model agrees with
  the source whenever the deck and the starting open cards all have one width. Every deck built by
  `initialize` does (DeckContents: each card has `features` values), TurnKeepsWidth keeps it so
  turn after turn, and NoIndexErrorOnOneWidth shows that `is_valid` then never raises.
- `remove_cards` matches cards by value (`list.remove` uses `==`), as the code does. Object
  identity plays no part in the model.
- The deck returns cards as they are. The model does not distinguish a `Card` object from the tuple
  of its values.
