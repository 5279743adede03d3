/**
 * The game loop (`Game.play` in core.py): deal the deck card by card to the player,
 * and whenever the open cards contain sets, record the first and take its cards away.
 */
module Games {
  import opened Wrappers
  import opened Combinatorics
  import opened CardSets
  import opened Decks
  import opened Players

  /** What a game leaves behind: the sets found, in order, and the cards still open. */
  datatype Outcome = Outcome(found: seq<CardSet>, pool: seq<Card>)

  /** All the cards of the given sets, set after set. */
  function Flatten(sets: seq<CardSet>): seq<Card>
  {
    if sets == [] then [] else sets[0].cards + Flatten(sets[1..])
  }

  /** One turn after the new card is shown: the set recorded, if any, and the cards left open. */
  datatype TurnResult = TurnResult(chosen: Option<CardSet>, left: seq<Card>)

  /**
   * The turn of `Game.play` on the open cards `shown`: with no sets nothing happens;
   * otherwise the first set `calc_sets` offers is recorded and its cards are removed.
   */
  function Turn(shown: seq<Card>, k: nat): TurnResult
  {
    var sets := Sets(shown, k);
    if sets == [] then TurnResult(None, shown)
    else TurnResult(Some(sets[0]), Removal(shown, sets[0].cards).pool)
  }

  /** The cards a turn takes out of play: those of the recorded set, if any. */
  function Taken(t: TurnResult): seq<Card>
  {
    if t.chosen.None? then [] else t.chosen.value.cards
  }

  /**
   * What a turn does: it records a set iff `calc_sets` finds one, and then records the
   * first, a valid set of k cards; removing it always succeeds (its cards come from the
   * very pool they are removed from), so exactly its cards leave the pool.
   */
  lemma TurnSpec(shown: seq<Card>, k: nat)
    ensures var t := Turn(shown, k);
      && (t.chosen.None? <==> Sets(shown, k) == [])
      && (t.chosen.None? ==> t.left == shown)
      && (t.chosen.Some? ==>
            && t.chosen.value == Sets(shown, k)[0]
            && |t.chosen.value.cards| == k && ValidSet(t.chosen.value.cards)
            && Removal(shown, t.chosen.value.cards).Removed?
            && t.left == Removal(shown, t.chosen.value.cards).pool
            && |t.left| + k == |shown|)
  {
    var sets := Sets(shown, k);
    if sets != [] {
      SetsSound(shown, k);
      assert sets[0] in sets;
      RemovalSpec(shown, sets[0].cards);
    }
  }

  /** A turn only moves cards: the open cards before it are those left open plus those taken. */
  lemma TurnConserves(shown: seq<Card>, k: nat)
    ensures multiset(shown) == multiset(Turn(shown, k).left) + multiset(Taken(Turn(shown, k)))
  {
    var sets := Sets(shown, k);
    if sets != [] {
      SetsSound(shown, k);
      assert sets[0] in sets;
      RemovalSpec(shown, sets[0].cards);
    }
  }

  /**
   * The remaining game from a deck and an open pool, turn by turn as `Game.play` runs it:
   * show the front card, play the turn, and stop when the deck is empty.
   */
  function PlayFrom(deck: seq<Card>, pool: seq<Card>, k: nat): Outcome
    decreases |deck|
  {
    if deck == [] then Outcome([], pool)
    else
      var turn := Turn(pool + [deck[0]], k);
      var next := PlayFrom(deck[1..], turn.left, k);
      match turn.chosen
      case None => next
      case Some(s) => Outcome([s] + next.found, next.pool)
  }

  /**
   * One turn of `Game.play` in the terms the loop sees: with no sets the new card just
   * joins the pool; otherwise removing the first set succeeds and the game records it.
   */
  lemma PlayTurn(deck: seq<Card>, pool: seq<Card>, k: nat)
    requires deck != []
    ensures var shown := pool + [deck[0]];
      var sets := Sets(shown, k);
      && (sets == [] ==> PlayFrom(deck, pool, k) == PlayFrom(deck[1..], shown, k))
      && (sets != [] ==>
            var removal := Removal(shown, sets[0].cards);
            && removal.Removed?
            && PlayFrom(deck, pool, k) ==
                 Outcome([sets[0]] + PlayFrom(deck[1..], removal.pool, k).found,
                         PlayFrom(deck[1..], removal.pool, k).pool))
  {
    TurnSpec(pool + [deck[0]], k);
  }

  /** Every set the game records has k cards and is valid. */
  lemma {:induction false} PlaySound(deck: seq<Card>, pool: seq<Card>, k: nat)
    decreases |deck|
    ensures forall s :: s in PlayFrom(deck, pool, k).found ==> |s.cards| == k && ValidSet(s.cards)
  {
    if deck != [] {
      var turn := Turn(pool + [deck[0]], k);
      TurnSpec(pool + [deck[0]], k);
      PlaySound(deck[1..], turn.left, k);
    }
  }

  /**
   * One step of the card bookkeeping: the turn moves the new card into play and the
   * cards it takes onto the found pile, ahead of everything found later.
   */
  lemma ConservesStep(deck: seq<Card>, pool: seq<Card>, k: nat)
    requires deck != []
    ensures var t := Turn(pool + [deck[0]], k);
      && multiset(pool) + multiset(deck) == multiset(t.left) + multiset(deck[1..]) + multiset(Taken(t))
      && PlayFrom(deck, pool, k).pool == PlayFrom(deck[1..], t.left, k).pool
      && Flatten(PlayFrom(deck, pool, k).found) == Taken(t) + Flatten(PlayFrom(deck[1..], t.left, k).found)
  {
    var shown := pool + [deck[0]];
    assert deck == [deck[0]] + deck[1..];
    assert multiset(deck) == multiset{deck[0]} + multiset(deck[1..]);
    assert multiset(shown) == multiset(pool) + multiset{deck[0]};
    var t := Turn(shown, k);
    TurnConserves(shown, k);
    Regroup(multiset(pool), multiset{deck[0]}, multiset(deck[1..]), multiset(t.left), multiset(Taken(t)));
    var next := PlayFrom(deck[1..], t.left, k);
    if t.chosen.Some? {
      var s := t.chosen.value;
      assert ([s] + next.found)[1..] == next.found;
    }
  }

  /** The new card joins the pool before the turn, and the rest of the deck waits. */
  lemma Regroup<T>(pool: multiset<T>, card: multiset<T>, rest: multiset<T>, left: multiset<T>, taken: multiset<T>)
    requires pool + card == left + taken
    ensures pool + (card + rest) == left + rest + taken
  {
    forall x ensures (pool + (card + rest))[x] == (left + rest + taken)[x] {
      assert (pool + card)[x] == (left + taken)[x];
    }
  }

  /**
   * No card is created or lost: the cards of the deck and the initial pool are exactly
   * the cards left open plus the cards of the sets found.
   */
  lemma {:induction false} PlayConservesCards(deck: seq<Card>, pool: seq<Card>, k: nat)
    decreases |deck|
    ensures var r := PlayFrom(deck, pool, k);
      multiset(pool) + multiset(deck) == multiset(r.pool) + multiset(Flatten(r.found))
  {
    if deck != [] {
      ConservesStep(deck, pool, k);
      var t := Turn(pool + [deck[0]], k);
      PlayConservesCards(deck[1..], t.left, k);
      var next := PlayFrom(deck[1..], t.left, k);
      MultisetShift(multiset(pool) + multiset(deck), multiset(t.left) + multiset(deck[1..]), multiset(Taken(t)),
        multiset(next.pool), multiset(Flatten(next.found)));
    }
  }

  /** The bookkeeping of one turn: the taken cards join the found pile ahead of the later ones. */
  lemma MultisetShift<T>(before: multiset<T>, between: multiset<T>, taken: multiset<T>,
                         finalPool: multiset<T>, laterFound: multiset<T>)
    requires before == between + taken
    requires between == finalPool + laterFound
    ensures before == finalPool + (taken + laterFound)
  {
    forall x ensures before[x] == (finalPool + (taken + laterFound))[x] {
      assert before[x] == between[x] + taken[x];
    }
  }

  /** The cards of sets of k cards each number k per set. */
  lemma {:induction false} FlattenLength(sets: seq<CardSet>, k: nat)
    requires forall s :: s in sets ==> |s.cards| == k
    ensures |Flatten(sets)| == |sets| * k
  {
    if sets != [] {
      assert sets[0] in sets;
      FlattenLength(sets[1..], k);
      MulSucc(|sets[1..]|, k);
    }
  }

  /** Multiplication distributes over a successor. */
  lemma MulSucc(n: nat, k: nat)
    ensures (n + 1) * k == n * k + k
  {
  }

  /** Each turn either keeps every card or takes away exactly k, so the counts always balance. */
  lemma PlayCount(deck: seq<Card>, pool: seq<Card>, k: nat)
    ensures var r := PlayFrom(deck, pool, k);
      |r.found| * k + |r.pool| == |pool| + |deck|
  {
    var r := PlayFrom(deck, pool, k);
    PlayConservesCards(deck, pool, k);
    PlaySound(deck, pool, k);
    FlattenLength(r.found, k);
    assert |multiset(pool) + multiset(deck)| == |multiset(r.pool) + multiset(Flatten(r.found))|;
  }

  /** A game started with no open cards finds at most |deck| / k sets. */
  lemma PlayBound(deck: seq<Card>, k: nat)
    ensures |PlayFrom(deck, [], k).found| * k <= |deck|
  {
    PlayCount(deck, [], k);
  }

  /**
   * Each turn on which the open cards hold some valid k-card combination `c` records a
   * set, and the set it records first is the cards of a valid k-card combination `m`
   * that is `c` itself or lexicographically smaller: the least one, as `calc_sets`
   * returns it first.
   */
  lemma PlayTakesFirstSet(deck: seq<Card>, pool: seq<Card>, k: nat, c: seq<nat>)
    requires deck != []
    requires |c| == k && PicksValidSet(pool + [deck[0]], c)
    ensures var shown := pool + [deck[0]];
      var r := PlayFrom(deck, pool, k);
      && r.found != []
      && exists m :: |m| == k && PicksValidSet(shown, m) && r.found[0] == CardSet(Pick(shown, m)) && (m == c || LexLess(m, c))
  {
    var shown := pool + [deck[0]];
    FirstSetIsLeast(shown, k, c);
    PlayTurn(deck, pool, k);
    var m := SetIndices(shown, k)[0];
    SetIndicesExact(shown, k, m);
    assert |m| == k && PicksValidSet(shown, m);
  }

  /** A turn whose open cards hold no valid k-card combination records nothing and keeps the new card open. */
  lemma PlaySkipsTurnWithoutSets(deck: seq<Card>, pool: seq<Card>, k: nat)
    requires deck != []
    requires forall m :: |m| == k ==> !PicksValidSet(pool + [deck[0]], m)
    ensures PlayFrom(deck, pool, k) == PlayFrom(deck[1..], pool + [deck[0]], k)
  {
    var shown := pool + [deck[0]];
    PlayTurn(deck, pool, k);
    SetsIndexed(shown, k);
    if SetIndices(shown, k) != [] {
      SetIndicesExact(shown, k, SetIndices(shown, k)[0]);
    }
  }

  /** A sequence whose elements all occur in a same-width sequence has the same width. */
  lemma SameWidthWithin(a: seq<Card>, b: seq<Card>)
    requires SameWidth(b)
    requires multiset(a) <= multiset(b)
    ensures SameWidth(a)
  {
    forall x | x in a ensures x in b {
      assert x in multiset(a);
    }
  }

  /**
   * A turn keeps all open and undealt cards of one width: it only moves the new card into
   * the pool and removes cards from it. So in a game whose deck and starting pool have one
   * width, every pool `calc_sets` searches has one width, and there `is_valid` never raises
   * (see NoIndexErrorOnOneWidth).
   */
  lemma TurnKeepsWidth(deck: seq<Card>, pool: seq<Card>, k: nat)
    requires SameWidth(pool + deck) && deck != []
    ensures SameWidth(pool + [deck[0]])
    ensures SameWidth(Turn(pool + [deck[0]], k).left + deck[1..])
  {
    var shown := pool + [deck[0]];
    assert shown + deck[1..] == pool + deck;
    SameWidthWithin(shown, pool + deck);
    TurnConserves(shown, k);
    SameWidthWithin(Turn(shown, k).left + deck[1..], pool + deck);
  }

  /** Concatenation is associative (stated for the loop of `play`, which appends set by set). */
  lemma AppendAssoc<T>(a: seq<T>, b: seq<T>, c: seq<T>)
    ensures a + (b + c) == (a + b) + c
  {
  }

  class Game {
    const numFeatures: nat
    const numOptionsPerFeature: nat
    const deck: Deck

    /** `Game.__init__`: a game over a fresh deck, shuffled into the order `shuffled`. */
    constructor (numFeatures: nat, numOptionsPerFeature: nat, shuffled: seq<Card>)
      requires IsShuffle(shuffled, numFeatures, numOptionsPerFeature)
      ensures this.numFeatures == numFeatures && this.numOptionsPerFeature == numOptionsPerFeature
      ensures fresh(deck) && deck.stack == shuffled
      ensures deck.numFeatures == numFeatures && deck.numOptionsPerFeature == numOptionsPerFeature
    {
      this.numFeatures := numFeatures;
      this.numOptionsPerFeature := numOptionsPerFeature;
      deck := new Deck(numFeatures, numOptionsPerFeature, shuffled);
    }

    /**
     * `play`: draw until the deck is empty (exactly one draw per card), show each card,
     * and on every turn with sets record the first and remove its cards. Every removal
     * succeeds (`remove_cards` never raises ValueError here). The result is the game
     * PlayFrom describes.
     */
    method Play(player: BruteForcePlayer) returns (found: seq<CardSet>, ghost draws: nat, ghost removalsOk: bool)
      modifies deck, player
      ensures deck.stack == [] && draws == |old(deck.stack)|
      ensures removalsOk
      ensures Outcome(found, player.openCards) ==
        PlayFrom(old(deck.stack), old(player.openCards), player.numOptionsPerFeature)
    {
      var k := player.numOptionsPerFeature;
      ghost var outcome := PlayFrom(deck.stack, player.openCards, k);
      found := [];
      draws := 0;
      removalsOk := true;
      while true
        invariant removalsOk
        invariant draws + |deck.stack| == |old(deck.stack)|
        invariant outcome == Outcome(found + PlayFrom(deck.stack, player.openCards, k).found,
                                     PlayFrom(deck.stack, player.openCards, k).pool)
        decreases |deck.stack|
      {
        ghost var stack := deck.stack;
        ghost var pool := player.openCards;
        var next := deck.NextCard();
        if next.None? {
          break;
        }
        draws := draws + 1;
        player.ShowCards([next.value]);
        PlayTurn(stack, pool, k);
        var sets := player.CalcSets();
        if |sets| == 0 {
          continue;
        }
        ghost var found0 := found;
        found := found + [sets[0]];
        var ok := player.RemoveCards(sets[0].cards);
        removalsOk := removalsOk && ok;
        ghost var rest := PlayFrom(deck.stack, player.openCards, k);
        AppendAssoc(found0, [sets[0]], rest.found);
      }
    }
  }
}
