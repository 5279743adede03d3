/**
 * The brute-force player (`BruteForcePlayer` in core.py): a pool of open cards,
 * extended by `show_cards`, shrunk by `remove_cards`, and searched exhaustively
 * for sets by `calc_sets`.
 */
module Players {
  import opened Combinatorics
  import opened CardSets

  /** Position of the first occurrence of `x`, the one `list.remove` deletes. */
  function FirstIndex(s: seq<Card>, x: Card): (i: nat)
    requires x in s
    ensures i < |s| && s[i] == x && x !in s[..i]
  {
    if s[0] == x then 0
    else
      var i := 1 + FirstIndex(s[1..], x);
      assert s[..i] == [s[0]] + s[1..][..i - 1];
      i
  }

  /** `list.remove(x)`: delete the first element equal to `x`, keeping the others in order. */
  function RemoveFirst(s: seq<Card>, x: Card): (r: seq<Card>)
    requires x in s
    ensures |r| == |s| - 1
  {
    var i := FirstIndex(s, x);
    s[..i] + s[i + 1..]
  }

  /**
   * RemoveFirst deletes exactly one copy of `x`, and it is the copy at the unique
   * position whose prefix holds no `x`; the other cards keep their order.
   */
  lemma RemoveFirstSpec(s: seq<Card>, x: Card)
    requires x in s
    ensures multiset(RemoveFirst(s, x)) == multiset(s) - multiset{x}
    ensures forall i :: 0 <= i < |s| && s[i] == x && x !in s[..i] ==> RemoveFirst(s, x) == s[..i] + s[i + 1..]
  {
    var i := FirstIndex(s, x);
    assert s == s[..i] + [x] + s[i + 1..];
    assert forall j :: 0 <= j < |s| && s[j] == x && x !in s[..j] ==> j == i;
  }

  /**
   * The pool after `remove_cards`: `Removed` when every card was found; otherwise
   * `NotFound` with the first missing card and the pool as the earlier removals left
   * it (the source raises ValueError without undoing them).
   */
  datatype RemoveResult = Removed(pool: seq<Card>) | NotFound(pool: seq<Card>, missing: Card)

  /** Remove the cards one by one, each at its first occurrence, stopping at the first missing one. */
  function Removal(pool: seq<Card>, cards: seq<Card>): (r: RemoveResult)
    decreases |cards|
    ensures r.Removed? ==> |r.pool| == |pool| - |cards|
  {
    if cards == [] then Removed(pool)
    else if cards[0] !in pool then NotFound(pool, cards[0])
    else Removal(RemoveFirst(pool, cards[0]), cards[1..])
  }

  /**
   * `remove_cards` succeeds iff the cards form a sub-multiset of the pool; it then takes
   * away exactly those cards. A failure names a requested card, and no run of it ever
   * adds a card to the pool.
   */
  lemma {:induction false} RemovalSpec(pool: seq<Card>, cards: seq<Card>)
    decreases |cards|
    ensures Removal(pool, cards).Removed? <==> multiset(cards) <= multiset(pool)
    ensures Removal(pool, cards).Removed? ==>
      multiset(Removal(pool, cards).pool) == multiset(pool) - multiset(cards)
    ensures Removal(pool, cards).NotFound? ==> Removal(pool, cards).missing in cards
    ensures multiset(Removal(pool, cards).pool) <= multiset(pool)
  {
    if cards != [] {
      var c := cards[0];
      assert cards == [c] + cards[1..];
      assert multiset(cards) == multiset{c} + multiset(cards[1..]);
      if c !in pool {
        assert multiset(pool)[c] == 0 < multiset(cards)[c];
      } else {
        var left := RemoveFirst(pool, c);
        RemoveFirstSpec(pool, c);
        RemovalSpec(left, cards[1..]);
        TakeOneMore(multiset(pool), c, multiset(cards[1..]));
      }
    }
  }

  /** Taking `c` and then `rest` out of a pool is taking `c` plus `rest`, and is possible exactly when that is. */
  lemma TakeOneMore<T>(pool: multiset<T>, c: T, rest: multiset<T>)
    requires c in pool
    ensures rest <= pool - multiset{c} <==> multiset{c} + rest <= pool
    ensures rest <= pool - multiset{c} ==> (pool - multiset{c}) - rest == pool - (multiset{c} + rest)
  {
    if multiset{c} + rest <= pool {
      forall x ensures rest[x] <= (pool - multiset{c})[x] {
        assert (multiset{c} + rest)[x] <= pool[x];
      }
    }
  }

  /** The cards at the strictly increasing pool positions `c` form a valid set. */
  predicate PicksValidSet(pool: seq<Card>, c: seq<nat>)
  {
    IncreasingWithin(c, 0, |pool|) && ValidSet(Pick(pool, c))
  }

  /** Keeps the index tuples whose picked cards form a valid set, in their original order. */
  function KeepValid(pool: seq<Card>, ics: seq<seq<nat>>): (r: seq<seq<nat>>)
    requires forall c :: c in ics ==> IncreasingWithin(c, 0, |pool|)
  {
    if ics == [] then []
    else
      var c := ics[0];
      assert c in ics;
      assert IncreasingWithin(c, 0, |pool|);
      var rest := KeepValid(pool, ics[1..]);
      if ValidSet(Pick(pool, c)) then [c] + rest else rest
  }

  /** The index tuples of the valid size-k combinations of the pool, in enumeration order. */
  function SetIndices(pool: seq<Card>, k: nat): seq<seq<nat>>
  {
    IndexCombinationsShape(0, |pool|, k);
    KeepValid(pool, IndexCombinations(0, |pool|, k))
  }

  /**
   * `calc_sets` as a value: the size-k combinations of the pool, in `itertools.combinations`
   * order, that form valid sets, each as a card set.
   */
  function Sets(pool: seq<Card>, k: nat): seq<CardSet>
  {
    IndexCombinationsShape(0, |pool|, k);
    SetsOf(pool, IndexCombinations(0, |pool|, k))
  }

  /** The list comprehension of `calc_sets` over the index tuples `ics`: keep the valid groups, in order. */
  function SetsOf(pool: seq<Card>, ics: seq<seq<nat>>): seq<CardSet>
    requires forall c :: c in ics ==> IncreasingWithin(c, 0, |pool|)
  {
    if ics == [] then []
    else
      assert ics[0] in ics;
      assert IncreasingWithin(ics[0], 0, |pool|);
      assert forall d :: d in ics[1..] ==> d in ics;
      var rest := SetsOf(pool, ics[1..]);
      if ValidSet(Pick(pool, ics[0])) then [CardSet(Pick(pool, ics[0]))] + rest else rest
  }

  /** SetsOf lists, position by position, the cards of the tuples KeepValid keeps. */
  lemma {:induction false} SetsOfKeepValid(pool: seq<Card>, ics: seq<seq<nat>>)
    requires forall c :: c in ics ==> IncreasingWithin(c, 0, |pool|)
    ensures |SetsOf(pool, ics)| == |KeepValid(pool, ics)|
    ensures forall j :: 0 <= j < |KeepValid(pool, ics)| ==>
      && KeepValid(pool, ics)[j] in ics
      && SetsOf(pool, ics)[j] == CardSet(Pick(pool, KeepValid(pool, ics)[j]))
  {
    if ics != [] {
      var tail := ics[1..];
      assert forall c :: c in tail ==> c in ics;
      SetsOfKeepValid(pool, tail);
      assert ics[0] in ics;
      var kept := KeepValid(pool, ics);
      var sets := SetsOf(pool, ics);
      var keptTail := KeepValid(pool, tail);
      var setsTail := SetsOf(pool, tail);
      if ValidSet(Pick(pool, ics[0])) {
        assert kept == [ics[0]] + keptTail && sets == [CardSet(Pick(pool, ics[0]))] + setsTail;
        forall j | 0 < j < |kept| ensures kept[j] in ics && sets[j] == CardSet(Pick(pool, kept[j])) {
          assert kept[j] == keptTail[j - 1] && sets[j] == setsTail[j - 1];
        }
      }
    }
  }

  /** The i-th set `calc_sets` returns is made of the cards at the i-th valid index tuple. */
  lemma SetsIndexed(pool: seq<Card>, k: nat)
    ensures |Sets(pool, k)| == |SetIndices(pool, k)|
    ensures forall j :: 0 <= j < |SetIndices(pool, k)| ==>
      && IncreasingWithin(SetIndices(pool, k)[j], 0, |pool|)
      && Sets(pool, k)[j] == CardSet(Pick(pool, SetIndices(pool, k)[j]))
  {
    IndexCombinationsShape(0, |pool|, k);
    SetsOfKeepValid(pool, IndexCombinations(0, |pool|, k));
  }

  /** KeepValid keeps exactly the tuples that pick a valid set. */
  lemma {:induction false} KeepValidExact(pool: seq<Card>, ics: seq<seq<nat>>, c: seq<nat>)
    requires forall d :: d in ics ==> IncreasingWithin(d, 0, |pool|)
    ensures c in KeepValid(pool, ics) <==> c in ics && PicksValidSet(pool, c)
  {
    if ics != [] {
      KeepValidExact(pool, ics[1..], c);
      assert ics == [ics[0]] + ics[1..];
    }
  }

  /** KeepValid preserves the strict lexicographic order of its input. */
  lemma {:induction false} KeepValidSorted(pool: seq<Card>, ics: seq<seq<nat>>)
    requires forall d :: d in ics ==> IncreasingWithin(d, 0, |pool|)
    requires StrictlySorted(ics)
    ensures StrictlySorted(KeepValid(pool, ics))
  {
    if ics != [] {
      var tail := ics[1..];
      SortedSplit(ics);
      KeepValidSorted(pool, tail);
      var rest := KeepValid(pool, tail);
      var head := ics[0];
      assert head in ics;
      if ValidSet(Pick(pool, head)) {
        assert KeepValid(pool, ics) == [head] + rest;
        forall d | d in rest ensures d in tail {
          KeepValidExact(pool, tail, d);
        }
        SortedCons(head, rest, tail);
      }
    }
  }

  /** A strictly sorted list splits into a head below every later element and a sorted tail. */
  lemma SortedSplit(ics: seq<seq<nat>>)
    requires ics != [] && StrictlySorted(ics)
    ensures StrictlySorted(ics[1..])
    ensures forall d :: d in ics[1..] ==> LexLess(ics[0], d)
  {
    var tail := ics[1..];
    forall i, j | 0 <= i < j < |tail| ensures LexLess(tail[i], tail[j]) {
      assert tail[i] == ics[i + 1] && tail[j] == ics[j + 1];
    }
    forall d | d in tail ensures LexLess(ics[0], d) {
      var m :| 0 <= m < |tail| && tail[m] == d;
      assert ics[m + 1] == d;
    }
  }

  /** A head below every element of a sorted list drawn from `tail` extends it to a sorted list. */
  lemma SortedCons(head: seq<nat>, rest: seq<seq<nat>>, tail: seq<seq<nat>>)
    requires StrictlySorted(rest)
    requires forall d :: d in rest ==> d in tail
    requires forall d :: d in tail ==> LexLess(head, d)
    ensures StrictlySorted([head] + rest)
  {
    var r := [head] + rest;
    forall i, j | 0 <= i < j < |r| ensures LexLess(r[i], r[j]) {
      if i == 0 {
        assert r[j] == rest[j - 1];
        assert rest[j - 1] in rest;
      } else {
        assert r[i] == rest[i - 1] && r[j] == rest[j - 1];
      }
    }
  }

  /**
   * `calc_sets` returns exactly the valid size-k combinations: an index tuple is used
   * iff it is a strictly increasing k-tuple of pool positions whose cards form a valid set.
   */
  lemma SetIndicesExact(pool: seq<Card>, k: nat, c: seq<nat>)
    ensures c in SetIndices(pool, k) <==> |c| == k && PicksValidSet(pool, c)
  {
    IndexCombinationsShape(0, |pool|, k);
    KeepValidExact(pool, IndexCombinations(0, |pool|, k), c);
    if |c| == k && IncreasingWithin(c, 0, |pool|) {
      IndexCombinationsComplete(0, |pool|, k, c);
    }
  }

  /** `calc_sets` lists the combinations in strictly increasing lexicographic order of their indices. */
  lemma SetIndicesSorted(pool: seq<Card>, k: nat)
    ensures StrictlySorted(SetIndices(pool, k))
  {
    IndexCombinationsShape(0, |pool|, k);
    IndexCombinationsSorted(0, |pool|, k);
    KeepValidSorted(pool, IndexCombinations(0, |pool|, k));
  }

  /** The first set found is the lexicographically least valid combination of pool positions. */
  lemma FirstSetIsLeast(pool: seq<Card>, k: nat, c: seq<nat>)
    requires |c| == k && PicksValidSet(pool, c)
    ensures Sets(pool, k) != [] && SetIndices(pool, k) != []
    ensures IncreasingWithin(SetIndices(pool, k)[0], 0, |pool|)
    ensures Sets(pool, k)[0] == CardSet(Pick(pool, SetIndices(pool, k)[0]))
    ensures c == SetIndices(pool, k)[0] || LexLess(SetIndices(pool, k)[0], c)
  {
    SetIndicesExact(pool, k, c);
    SetIndicesSorted(pool, k);
    SetsIndexed(pool, k);
    var indices := SetIndices(pool, k);
    var m :| 0 <= m < |indices| && indices[m] == c;
    SetIndicesExact(pool, k, indices[0]);
    if m > 0 {
      assert LexLess(indices[0], indices[m]);
    }
  }

  /**
   * Every set `calc_sets` returns has k cards, is valid, and draws its cards from the
   * pool without reusing any (a sub-multiset), so the pool can give them all back.
   */
  lemma SetsSound(pool: seq<Card>, k: nat)
    ensures forall s :: s in Sets(pool, k) ==>
      && |s.cards| == k
      && ValidSet(s.cards)
      && multiset(s.cards) <= multiset(pool)
  {
    var indices := SetIndices(pool, k);
    SetsIndexed(pool, k);
    forall s | s in Sets(pool, k)
      ensures |s.cards| == k && ValidSet(s.cards) && multiset(s.cards) <= multiset(pool)
    {
      var j :| 0 <= j < |indices| && Sets(pool, k)[j] == s;
      var c := indices[j];
      SetIndicesExact(pool, k, c);
      PickSubMultiset(pool, c);
    }
  }

  /**
   * On a pool whose cards all have one width, `is_valid` never raises IndexError on a
   * combination, so `calc_sets` returns normally, and Sets is exactly what it returns.
   */
  lemma NoIndexErrorOnOneWidth(pool: seq<Card>, c: seq<nat>)
    requires SameWidth(pool) && IncreasingWithin(c, 0, |pool|)
    ensures !RaisesIndexError(Pick(pool, c))
  {
    var cards := Pick(pool, c);
    if |cards| > 0 {
      assert cards[0] == pool[c[0]];
      forall i | 0 <= i < |cards[0]| ensures Present(cards, i) {
        forall x | x in cards ensures i < |x| {
          var j :| 0 <= j < |cards| && cards[j] == x;
          assert pool[c[j]] in pool;
        }
      }
    }
  }

  /** With fewer open cards than the set size there is nothing to find. */
  lemma SetsTooFewCards(pool: seq<Card>, k: nat)
    requires |pool| < k
    ensures Sets(pool, k) == []
  {
  }

  /** With exactly as many open cards as a set has, `calc_sets` offers the whole pool iff it is a set. */
  lemma SetsWholePool(pool: seq<Card>)
    ensures Sets(pool, |pool|) == if ValidSet(pool) then [CardSet(pool)] else []
  {
    IndexCombinationsAll(0, |pool|);
    PickAll(pool);
    var ics := [Range(0, |pool|)];
    assert Sets(pool, |pool|) == SetsOf(pool, ics);
    assert ics[1..] == [] && SetsOf(pool, ics[1..]) == [];
  }

  /** The three-card pools of the source's unit tests for `calc_sets`. */
  lemma ThreeCardExamples()
    ensures Sets([[0], [1], [1]], 3) == []
    ensures Sets([[0], [1], [2]], 3) == [CardSet([[0], [1], [2]])]
  {
    SetsWholePool([[0], [1], [1]]);
    SetsWholePool([[0], [1], [2]]);
    OneFeatureExample([0], [1], [1]);
    OneFeatureExample([0], [1], [2]);
  }

  class BruteForcePlayer {
    /** The set size; a set always has as many cards as a feature has options. */
    const numOptionsPerFeature: nat
    /** The open cards, in the order they were shown. */
    var openCards: seq<Card>

    constructor (numOptionsPerFeature: nat)
      ensures this.numOptionsPerFeature == numOptionsPerFeature && openCards == []
    {
      this.numOptionsPerFeature := numOptionsPerFeature;
      openCards := [];
    }

    /** `show_cards`: append the cards to the pool, in order. */
    method ShowCards(cards: seq<Card>)
      modifies this
      ensures openCards == old(openCards) + cards
    {
      openCards := openCards + cards;
    }

    /**
     * `remove_cards`: remove each card at its first occurrence, in turn; report false
     * (the source's ValueError) at the first card that is not in the pool.
     */
    method RemoveCards(cards: seq<Card>) returns (ok: bool)
      modifies this
      ensures ok == Removal(old(openCards), cards).Removed?
      ensures openCards == Removal(old(openCards), cards).pool
    {
      var i := 0;
      while i < |cards|
        invariant 0 <= i <= |cards|
        invariant Removal(old(openCards), cards) == Removal(openCards, cards[i..])
      {
        var c := cards[i];
        assert cards[i..][0] == c && cards[i..][1..] == cards[i + 1..];
        if c !in openCards {
          assert Removal(openCards, cards[i..]) == NotFound(openCards, c);
          return false;
        }
        assert Removal(openCards, cards[i..]) == Removal(RemoveFirst(openCards, c), cards[i + 1..]);
        openCards := RemoveFirst(openCards, c);
        i := i + 1;
      }
      assert cards[i..] == [];
      return true;
    }

    /**
     * `calc_sets`: the valid combinations of the pool (see Sets); it reads the pool and
     * changes nothing. Every set offered has as many cards as a feature has options, is
     * valid, and is made of open cards.
     */
    function CalcSets(): (r: seq<CardSet>)
      reads this
      ensures forall s :: s in r ==>
        && |s.cards| == numOptionsPerFeature
        && ValidSet(s.cards)
        && multiset(s.cards) <= multiset(openCards)
    {
      SetsSound(openCards, numOptionsPerFeature);
      Sets(openCards, numOptionsPerFeature)
    }
  }
}
