/**
 * The deck (`Deck` in core.py): the full Cartesian product of feature values,
 * in an order chosen by a shuffle, dealt from the front.
 */
module Decks {
  import opened Wrappers
  import opened Combinatorics
  import opened CardSets

  /** `base` raised to the power `exp`. */
  function Pow(base: nat, exp: nat): nat
  {
    if exp == 0 then 1 else base * Pow(base, exp - 1)
  }

  /** `c` is a card of the game: `features` values, each in [0, options). */
  predicate IsCard(c: Card, features: nat, options: nat)
  {
    |c| == features && forall i :: 0 <= i < |c| ==> 0 <= c[i] < options
  }

  /** No card occurs twice. */
  predicate NoDuplicates(s: seq<Card>)
  {
    forall i, j :: 0 <= i < j < |s| ==> s[i] != s[j]
  }

  /** The tails prefixed by v, then by v + 1, ..., up to options - 1. */
  function Extend(v: nat, options: nat, tails: seq<Card>): (r: seq<Card>)
    decreases options - v
  {
    if v >= options then [] else Prepend(v, tails) + Extend(v + 1, options, tails)
  }

  /** `itertools.product(range(options), repeat=features)`, as lists of values. */
  function Product(features: nat, options: nat): seq<Card>
  {
    if features == 0 then [[]] else Extend(0, options, Product(features - 1, options))
  }

  /** The deck order is a permutation of the product: the model of `random.shuffle`. */
  predicate IsShuffle(order: seq<Card>, features: nat, options: nat)
  {
    multiset(order) == multiset(Product(features, options))
  }

  /** Extend produces (options - v) copies of the tails, one per first value. */
  lemma {:induction false} ExtendLength(v: nat, options: nat, tails: seq<Card>)
    decreases options - v
    ensures |Extend(v, options, tails)| == if v <= options then (options - v) * |tails| else 0
  {
    if v < options {
      ExtendLength(v + 1, options, tails);
      assert |Prepend(v, tails)| == |tails|;
      assert (options - v) * |tails| == (options - (v + 1)) * |tails| + |tails|;
    }
  }

  /** Every card built by Extend starts with a value in [v, options) followed by one of the tails. */
  lemma {:induction false} ExtendMembers(v: nat, options: nat, tails: seq<Card>)
    decreases options - v
    ensures forall c :: c in Extend(v, options, tails) ==> |c| > 0 && v <= c[0] < options && c[1..] in tails
  {
    if v < options {
      var front := Prepend(v, tails);
      var rest := Extend(v + 1, options, tails);
      assert Extend(v, options, tails) == front + rest;
      forall c | c in front + rest ensures |c| > 0 && v <= c[0] < options && c[1..] in tails {
        if c in front {
          var m :| 0 <= m < |tails| && front[m] == c;
          assert c[1..] == tails[m];
        } else {
          ExtendMembers(v + 1, options, tails);
        }
      }
    }
  }

  /** The product has options^features cards. */
  lemma {:induction false} ProductSize(features: nat, options: nat)
    ensures |Product(features, options)| == Pow(options, features)
  {
    if features > 0 {
      ProductSize(features - 1, options);
      ExtendLength(0, options, Product(features - 1, options));
    }
  }

  /** Every card of the product is a card of the game. */
  lemma {:induction false} ProductCards(features: nat, options: nat)
    ensures forall c :: c in Product(features, options) ==> IsCard(c, features, options)
  {
    if features > 0 {
      var tails := Product(features - 1, options);
      forall c | c in Product(features, options) ensures IsCard(c, features, options) {
        ProductCards(features - 1, options);
        ExtendMembers(0, options, tails);
        assert c[1..] in tails;
        assert IsCard(c[1..], features - 1, options);
        forall i | 1 <= i < |c| ensures 0 <= c[i] < options {
          assert c[i] == c[1..][i - 1];
        }
      }
    }
  }

  /** Extend over distinct tails yields distinct cards. */
  lemma {:induction false} ExtendDistinct(v: nat, options: nat, tails: seq<Card>)
    requires NoDuplicates(tails)
    decreases options - v
    ensures NoDuplicates(Extend(v, options, tails))
  {
    if v < options {
      ExtendDistinct(v + 1, options, tails);
      ExtendMembers(v + 1, options, tails);
      var front := Prepend(v, tails);
      var rest := Extend(v + 1, options, tails);
      var r := front + rest;
      assert Extend(v, options, tails) == r;
      forall i, j | 0 <= i < j < |r| ensures r[i] != r[j] {
        if j < |front| {
          assert r[i][1..] == tails[i] && r[j][1..] == tails[j];
        } else if i < |front| {
          assert r[i][0] == v;
          assert r[j] in rest;
        } else {
          assert r[i] == rest[i - |front|] && r[j] == rest[j - |front|];
        }
      }
    }
  }

  /** The product holds no card twice. */
  lemma {:induction false} ProductDistinct(features: nat, options: nat)
    ensures NoDuplicates(Product(features, options))
  {
    if features > 0 {
      ProductDistinct(features - 1, options);
      ExtendDistinct(0, options, Product(features - 1, options));
    }
  }

  /** Extend reaches every first value in [v, options) combined with every tail. */
  lemma {:induction false} ExtendComplete(v: nat, options: nat, tails: seq<Card>, c: Card)
    requires |c| > 0 && v <= c[0] < options && c[1..] in tails
    decreases options - v
    ensures c in Extend(v, options, tails)
  {
    var front := Prepend(v, tails);
    assert Extend(v, options, tails) == front + Extend(v + 1, options, tails);
    if c[0] == v {
      var m :| 0 <= m < |tails| && tails[m] == c[1..];
      assert front[m] == c;
    } else {
      ExtendComplete(v + 1, options, tails, c);
    }
  }

  /** Every card of the game is in the product. */
  lemma {:induction false} ProductComplete(features: nat, options: nat, c: Card)
    requires IsCard(c, features, options)
    ensures c in Product(features, options)
  {
    if features > 0 {
      assert IsCard(c[1..], features - 1, options);
      ProductComplete(features - 1, options, c[1..]);
      ExtendComplete(0, options, Product(features - 1, options), c);
    }
  }

  /** A sequence has no duplicates iff every value occurs at most once in its multiset. */
  lemma {:induction false} NoDuplicatesMultiset(s: seq<Card>)
    ensures NoDuplicates(s) <==> forall x :: multiset(s)[x] <= 1
  {
    if s != [] {
      var t := s[1..];
      NoDuplicatesMultiset(t);
      assert s == [s[0]] + t;
      assert multiset(s) == multiset{s[0]} + multiset(t);
      if NoDuplicates(s) {
        assert NoDuplicates(t) by {
          forall i, j | 0 <= i < j < |t| ensures t[i] != t[j] {
            assert t[i] == s[i + 1] && t[j] == s[j + 1];
          }
        }
        assert s[0] !in t;
        assert multiset(t)[s[0]] == 0;
      }
      if forall x :: multiset(s)[x] <= 1 {
        assert forall x :: multiset(t)[x] <= 1 by {
          forall x ensures multiset(t)[x] <= 1 {
            assert multiset(s)[x] <= 1;
          }
        }
        assert multiset(s)[s[0]] <= 1;
        assert s[0] !in multiset(t);
        forall i, j | 0 <= i < j < |s| ensures s[i] != s[j] {
          if i == 0 {
            assert s[j] == t[j - 1];
            assert s[j] in multiset(t);
          } else {
            assert s[i] == t[i - 1] && s[j] == t[j - 1];
          }
        }
      }
    }
  }

  /**
   * What a freshly initialised deck holds: options^features cards, pairwise distinct,
   * each a card of the game, and every card of the game among them.
   */
  lemma DeckContents(order: seq<Card>, features: nat, options: nat)
    requires IsShuffle(order, features, options)
    ensures |order| == Pow(options, features)
    ensures NoDuplicates(order)
    ensures forall c :: c in order ==> IsCard(c, features, options)
    ensures forall c :: IsCard(c, features, options) ==> c in order
  {
    var product := Product(features, options);
    ProductSize(features, options);
    ProductCards(features, options);
    ProductDistinct(features, options);
    NoDuplicatesMultiset(product);
    NoDuplicatesMultiset(order);
    assert |order| == |multiset(order)| == |multiset(product)| == |product|;
    forall c ensures c in order <==> c in product {
      assert c in order <==> c in multiset(order);
      assert c in product <==> c in multiset(product);
    }
    forall c | IsCard(c, features, options) ensures c in order {
      ProductComplete(features, options, c);
    }
  }

  /** The card universe for two features with two options, sorted as in the source's tests. */
  lemma SmallProduct()
    ensures Product(2, 2) == [[0, 0], [0, 1], [1, 0], [1, 1]]
  {
    var empty: seq<Card> := [[]];
    assert [0] + empty[0] == [0] && [1] + empty[0] == [1];
    assert Prepend(0, empty) == [[0]];
    assert Prepend(1, empty) == [[1]];
    assert Extend(2, 2, empty) == [];
    assert Extend(1, 2, empty) == [[1]];
    assert Extend(0, 2, empty) == [[0], [1]];
    assert Product(1, 2) == [[0], [1]];
    var tails: seq<Card> := [[0], [1]];
    assert [0] + tails[0] == [0, 0] && [0] + tails[1] == [0, 1];
    assert [1] + tails[0] == [1, 0] && [1] + tails[1] == [1, 1];
    assert Prepend(0, tails) == [[0, 0], [0, 1]];
    assert Prepend(1, tails) == [[1, 0], [1, 1]];
    assert Extend(2, 2, tails) == [];
    assert Extend(1, 2, tails) == [[1, 0], [1, 1]];
    assert Extend(0, 2, tails) == [[0, 0], [0, 1], [1, 0], [1, 1]];
  }

  class Deck {
    const numFeatures: nat
    const numOptionsPerFeature: nat
    /** The undealt cards; the front card is dealt next. */
    var stack: seq<Card>

    /** `Deck.__init__`, which calls `initialize`; `shuffled` is the order `random.shuffle` chose. */
    constructor (numFeatures: nat, numOptionsPerFeature: nat, shuffled: seq<Card>)
      requires IsShuffle(shuffled, numFeatures, numOptionsPerFeature)
      ensures this.numFeatures == numFeatures && this.numOptionsPerFeature == numOptionsPerFeature
      ensures stack == shuffled
      ensures |stack| == Pow(numOptionsPerFeature, numFeatures) && NoDuplicates(stack)
      ensures forall c :: c in stack <==> IsCard(c, numFeatures, numOptionsPerFeature)
    {
      this.numFeatures := numFeatures;
      this.numOptionsPerFeature := numOptionsPerFeature;
      stack := shuffled;
      DeckContents(shuffled, numFeatures, numOptionsPerFeature);
    }

    /** Number of undealt cards (`__len__`). */
    function Length(): nat
      reads this
    {
      |stack|
    }

    /** `initialize`: replace the stack by a shuffled copy of the whole product. */
    method Initialize(shuffled: seq<Card>)
      requires IsShuffle(shuffled, numFeatures, numOptionsPerFeature)
      modifies this
      ensures stack == shuffled
      ensures Length() == Pow(numOptionsPerFeature, numFeatures) && NoDuplicates(stack)
      ensures forall c :: c in stack <==> IsCard(c, numFeatures, numOptionsPerFeature)
    {
      stack := shuffled;
      DeckContents(shuffled, numFeatures, numOptionsPerFeature);
    }

    /** `next_card`: pop the front card, or give None on an empty stack. */
    method NextCard() returns (card: Option<Card>)
      modifies this
      ensures old(stack) == [] ==> card == None && stack == old(stack)
      ensures old(stack) != [] ==> card == Some(old(stack)[0]) && stack == old(stack)[1..]
      ensures Length() == if old(stack) == [] then 0 else old(Length()) - 1
    {
      if stack == [] {
        return None;
      }
      card := Some(stack[0]);
      stack := stack[1..];
    }
  }
}
