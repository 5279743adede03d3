/**
 * Cards and groups of cards (`Card` and `CardSet` in core.py), and the rule that
 * decides whether a group of cards is a "set".
 */
module CardSets {
  import opened Wrappers

  /** A card is the tuple of its feature values. */
  type Card = seq<int>

  /** An ordered group of cards; datatype equality is the source's order-sensitive `__eq__`. */
  datatype CardSet = CardSet(cards: seq<Card>)

  /** All cards have the same number of features, as all cards of one deck do. */
  predicate SameWidth(cards: seq<Card>)
  {
    forall c :: c in cards ==> |c| == |cards[0]|
  }

  /** Every card has a feature `i`. */
  predicate Present(cards: seq<Card>, i: nat)
  {
    forall c :: c in cards ==> i < |c|
  }

  /** The values of feature `i` across the cards, in card order. */
  function Column(cards: seq<Card>, i: nat): seq<int>
    requires Present(cards, i)
  {
    seq(|cards|, j requires 0 <= j < |cards| => cards[j][i])
  }

  /** The distinct values of a sequence. */
  function Distinct(s: seq<int>): set<int>
  {
    set x | x in s
  }

  /** Feature `i` takes either one value or as many distinct values as there are cards. */
  predicate FeatureOk(cards: seq<Card>, i: nat)
    requires Present(cards, i)
  {
    var count := |Distinct(Column(cards, i))|;
    count == 1 || count == |cards|
  }

  /** No card has fewer features than the first one, so every feature `is_valid` inspects exists on every card. */
  predicate FirstIsShortest(cards: seq<Card>)
  {
    forall c :: c in cards ==> |cards[0]| <= |c|
  }

  /**
   * The validity rule of `CardSet.is_valid`: non-empty, and every feature of the first
   * card is ok. A group in which some card is shorter than the first is not a set (the
   * source either rejects it at an earlier feature or fails on it with an IndexError).
   */
  predicate ValidSet(cards: seq<Card>)
  {
    && |cards| > 0
    && FirstIsShortest(cards)
    && forall i :: 0 <= i < |cards[0]| ==> FeatureOk(cards, i)
  }

  /** Features 0 .. i - 1 are present on every card and each of them is ok. */
  predicate PassesBefore(cards: seq<Card>, i: nat)
  {
    forall j :: 0 <= j < i ==> Present(cards, j) && FeatureOk(cards, j)
  }

  /**
   * `is_valid` fails with an IndexError: it reaches a feature of the first card, having
   * accepted all earlier ones, that some card of the group does not have.
   */
  predicate RaisesIndexError(cards: seq<Card>)
  {
    && |cards| > 0
    && exists i :: 0 <= i < |cards[0]| && PassesBefore(cards, i) && !Present(cards, i)
  }

  /** All values equal the first one. */
  predicate AllSame(s: seq<int>)
  {
    forall j :: 0 <= j < |s| ==> s[j] == s[0]
  }

  /** The values are pairwise different. */
  predicate AllDifferent(s: seq<int>)
  {
    forall j, l :: 0 <= j < l < |s| ==> s[j] != s[l]
  }

  /**
   * `CardSet.is_valid`: reject the empty group, then check the features one by one
   * and return false at the first one whose distinct-value count is neither 1 nor
   * the number of cards. None is the IndexError raised at a feature some card lacks.
   */
  method IsValid(cs: CardSet) returns (r: Option<bool>)
    ensures r == None <==> RaisesIndexError(cs.cards)
    ensures r.Some? ==> r.value == ValidSet(cs.cards)
  {
    var cards := cs.cards;
    if |cards| == 0 {
      return Some(false);
    }
    var i := 0;
    while i < |cards[0]|
      invariant 0 <= i <= |cards[0]|
      invariant PassesBefore(cards, i)
    {
      if !Present(cards, i) {
        assert RaisesIndexError(cards);
        return None;
      }
      var count := |Distinct(Column(cards, i))|;
      if count != 1 && count != |cards| {
        NoErrorPast(cards, i);
        return Some(false);
      }
      i := i + 1;
    }
    NoErrorPast(cards, i);
    assert FirstIsShortest(cards) by {
      if i > 0 {
        assert Present(cards, i - 1);
      }
    }
    return Some(true);
  }

  /**
   * Once feature i is present on every card and either fails or is past the last feature,
   * no IndexError can occur: earlier features are present, later ones are not reached.
   */
  lemma NoErrorPast(cards: seq<Card>, i: nat)
    requires |cards| > 0 && i <= |cards[0]| && PassesBefore(cards, i)
    requires i < |cards[0]| ==> Present(cards, i) && !FeatureOk(cards, i)
    ensures !RaisesIndexError(cards)
  {
    forall i' | 0 <= i' < |cards[0]| && PassesBefore(cards, i')
      ensures Present(cards, i')
    {
      if i' > i {
        assert false;
      }
    }
  }

  /** A sequence has at most as many distinct values as elements, and exactly as many iff they are pairwise different. */
  lemma {:induction false} DistinctCount(s: seq<int>)
    ensures |Distinct(s)| <= |s|
    ensures |Distinct(s)| == |s| <==> AllDifferent(s)
  {
    if s != [] {
      var init := s[..|s| - 1];
      var x := s[|s| - 1];
      DistinctCount(init);
      assert s == init + [x];
      assert Distinct(s) == Distinct(init) + {x};
      if x in init {
        var m :| 0 <= m < |init| && init[m] == x;
        assert s[m] == s[|s| - 1];
        assert Distinct(s) == Distinct(init);
      } else {
        assert x !in Distinct(init);
        if AllDifferent(init) {
          forall j, l | 0 <= j < l < |s| ensures s[j] != s[l] {
            if l == |s| - 1 {
              assert s[j] == init[j];
            } else {
              assert s[j] == init[j] && s[l] == init[l];
            }
          }
        } else {
          var j, l :| 0 <= j < l < |init| && init[j] == init[l];
          assert s[j] == s[l];
        }
      }
    }
  }

  /** A sequence has exactly one distinct value iff it is non-empty and all its values are the same. */
  lemma DistinctOne(s: seq<int>)
    ensures |Distinct(s)| == 1 <==> |s| > 0 && AllSame(s)
  {
    if |s| > 0 && AllSame(s) {
      assert Distinct(s) == {s[0]};
    }
    if |Distinct(s)| == 1 {
      assert |s| > 0 by {
        DistinctCount(s);
      }
      assert s[0] in Distinct(s);
      forall j | 0 <= j < |s| ensures s[j] == s[0] {
        assert s[j] in Distinct(s);
        if s[j] != s[0] {
          assert {s[0], s[j]} <= Distinct(s);
          assert |{s[0], s[j]}| == 2;
          SubsetCard({s[0], s[j]}, Distinct(s));
        }
      }
    }
  }

  /** A subset is no larger than its superset. */
  lemma SubsetCard(a: set<int>, b: set<int>)
    requires a <= b
    ensures |a| <= |b|
  {
    assert b == a + (b - a);
  }

  /**
   * The rule restated: a group is a set iff it is non-empty, no card is shorter than the
   * first, and on every feature its cards are all the same or all different.
   */
  lemma ValidSetCharacterization(cards: seq<Card>)
    ensures ValidSet(cards) <==>
      && |cards| > 0
      && FirstIsShortest(cards)
      && forall i :: 0 <= i < |cards[0]| ==> AllSame(Column(cards, i)) || AllDifferent(Column(cards, i))
  {
    if |cards| > 0 && FirstIsShortest(cards) {
      forall i | 0 <= i < |cards[0]|
        ensures FeatureOk(cards, i) <==> AllSame(Column(cards, i)) || AllDifferent(Column(cards, i))
      {
        DistinctCount(Column(cards, i));
        DistinctOne(Column(cards, i));
      }
    }
  }

  /** Validity does not depend on the order of the cards (while `CardSet` equality does). */
  lemma ValidSetPermutation(a: seq<Card>, b: seq<Card>)
    requires SameWidth(a) && multiset(a) == multiset(b)
    ensures SameWidth(b) && ValidSet(a) == ValidSet(b)
  {
    assert forall c :: c in a <==> c in b by {
      forall c ensures c in a <==> c in b {
        assert c in a <==> c in multiset(a);
        assert c in b <==> c in multiset(b);
      }
    }
    assert |a| == |multiset(a)| == |multiset(b)| == |b|;
    if |a| > 0 {
      assert a[0] in b && b[0] in a;
      assert |a[0]| == |b[0]|;
      forall i | 0 <= i < |a[0]| ensures FeatureOk(a, i) == FeatureOk(b, i) {
        assert Distinct(Column(a, i)) == Distinct(Column(b, i)) by {
          forall x ensures x in Distinct(Column(a, i)) ==> x in Distinct(Column(b, i)) {
            if x in Distinct(Column(a, i)) {
              var j :| 0 <= j < |a| && Column(a, i)[j] == x;
              assert a[j] in a;
              var l :| 0 <= l < |b| && b[l] == a[j];
              assert Column(b, i)[l] == x;
            }
          }
          forall x ensures x in Distinct(Column(b, i)) ==> x in Distinct(Column(a, i)) {
            if x in Distinct(Column(b, i)) {
              var j :| 0 <= j < |b| && Column(b, i)[j] == x;
              assert b[j] in b;
              var l :| 0 <= l < |a| && a[l] == b[j];
              assert Column(a, i)[l] == x;
            }
          }
        }
      }
    }
  }

  /** Equality of `CardSet`s is order-sensitive: two different cards in swapped order give unequal groups. */
  lemma CardSetEqualityIsOrdered(x: Card, y: Card)
    requires x != y
    ensures CardSet([x, y]) != CardSet([y, x])
    ensures |x| == |y| ==> ValidSet([x, y]) == ValidSet([y, x])
  {
    if |x| == |y| {
      assert multiset([x, y]) == multiset([y, x]);
      ValidSetPermutation([x, y], [y, x]);
    }
  }

  /** The groups of the source's unit tests for `is_valid`, with the verdicts they expect. */
  lemma ValidSetExamples()
    ensures !ValidSet([])
    ensures ValidSet([[1], [1], [1]])
    ensures ValidSet([[1], [2], [3]])
    ensures !ValidSet([[1], [2], [2]])
    ensures ValidSet([[1, 1], [2, 1], [3, 1]])
  {
    OneFeatureExample([1], [1], [1]);
    OneFeatureExample([1], [2], [3]);
    OneFeatureExample([1], [2], [2]);
    var g := [[1, 1], [2, 1], [3, 1]];
    ValidSetCharacterization(g);
    assert Column(g, 0) == [1, 2, 3];
    assert Column(g, 1) == [1, 1, 1];
  }

  /** A group of three one-feature cards is a set iff their values are all equal or all different. */
  lemma OneFeatureExample(x: Card, y: Card, z: Card)
    requires |x| == |y| == |z| == 1
    ensures ValidSet([x, y, z]) <==> (x == y == z) || (x != y && y != z && x != z)
  {
    var g := [x, y, z];
    ValidSetCharacterization(g);
    var col := [x[0], y[0], z[0]];
    assert Column(g, 0) == col;
    assert x == [x[0]] && y == [y[0]] && z == [z[0]];
    assert AllSame(col) <==> x[0] == y[0] == z[0] by {
      if x[0] != y[0] {
        assert col[1] != col[0];
      } else if x[0] != z[0] {
        assert col[2] != col[0];
      }
    }
    assert AllDifferent(col) <==> x[0] != y[0] && y[0] != z[0] && x[0] != z[0] by {
      if x[0] == y[0] {
        assert col[0] == col[1];
      } else if y[0] == z[0] {
        assert col[1] == col[2];
      } else if x[0] == z[0] {
        assert col[0] == col[2];
      }
    }
  }
}
