/**
 * The enumeration order of `itertools.combinations`: the size-k combinations of a
 * sequence are the strictly increasing index tuples of length k, listed in
 * lexicographic order, each mapped to the elements at those indices.
 */
module Combinatorics {

  /** Puts `x` in front of every sequence in `tails`. */
  function Prepend<T>(x: T, tails: seq<seq<T>>): seq<seq<T>>
  {
    seq(|tails|, i requires 0 <= i < |tails| => [x] + tails[i])
  }

  /** Prepending to a member of `tails` gives a member of the result. */
  lemma PrependMember<T>(x: T, tails: seq<seq<T>>, t: seq<T>)
    requires t in tails
    ensures [x] + t in Prepend(x, tails)
  {
    var m :| 0 <= m < |tails| && tails[m] == t;
    assert Prepend(x, tails)[m] == [x] + t;
  }

  /** `c` is a strictly increasing tuple of indices, each in [lo, n). */
  predicate IncreasingWithin(c: seq<nat>, lo: nat, n: nat)
  {
    && (forall i :: 0 <= i < |c| ==> lo <= c[i] < n)
    && (forall i, j :: 0 <= i < j < |c| ==> c[i] < c[j])
  }

  /**
   * All strictly increasing k-tuples over [lo, n), those starting with `lo` first:
   * the index order in which `itertools.combinations` emits its tuples.
   */
  function IndexCombinations(lo: nat, n: nat, k: nat): (r: seq<seq<nat>>)
    decreases n - lo
    ensures k > 0 && lo + k > n ==> r == []
  {
    if k == 0 then [[]]
    else if lo >= n then []
    else Prepend(lo, IndexCombinations(lo + 1, n, k - 1)) + IndexCombinations(lo + 1, n, k)
  }

  /** Every enumerated tuple is a strictly increasing k-tuple over [lo, n). */
  lemma {:induction false} IndexCombinationsShape(lo: nat, n: nat, k: nat)
    decreases n - lo
    ensures forall c :: c in IndexCombinations(lo, n, k) ==> |c| == k && IncreasingWithin(c, lo, n)
  {
    if k > 0 && lo < n {
      var withLo := IndexCombinations(lo + 1, n, k - 1);
      var withoutLo := IndexCombinations(lo + 1, n, k);
      var front := Prepend(lo, withLo);
      assert IndexCombinations(lo, n, k) == front + withoutLo;
      forall c | c in front + withoutLo ensures |c| == k && IncreasingWithin(c, lo, n) {
        if c in front {
          var m :| 0 <= m < |withLo| && front[m] == c;
          IndexCombinationsShape(lo + 1, n, k - 1);
          assert withLo[m] in withLo;
          ConsIncreasing(lo, withLo[m], n);
        } else {
          IndexCombinationsShape(lo + 1, n, k);
        }
      }
    }
  }

  /** Putting `lo` in front of an increasing tuple over [lo + 1, n) gives one over [lo, n). */
  lemma ConsIncreasing(lo: nat, t: seq<nat>, n: nat)
    requires IncreasingWithin(t, lo + 1, n) && lo < n
    ensures IncreasingWithin([lo] + t, lo, n)
  {
    var c := [lo] + t;
    forall i, j | 0 <= i < j < |c| ensures c[i] < c[j] {
      if i > 0 {
        assert c[i] == t[i - 1] && c[j] == t[j - 1];
      }
    }
  }

  /** Pascal's rule: the number of k-element subsets of an n-element set. */
  function Binomial(n: nat, k: nat): nat
  {
    if k == 0 then 1
    else if n == 0 then 0
    else Binomial(n - 1, k - 1) + Binomial(n - 1, k)
  }

  /** Strict lexicographic order, as Python compares tuples of equal length. */
  predicate LexLess(a: seq<nat>, b: seq<nat>)
    decreases |a|
  {
    && |a| > 0 && |b| > 0
    && (a[0] < b[0] || (a[0] == b[0] && LexLess(a[1..], b[1..])))
  }

  /** Every earlier element is lexicographically smaller than every later one. */
  predicate StrictlySorted(r: seq<seq<nat>>)
  {
    forall i, j :: 0 <= i < j < |r| ==> LexLess(r[i], r[j])
  }

  /** The elements of `s` at the indices `idx`, in the order of `idx`. */
  function Pick<T>(s: seq<T>, idx: seq<nat>): seq<T>
    requires forall i :: 0 <= i < |idx| ==> idx[i] < |s|
  {
    seq(|idx|, i requires 0 <= i < |idx| => s[idx[i]])
  }

  /** There are exactly C(n - lo, k) index combinations. */
  lemma {:induction false} IndexCombinationsCount(lo: nat, n: nat, k: nat)
    requires lo <= n
    decreases n - lo
    ensures |IndexCombinations(lo, n, k)| == Binomial(n - lo, k)
  {
    if k > 0 && lo < n {
      var withLo := IndexCombinations(lo + 1, n, k - 1);
      var withoutLo := IndexCombinations(lo + 1, n, k);
      IndexCombinationsCount(lo + 1, n, k - 1);
      IndexCombinationsCount(lo + 1, n, k);
      assert IndexCombinations(lo, n, k) == Prepend(lo, withLo) + withoutLo;
      assert |Prepend(lo, withLo)| == |withLo|;
    }
  }

  /** Every strictly increasing k-tuple over [lo, n) is enumerated. */
  lemma {:induction false} IndexCombinationsComplete(lo: nat, n: nat, k: nat, c: seq<nat>)
    requires |c| == k && IncreasingWithin(c, lo, n)
    decreases n - lo
    ensures c in IndexCombinations(lo, n, k)
  {
    if k == 0 {
      assert c == [];
    } else {
      assert lo <= c[0] < n;
      var withLo := IndexCombinations(lo + 1, n, k - 1);
      var withoutLo := IndexCombinations(lo + 1, n, k);
      if c[0] == lo {
        TailIncreasing(c, lo, n);
        IndexCombinationsComplete(lo + 1, n, k - 1, c[1..]);
        PrependMember(lo, withLo, c[1..]);
        assert [lo] + c[1..] == c;
      } else {
        RaiseLower(c, lo, n);
        IndexCombinationsComplete(lo + 1, n, k, c);
        assert c in withoutLo;
      }
    }
  }

  /** The tail of an increasing tuple lies above its head. */
  lemma TailIncreasing(c: seq<nat>, lo: nat, n: nat)
    requires |c| > 0 && IncreasingWithin(c, lo, n)
    ensures IncreasingWithin(c[1..], c[0] + 1, n)
  {
    var t := c[1..];
    forall i | 0 <= i < |t| ensures c[0] + 1 <= t[i] < n {
      assert t[i] == c[i + 1];
    }
    forall i, j | 0 <= i < j < |t| ensures t[i] < t[j] {
      assert t[i] == c[i + 1] && t[j] == c[j + 1];
    }
  }

  /** An increasing tuple whose head is above `lo` lies within [lo + 1, n). */
  lemma RaiseLower(c: seq<nat>, lo: nat, n: nat)
    requires |c| > 0 && IncreasingWithin(c, lo, n) && c[0] > lo
    ensures IncreasingWithin(c, lo + 1, n)
  {
    forall i | 0 < i < |c| ensures lo + 1 <= c[i] {
      assert c[0] < c[i];
    }
  }

  /** The enumeration is in strictly increasing lexicographic order, hence without repeats. */
  lemma {:induction false} IndexCombinationsSorted(lo: nat, n: nat, k: nat)
    decreases n - lo
    ensures StrictlySorted(IndexCombinations(lo, n, k))
  {
    if k > 0 && lo < n {
      var withLo := IndexCombinations(lo + 1, n, k - 1);
      var withoutLo := IndexCombinations(lo + 1, n, k);
      IndexCombinationsSorted(lo + 1, n, k - 1);
      IndexCombinationsSorted(lo + 1, n, k);
      var front := Prepend(lo, withLo);
      var r := front + withoutLo;
      forall i, j | 0 <= i < j < |r| ensures LexLess(r[i], r[j]) {
        if j < |front| {
          assert r[i] == [lo] + withLo[i] && r[j] == [lo] + withLo[j];
          assert r[i][1..] == withLo[i] && r[j][1..] == withLo[j];
        } else if i < |front| {
          assert r[i] == [lo] + withLo[i];
          assert r[j] in withoutLo;
          IndexCombinationsShape(lo + 1, n, k);
        } else {
          assert r[i] == withoutLo[i - |front|] && r[j] == withoutLo[j - |front|];
        }
      }
    }
  }

  /** The indices lo, lo + 1, ..., n - 1. */
  function Range(lo: nat, n: nat): (r: seq<nat>)
    requires lo <= n
    ensures |r| == n - lo
    ensures forall i :: 0 <= i < |r| ==> r[i] == lo + i
  {
    seq(n - lo, i requires 0 <= i < n - lo => lo + i)
  }

  /** Choosing as many indices as there are in [lo, n) has one outcome: all of them. */
  lemma {:induction false} IndexCombinationsAll(lo: nat, n: nat)
    requires lo <= n
    decreases n - lo
    ensures IndexCombinations(lo, n, n - lo) == [Range(lo, n)]
  {
    if lo < n {
      IndexCombinationsAll(lo + 1, n);
      assert [lo] + Range(lo + 1, n) == Range(lo, n);
      assert Prepend(lo, [Range(lo + 1, n)]) == [Range(lo, n)];
    }
  }

  /** Picking every index in order gives back the sequence. */
  lemma PickAll<T>(s: seq<T>)
    ensures Pick(s, Range(0, |s|)) == s
  {
  }

  /** The elements picked by a strictly increasing index tuple form a sub-multiset of `s`. */
  lemma {:induction false} PickSubMultiset<T>(s: seq<T>, idx: seq<nat>)
    requires IncreasingWithin(idx, 0, |s|)
    decreases |idx|
    ensures multiset(Pick(s, idx)) <= multiset(s)
  {
    if idx != [] {
      var last := idx[|idx| - 1];
      var init := idx[..|idx| - 1];
      var prefix := s[..last];
      assert IncreasingWithin(init, 0, |prefix|);
      PickSubMultiset(prefix, init);
      assert Pick(s, idx) == Pick(prefix, init) + [s[last]];
      assert s == prefix + [s[last]] + s[last + 1..];
    }
  }
}
