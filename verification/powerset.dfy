/**
 Power-set enumeration of `linking/util.py`.

 `PowersetList` starts from the list holding only the empty subset and, for
 each input element in turn, appends a copy of every subset built so far
 extended by that element. `Powerset` forgets the order and the
 multiplicities by turning every subset and the whole list into sets.
 */
module Powerset {

  /** 2 to the power `n`. */
  function Pow2(n: nat): (r: nat)
    ensures r >= 1
  {
    if n == 0 then 1 else 2 * Pow2(n - 1)
  }

  /** The elements of `xs`, as a set. */
  function Elements<T>(xs: seq<T>): set<T> {
    set x | x in xs
  }

  /** No element occurs twice in `xs`. */
  predicate Distinct<T(==)>(xs: seq<T>) {
    forall i, j | 0 <= i < j < |xs| :: xs[i] != xs[j]
  }

  /** Every subset of `subsets`, extended by the element `x` (one doubling step's new half). */
  function Appended<T>(subsets: seq<seq<T>>, x: T): (r: seq<seq<T>>)
    ensures |r| == |subsets|
    ensures forall i | 0 <= i < |r| :: r[i] == subsets[i] + [x]
  {
    seq(|subsets|, i requires 0 <= i < |subsets| => subsets[i] + [x])
  }

  /** The list `PowersetList` holds after it has processed all of `xs`:
      the reference definition that the loop of `PowersetList` is proved against. */
  function Subsets<T>(xs: seq<T>): (r: seq<seq<T>>)
    ensures |r| == Pow2(|xs|)
    ensures r[0] == []
  {
    if xs == [] then [[]]
    else
      var earlier := Subsets(xs[..|xs| - 1]);
      earlier + Appended(earlier, xs[|xs| - 1])
  }

  /** `s` lists some of the elements of `xs`, in the order they occur in `xs`. */
  predicate IsSubsequence<T(==)>(s: seq<T>, xs: seq<T>)
    decreases |xs|
  {
    if s == [] then true
    else if xs == [] then false
    else
      (s[|s| - 1] == xs[|xs| - 1] && IsSubsequence(s[..|s| - 1], xs[..|xs| - 1]))
      || IsSubsequence(s, xs[..|xs| - 1])
  }

  /** The doubling loop of `PowersetList`. A null input behaves like the empty list. */
  method PowersetList<T>(xs: seq<T>) returns (result: seq<seq<T>>)
    ensures result == Subsets(xs)
    ensures |result| == Pow2(|xs|)
    ensures result[0] == []
  {
    result := [[]];
    var k := 0;
    while k < |xs|
      invariant 0 <= k <= |xs|
      invariant result == Subsets(xs[..k])
    {
      assert xs[..k + 1][..k] == xs[..k];
      result := result + Appended(result, xs[k]);
      k := k + 1;
    }
    assert xs[..k] == xs;
  }

  /** The empty or null input gives exactly the power set of the empty set. */
  lemma EmptyInputGivesEmptySubsetOnly<T>()
    ensures Subsets<T>([]) == [[]]
  {
  }

  /** Entry `k` after one more element: kept from before (first half), or an earlier entry
      extended by the new element (second half). */
  lemma SubsetsEntry<T>(xs: seq<T>, k: nat)
    requires xs != [] && k < Pow2(|xs|)
    ensures var h := Pow2(|xs| - 1);
      && (k < h ==> Subsets(xs)[k] == Subsets(xs[..|xs| - 1])[k])
      && (k >= h ==> Subsets(xs)[k] == Subsets(xs[..|xs| - 1])[k - h] + [xs[|xs| - 1]])
  {
    var earlier := Subsets(xs[..|xs| - 1]);
    var x := xs[|xs| - 1];
    if k >= |earlier| {
      SecondHalfEntry(earlier, x, k);
    } else {
      FirstHalfEntry(earlier, x, k);
    }
  }

  /** One doubling step keeps the entries built so far in front. */
  lemma FirstHalfEntry<T>(earlier: seq<seq<T>>, x: T, k: nat)
    requires k < |earlier|
    ensures (earlier + Appended(earlier, x))[k] == earlier[k]
  {
  }

  /** One doubling step appends each entry built so far, extended by the new element. */
  lemma SecondHalfEntry<T>(earlier: seq<seq<T>>, x: T, k: nat)
    requires |earlier| <= k < 2 * |earlier|
    ensures (earlier + Appended(earlier, x))[k] == earlier[k - |earlier|] + [x]
  {
  }

  /** The elements of a prefix are elements of the whole input, and so is its last element. */
  lemma ElementsOfInit<T>(xs: seq<T>)
    requires xs != []
    ensures Elements(xs[..|xs| - 1]) <= Elements(xs)
    ensures xs[|xs| - 1] in Elements(xs)
  {
    forall y | y in Elements(xs[..|xs| - 1])
      ensures y in Elements(xs)
    {
      var j :| 0 <= j < |xs| - 1 && xs[..|xs| - 1][j] == y;
      assert xs[j] == y;
    }
  }

  /** Extending a list by one element adds that element to its element set. */
  lemma ElementsOfAppend<T>(s: seq<T>, x: T)
    ensures Elements(s + [x]) == Elements(s) + {x}
  {
    assert forall y | y in s + [x] :: y in s || y == x;
  }

  /** Processing more elements keeps every earlier entry, in place, as a prefix. */
  lemma {:induction false} EarlierEntriesArePrefix<T>(xs: seq<T>, k: nat)
    requires k <= |xs|
    ensures Pow2(k) <= Pow2(|xs|)
    ensures Subsets(xs)[..Pow2(k)] == Subsets(xs[..k])
    decreases |xs|
  {
    if k == |xs| {
      assert xs[..k] == xs;
    } else {
      var init := xs[..|xs| - 1];
      EarlierEntriesArePrefix(init, k);
      assert init[..k] == xs[..k];
      forall m | 0 <= m < Pow2(k)
        ensures Subsets(xs)[m] == Subsets(init)[m]
      {
        SubsetsEntry(xs, m);
      }
    }
  }

  /** Every entry of the result lists its elements in input order: it is a subsequence of the input. */
  lemma {:induction false} EntriesAreSubsequences<T>(xs: seq<T>, i: nat)
    requires i < |Subsets(xs)|
    ensures IsSubsequence(Subsets(xs)[i], xs)
    decreases |xs|
  {
    var s := Subsets(xs)[i];
    if xs != [] && s != [] {
      var init := xs[..|xs| - 1];
      var h := Pow2(|init|);
      SubsetsEntry(xs, i);
      if i < h {
        EntriesAreSubsequences(init, i);
      } else {
        var t := Subsets(init)[i - h];
        EntriesAreSubsequences(init, i - h);
        assert s[..|s| - 1] == t;
      }
    }
  }

  /** Every subsequence of the input is produced, at some index. */
  lemma {:induction false} SubsequenceIndex<T>(xs: seq<T>, s: seq<T>) returns (k: nat)
    requires IsSubsequence(s, xs)
    ensures k < |Subsets(xs)| && Subsets(xs)[k] == s
    decreases |xs|
  {
    if s == [] {
      k := 0;
    } else {
      var init := xs[..|xs| - 1];
      var h := Pow2(|init|);
      if IsSubsequence(s, init) {
        k := SubsequenceIndex(init, s);
        SubsetsEntry(xs, k);
      } else {
        var i := SubsequenceIndex(init, s[..|s| - 1]);
        k := h + i;
        SubsetsEntry(xs, k);
        assert s == s[..|s| - 1] + [xs[|xs| - 1]];
      }
    }
  }

  /** The entries of the result are exactly the subsequences of the input. */
  lemma EntriesAreExactlySubsequences<T>(xs: seq<T>, s: seq<T>)
    ensures s in Subsets(xs) <==> IsSubsequence(s, xs)
  {
    if s in Subsets(xs) {
      var i :| 0 <= i < |Subsets(xs)| && Subsets(xs)[i] == s;
      EntriesAreSubsequences(xs, i);
    }
    if IsSubsequence(s, xs) {
      var k := SubsequenceIndex(xs, s);
    }
  }

  /** Each entry only uses elements of the input. */
  lemma {:induction false} EntriesWithinInput<T>(xs: seq<T>, i: nat)
    requires i < |Subsets(xs)|
    ensures Elements(Subsets(xs)[i]) <= Elements(xs)
    decreases |xs|
  {
    if xs != [] {
      var init := xs[..|xs| - 1];
      var h := Pow2(|init|);
      SubsetsEntry(xs, i);
      ElementsOfInit(xs);
      if i < h {
        EntriesWithinInput(init, i);
      } else {
        EntriesWithinInput(init, i - h);
        ElementsOfAppend(Subsets(init)[i - h], xs[|xs| - 1]);
      }
    }
  }

  /** For an input without repetitions, an entry of the first half (without the last element)
      and one of the second half (with it) have different elements. */
  lemma HalvesDiffer<T>(xs: seq<T>, i: nat, j: nat)
    requires Distinct(xs) && xs != []
    requires i < Pow2(|xs| - 1) <= j < Pow2(|xs|)
    ensures Elements(Subsets(xs)[i]) != Elements(Subsets(xs)[j])
  {
    var init := xs[..|xs| - 1];
    var x := xs[|xs| - 1];
    assert x !in Elements(init);
    SubsetsEntry(xs, i);
    SubsetsEntry(xs, j);
    EntriesWithinInput(init, i);
    ElementsOfAppend(Subsets(init)[j - Pow2(|init|)], x);
  }

  /** For an input without repetitions, two entries with the same elements are the same entry:
      the list has no duplicates, even when compared as sets. */
  lemma {:induction false} EntriesHaveDistinctElements<T>(xs: seq<T>, i: nat, j: nat)
    requires Distinct(xs)
    requires i < |Subsets(xs)| && j < |Subsets(xs)|
    requires Elements(Subsets(xs)[i]) == Elements(Subsets(xs)[j])
    ensures i == j
    decreases |xs|
  {
    if xs != [] {
      var init := xs[..|xs| - 1];
      var x := xs[|xs| - 1];
      var h := Pow2(|init|);
      assert Distinct(init);
      if i < h && j < h {
        SubsetsEntry(xs, i);
        SubsetsEntry(xs, j);
        EntriesHaveDistinctElements(init, i, j);
      } else if i >= h && j >= h {
        SubsetsEntry(xs, i);
        SubsetsEntry(xs, j);
        var a := Subsets(init)[i - h];
        var b := Subsets(init)[j - h];
        assert x !in Elements(init);
        EntriesWithinInput(init, i - h);
        EntriesWithinInput(init, j - h);
        ElementsOfAppend(a, x);
        ElementsOfAppend(b, x);
        assert Elements(a) == Elements(a + [x]) - {x};
        assert Elements(b) == Elements(b + [x]) - {x};
        EntriesHaveDistinctElements(init, i - h, j - h);
      } else if i < h {
        HalvesDiffer(xs, i, j);
        assert false;
      } else {
        HalvesDiffer(xs, j, i);
        assert false;
      }
    }
  }

  /** For an input without repetitions, `PowersetList` produces no duplicate subsets. */
  lemma NoDuplicateSubsets<T>(xs: seq<T>)
    requires Distinct(xs)
    ensures Distinct(Subsets(xs))
  {
    var r := Subsets(xs);
    forall i, j | 0 <= i < j < |r|
      ensures r[i] != r[j]
    {
      if r[i] == r[j] {
        EntriesHaveDistinctElements(xs, i, j);
      }
    }
  }

  /** The element sets of the entries of `q`: `frozenset(frozenset(e) for e in q)`. */
  function ElementSets<T>(q: seq<seq<T>>): (r: set<set<T>>)
    ensures forall i | 0 <= i < |q| :: Elements(q[i]) in r
    ensures forall S | S in r :: exists i | 0 <= i < |q| :: Elements(q[i]) == S
  {
    if q == [] then {}
    else ElementSets(q[..|q| - 1]) + {Elements(q[|q| - 1])}
  }

  /** The frozenset-of-frozensets view of `PowersetList`. */
  function Powerset<T>(xs: seq<T>): (r: set<set<T>>)
    ensures {} in r
  {
    assert Elements(Subsets(xs)[0]) == {};
    ElementSets(Subsets(xs))
  }

  /** Every member of `Powerset` is a subset of the input's elements. */
  lemma MembersAreSubsets<T>(xs: seq<T>, S: set<T>)
    requires S in Powerset(xs)
    ensures S <= Elements(xs)
  {
    var i :| 0 <= i < |Subsets(xs)| && Elements(Subsets(xs)[i]) == S;
    EntriesWithinInput(xs, i);
  }

  /** Removing the last input element from a subset of the input leaves a subset of the rest. */
  lemma WithoutLastElement<T>(xs: seq<T>, S: set<T>)
    requires xs != [] && S <= Elements(xs)
    ensures S - {xs[|xs| - 1]} <= Elements(xs[..|xs| - 1])
  {
    var init := xs[..|xs| - 1];
    forall y | y in S - {xs[|xs| - 1]}
      ensures y in Elements(init)
    {
      var j :| 0 <= j < |xs| && xs[j] == y;
      assert init[j] == y;
    }
  }

  /** Every subset of the input's elements is the element set of some entry. */
  lemma {:induction false} SubsetsAreEntrySets<T>(xs: seq<T>, S: set<T>) returns (k: nat)
    requires S <= Elements(xs)
    ensures k < |Subsets(xs)| && Elements(Subsets(xs)[k]) == S
    decreases |xs|
  {
    if xs == [] {
      assert S == {};
      k := 0;
    } else {
      var init := xs[..|xs| - 1];
      var x := xs[|xs| - 1];
      var rest := S - {x};
      WithoutLastElement(xs, S);
      var i := SubsetsAreEntrySets(init, rest);
      var e := Subsets(init)[i];
      if x in S {
        k := Pow2(|init|) + i;
        SubsetsEntry(xs, k);
        ElementsOfAppend(e, x);
      } else {
        k := i;
        SubsetsEntry(xs, k);
      }
    }
  }

  /** Every subset of the input's elements is a member of `Powerset`. */
  lemma SubsetsAreMembers<T>(xs: seq<T>, S: set<T>)
    requires S <= Elements(xs)
    ensures S in Powerset(xs)
  {
    var k := SubsetsAreEntrySets(xs, S);
  }

  /** The members of `Powerset` are exactly the subsets of the input's elements. */
  lemma PowersetMembers<T>(xs: seq<T>, S: set<T>)
    ensures S in Powerset(xs) <==> S <= Elements(xs)
  {
    if S in Powerset(xs) {
      MembersAreSubsets(xs, S);
    }
    if S <= Elements(xs) {
      SubsetsAreMembers(xs, S);
    }
  }

  /** A sequence whose entries have pairwise different element sets yields that many sets. */
  lemma {:induction false} CardinalityOfElementSets<T>(q: seq<seq<T>>)
    requires forall i, j | 0 <= i < |q| && 0 <= j < |q| :: Elements(q[i]) == Elements(q[j]) ==> i == j
    ensures |ElementSets(q)| == |q|
  {
    if q != [] {
      var init := q[..|q| - 1];
      CardinalityOfElementSets(init);
      assert Elements(q[|q| - 1]) !in ElementSets(init);
    }
  }

  /** For an input of `n` distinct elements, `Powerset` has exactly 2^n members. */
  lemma PowersetCardinality<T>(xs: seq<T>)
    requires Distinct(xs)
    ensures |Powerset(xs)| == Pow2(|xs|)
  {
    var q := Subsets(xs);
    forall i, j | 0 <= i < |q| && 0 <= j < |q| && Elements(q[i]) == Elements(q[j])
      ensures i == j
    {
      EntriesHaveDistinctElements(xs, i, j);
    }
    CardinalityOfElementSets(q);
  }

  /** Two elements give the four subsets in doubling order. */
  lemma TwoElementExample()
    ensures Subsets(['a', 'b']) == [[], ['a'], ['b'], ['a', 'b']]
  {
    assert ['a', 'b'][..1] == ['a'];
    assert ['a'][..0] == [];
    var none: seq<char> := [];
    assert none + ['a'] == ['a'];
    assert none + ['b'] == ['b'];
    assert ['a'] + ['b'] == ['a', 'b'];
    assert Appended([[]], 'a') == [['a']];
    assert Subsets(['a']) == [[], ['a']];
    assert Appended([[], ['a']], 'b') == [['b'], ['a', 'b']];
  }
}
