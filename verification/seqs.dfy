/** Facts about sequences used by every other module: the set of elements of a
    list and the duplicate test both the server and the page apply to lists. */
module Seqs {

  /** The elements of `xs` as a set, as Python's `set(xs)` or JavaScript's `new Set(xs)`. */
  function Elems<T>(xs: seq<T>): set<T> {
    set x | x in xs
  }

  /** No element occurs twice in `xs`. */
  ghost predicate Distinct<T>(xs: seq<T>) {
    forall i, j :: 0 <= i < j < |xs| ==> xs[i] != xs[j]
  }

  /** A list has fewer distinct elements than entries exactly when some entry repeats. */
  lemma {:induction false} CardElems<T>(xs: seq<T>)
    ensures |Elems(xs)| <= |xs|
    ensures |Elems(xs)| == |xs| <==> Distinct(xs)
  {
    if xs != [] {
      var tail := xs[1..];
      CardElems(tail);
      assert Elems(xs) == {xs[0]} + Elems(tail);
      if xs[0] in tail {
        assert Elems(xs) == Elems(tail);
        var k :| 0 <= k < |tail| && tail[k] == xs[0];
        assert xs[0] == xs[k + 1];
      } else {
        assert |Elems(xs)| == |Elems(tail)| + 1;
        if Distinct(tail) {
          forall i, j | 0 <= i < j < |xs|
            ensures xs[i] != xs[j]
          {
            assert xs[j] == tail[j - 1];
            if i > 0 {
              assert xs[i] == tail[i - 1];
            }
          }
        } else {
          var i, j :| 0 <= i < j < |tail| && tail[i] == tail[j];
          assert xs[i + 1] == xs[j + 1];
        }
      }
    }
  }

  /** The duplicate test `len(xs) != len(set(xs))` (app.py) and
      `new Set(xs).size !== xs.length` (programa.js). */
  function HasDuplicates<T(==)>(xs: seq<T>): (r: bool)
    ensures r <==> !Distinct(xs)
  {
    CardElems(xs);
    |Elems(xs)| != |xs|
  }

  /** A subset of a finite set is no larger than it. */
  lemma SubsetCard<T>(a: set<T>, b: set<T>)
    requires a <= b
    ensures |a| <= |b|
  {
    assert b == a + (b - a);
  }

  /** A duplicate-free list drawn from `p` is no longer than `p`. */
  lemma DistinctBound<T>(xs: seq<T>, p: set<T>)
    requires Distinct(xs)
    requires Elems(xs) <= p
    ensures |xs| <= |p|
  {
    CardElems(xs);
    SubsetCard(Elems(xs), p);
  }

  /** Appending an element adds exactly that element to the set of elements,
      and keeps a duplicate-free list duplicate-free when it is new. */
  lemma ElemsSnoc<T>(xs: seq<T>, x: T)
    ensures Elems(xs + [x]) == Elems(xs) + {x}
    ensures Distinct(xs) && x !in xs ==> Distinct(xs + [x])
  {
  }

  /** Dropping the last element of a duplicate-free list removes exactly that
      element from its set of elements. */
  lemma ElemsDropLast<T>(xs: seq<T>)
    requires |xs| > 0
    requires Distinct(xs)
    ensures Distinct(xs[..|xs| - 1])
    ensures Elems(xs[..|xs| - 1]) == Elems(xs) - {xs[|xs| - 1]}
  {
    var init := xs[..|xs| - 1];
    assert xs == init + [xs[|xs| - 1]];
    forall y | y in init
      ensures y != xs[|xs| - 1]
    {
      var i :| 0 <= i < |init| && init[i] == y;
      assert xs[i] == y;
    }
  }

  /** Growing a prefix by one element adds that element to its set of elements. */
  lemma ElemsPrefix<T>(xs: seq<T>, i: nat)
    requires i < |xs|
    ensures Elems(xs[..i + 1]) == Elems(xs[..i]) + {xs[i]}
  {
    assert xs[..i + 1] == xs[..i] + [xs[i]];
  }

  /** The prefix of full length is the whole sequence. */
  lemma PrefixWhole<T>(xs: seq<T>)
    ensures xs[..|xs|] == xs
  {
  }
}
