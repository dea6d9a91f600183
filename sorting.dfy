/**
 * Python's `sorted` on a list of genes, as a pure insertion sort, and the fact
 * that makes the decode stable: a sorted sequence is determined by its multiset.
 */
module Sorting {
  import opened Fuzzy

  /** Inserts `x` into an ascending sequence, keeping it ascending. */
  function Insert(x: real, s: seq<real>): (r: seq<real>)
    requires NonDecreasing(s)
    ensures |r| == |s| + 1 && NonDecreasing(r)
    ensures r[0] == if s == [] || x <= s[0] then x else s[0]
    ensures multiset(r) == multiset(s) + multiset{x}
  {
    if s == [] || x <= s[0] then [x] + s
    else
      var rest := Insert(x, s[1..]);
      assert s == [s[0]] + s[1..];
      ConsNonDecreasing(s[0], rest);
      assert multiset([s[0]] + rest) == multiset{s[0]} + multiset(rest);
      [s[0]] + rest
  }

  lemma ConsNonDecreasing(h: real, t: seq<real>)
    requires NonDecreasing(t) && (t == [] || h <= t[0])
    ensures NonDecreasing([h] + t)
  {
    var r := [h] + t;
    forall i, j | 0 <= i <= j < |r| ensures r[i] <= r[j] {
      if 0 < i {
        assert r[i] == t[i - 1] && r[j] == t[j - 1];
      } else if 0 < j {
        assert t[0] <= t[j - 1];
      }
    }
  }

  /** `sorted(s)`: an ascending rearrangement of `s`. */
  function Sort(s: seq<real>): (r: seq<real>)
    ensures |r| == |s| && NonDecreasing(r)
    ensures multiset(r) == multiset(s)
  {
    if s == [] then []
    else
      assert s == [s[0]] + s[1..];
      Insert(s[0], Sort(s[1..]))
  }

  /** The head of an ascending sequence is below each of its elements. */
  lemma HeadIsLeast(s: seq<real>, x: real)
    requires NonDecreasing(s) && x in multiset(s)
    ensures s != [] && s[0] <= x
  {
    var i :| 0 <= i < |s| && s[i] == x;
  }

  lemma TailNonDecreasing(s: seq<real>)
    requires NonDecreasing(s) && s != []
    ensures NonDecreasing(s[1..])
  {
    forall i, j | 0 <= i <= j < |s| - 1 ensures s[1..][i] <= s[1..][j] {
      assert s[1..][i] == s[i + 1] && s[1..][j] == s[j + 1];
    }
  }

  /** Two ascending sequences with the same elements are the same sequence. */
  lemma {:induction false} SortedUnique(a: seq<real>, b: seq<real>)
    requires NonDecreasing(a) && NonDecreasing(b)
    requires multiset(a) == multiset(b)
    ensures a == b
  {
    if a != [] {
      assert a[0] in multiset(a);
      HeadIsLeast(b, a[0]);
      assert b[0] in multiset(b);
      HeadIsLeast(a, b[0]);
      assert a[0] == b[0];
      assert a == [a[0]] + a[1..] && b == [b[0]] + b[1..];
      assert multiset(a[1..]) == multiset(a) - multiset{a[0]};
      assert multiset(b[1..]) == multiset(b) - multiset{b[0]};
      TailNonDecreasing(a);
      TailNonDecreasing(b);
      SortedUnique(a[1..], b[1..]);
    } else {
      assert |multiset(b)| == 0;
    }
  }

  /** Sorting only depends on which elements there are, not on their order. */
  lemma SortPermutationInvariant(s: seq<real>, t: seq<real>)
    requires multiset(s) == multiset(t)
    ensures Sort(s) == Sort(t)
  {
    SortedUnique(Sort(s), Sort(t));
  }

  /** Sorting an ascending sequence leaves it unchanged; in particular sorting is idempotent. */
  lemma SortSorted(s: seq<real>)
    requires NonDecreasing(s)
    ensures Sort(s) == s
  {
    SortedUnique(Sort(s), s);
  }
}
