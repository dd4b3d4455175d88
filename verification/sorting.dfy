/** Python's `sorted()` on a list of integers: the ascending rearrangement,
    duplicates kept. */
module Sorting {

  predicate Sorted(s: seq<int>)
  {
    forall i, j :: 0 <= i < j < |s| ==> s[i] <= s[j]
  }

  /** Inserts `x` into an ascending sequence before the first larger element. */
  function Insert(x: int, s: seq<int>): (r: seq<int>)
    requires Sorted(s)
    ensures Sorted(r)
    ensures multiset(r) == multiset(s) + multiset{x}
    ensures |r| == |s| + 1
    ensures r[0] == x || (|s| > 0 && r[0] == s[0])
  {
    if |s| == 0 || x <= s[0] then [x] + s
    else
      var rest := Insert(x, s[1..]);
      assert s == [s[0]] + s[1..];
      assert s[0] <= rest[0];
      [s[0]] + rest
  }

  /** Python's `sorted(s)` on integers. */
  function Sort(s: seq<int>): (r: seq<int>)
    ensures Sorted(r)
    ensures multiset(r) == multiset(s)
    ensures |r| == |s|
  {
    if |s| == 0 then []
    else
      assert s == s[..|s| - 1] + [s[|s| - 1]];
      Insert(s[|s| - 1], Sort(s[..|s| - 1]))
  }

  /** The first element of an ascending sequence is its least. */
  lemma FirstIsLeast(a: seq<int>, x: int)
    requires Sorted(a) && x in multiset(a)
    ensures a[0] <= x
  {
  }

  /** An ascending sequence is determined by its elements: there is exactly
      one sorted arrangement of a multiset, so any ascending permutation of
      `s` is `Sort(s)`. */
  lemma {:induction false} SortedUnique(a: seq<int>, b: seq<int>)
    requires Sorted(a) && Sorted(b)
    requires multiset(a) == multiset(b)
    ensures a == b
    decreases |a|
  {
    if |a| == 0 {
      assert |b| == |multiset(b)| == 0;
    } else {
      SameHead(a, b);
      var a', b' := Tail(a), Tail(b);
      SortedUnique(a', b');
    }
  }

  /** Two ascending arrangements of one multiset start with the same element. */
  lemma SameHead(a: seq<int>, b: seq<int>)
    requires Sorted(a) && Sorted(b)
    requires multiset(a) == multiset(b)
    requires |a| > 0
    ensures |b| > 0 && a[0] == b[0]
  {
    assert a[0] in multiset(b);
    FirstIsLeast(a, b[0]);
    FirstIsLeast(b, a[0]);
  }

  /** The tail of a non-empty ascending sequence: ascending, holding one
      copy fewer of the head. */
  function Tail(a: seq<int>): (t: seq<int>)
    requires Sorted(a) && |a| > 0
    ensures Sorted(t) && a == [a[0]] + t
    ensures multiset(t) == multiset(a) - multiset{a[0]}
  {
    assert a == [a[0]] + a[1..];
    a[1..]
  }

  /** Sorting is idempotent and ignores the input order. */
  lemma {:induction false} SortPermutationInvariant(a: seq<int>, b: seq<int>)
    requires multiset(a) == multiset(b)
    ensures Sort(a) == Sort(b)
    ensures Sort(Sort(a)) == Sort(a)
  {
    SortedUnique(Sort(a), Sort(b));
    SortedUnique(Sort(Sort(a)), Sort(a));
  }
}
