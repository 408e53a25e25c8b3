/** Ascending sort of post timestamps and the newest of them: the
    `sorted(...)` call and `dates[-1]` of `execute`. */
module Sorting {

  predicate IsSorted(s: seq<int>) {
    forall i, j :: 0 <= i < j < |s| ==> s[i] <= s[j]
  }

  /** Places `x` before the first element of `s` that is not smaller. */
  function Insert(x: int, s: seq<int>): seq<int> {
    if s == [] then [x]
    else if x <= s[0] then [x] + s
    else [s[0]] + Insert(x, s[1..])
  }

  lemma {:induction false} InsertPermutes(x: int, s: seq<int>)
    ensures multiset(Insert(x, s)) == multiset(s) + multiset{x}
    ensures |Insert(x, s)| == |s| + 1
  {
    if s != [] && x > s[0] {
      InsertPermutes(x, s[1..]);
      assert s == [s[0]] + s[1..];
    }
  }

  predicate AllAtLeast(s: seq<int>, b: int) {
    forall i :: 0 <= i < |s| ==> b <= s[i]
  }

  lemma {:induction false} InsertAtLeast(x: int, s: seq<int>, b: int)
    requires AllAtLeast(s, b) && b <= x
    ensures AllAtLeast(Insert(x, s), b)
  {
    if s != [] && x > s[0] {
      InsertAtLeast(x, s[1..], b);
    }
  }

  lemma ConsSorted(h: int, rest: seq<int>)
    requires IsSorted(rest) && AllAtLeast(rest, h)
    ensures IsSorted([h] + rest)
  {
  }

  /** Inserting into a sorted sequence keeps it sorted. */
  lemma {:induction false} InsertSorted(x: int, s: seq<int>)
    requires IsSorted(s)
    ensures IsSorted(Insert(x, s))
  {
    if s != [] && x > s[0] {
      InsertSorted(x, s[1..]);
      InsertAtLeast(x, s[1..], s[0]);
      ConsSorted(s[0], Insert(x, s[1..]));
    }
  }

  /** The ascending arrangement of `s`, as Python's `sorted` returns it. */
  function Sorted(s: seq<int>): (r: seq<int>)
    ensures IsSorted(r)
    ensures multiset(r) == multiset(s)
    ensures |r| == |s|
  {
    if s == [] then []
    else
      var rest := Sorted(s[1..]);
      var r := Insert(s[0], rest);
      assert IsSorted(r) by { InsertSorted(s[0], rest); }
      assert multiset(r) == multiset(s) && |r| == |s| by {
        InsertPermutes(s[0], rest);
        assert s == [s[0]] + s[1..];
      }
      r
  }

  /** The largest element, defined independently of sorting: one of the
      elements, and none is larger. */
  function Max(s: seq<int>): (m: int)
    requires |s| > 0
    ensures m in s
    ensures forall x :: x in s ==> x <= m
  {
    if |s| == 1 then s[0]
    else
      var m := Max(s[1..]);
      assert s == [s[0]] + s[1..];
      if s[0] >= m then s[0] else m
  }

  /** The last element of any ascending permutation is the maximum. */
  lemma LastOfPermutationIsMax(s: seq<int>, r: seq<int>)
    requires |s| > 0 && IsSorted(r) && multiset(r) == multiset(s)
    ensures |r| == |s| && r[|r| - 1] == Max(s)
  {
    assert |r| == |multiset(r)| == |multiset(s)| == |s|;
    var last := r[|r| - 1];
    assert last in multiset(r);
    assert last in s;
    assert Max(s) in multiset(s);
    assert Max(s) in r;
    var j :| 0 <= j < |r| && r[j] == Max(s);
    assert j == |r| - 1 || r[j] <= last;
  }

  /** The last element after sorting is the maximum: `dates[-1]` is the
      newest timestamp. */
  lemma LastOfSortedIsMax(s: seq<int>)
    requires |s| > 0
    ensures Sorted(s)[|s| - 1] == Max(s)
  {
    LastOfPermutationIsMax(s, Sorted(s));
  }

  /** Every timestamp is older than `cutoff` exactly when there is none
      or the newest one is. */
  lemma AllOlderIffMaxOlder(s: seq<int>, cutoff: int)
    ensures (forall t :: t in s ==> t < cutoff) <==> (s == [] || Max(s) < cutoff)
  {
  }
}
