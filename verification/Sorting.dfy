/**
 Sequences up to an order given by a comparator, for the list sort of
 hw1/LinkedList.c.
 */
module Sorting {

  type Comparator<!T> = (T, T) -> int

  // The sign of a comparator orders the payloads, some of them perhaps equally.
  ghost predicate TotalPreorder<T(!new)>(cmp: Comparator<T>)
  {
    && (forall a, b :: cmp(a, b) < 0 <==> cmp(b, a) > 0)
    && (forall a, b, c :: cmp(a, b) <= 0 && cmp(b, c) <= 0 ==> cmp(a, c) <= 0)
  }

  // LinkedList_Sort swaps neighbours a, b when this holds.
  predicate OutOfOrder<T>(cmp: Comparator<T>, ascending: bool, a: T, b: T)
  {
    (if ascending then -cmp(a, b) else cmp(a, b)) < 0
  }

  ghost predicate Ordered<T>(cmp: Comparator<T>, ascending: bool, s: seq<T>)
  {
    forall i, j :: 0 <= i < j < |s| ==> !OutOfOrder(cmp, ascending, s[i], s[j])
  }

  // The members of s that compare equal to x, in their order in s.
  ghost function ClassOf<T>(cmp: Comparator<T>, s: seq<T>, x: T): seq<T>
  {
    if s == [] then []
    else if cmp(s[0], x) == 0 then [s[0]] + ClassOf(cmp, s[1..], x) else ClassOf(cmp, s[1..], x)
  }

  // t has the members of s, and members that compare equal keep their order.
  ghost predicate StablePermutation<T(!new)>(cmp: Comparator<T>, s: seq<T>, t: seq<T>)
  {
    |s| == |t| && multiset(s) == multiset(t) && forall x :: ClassOf(cmp, s, x) == ClassOf(cmp, t, x)
  }

  // How many members of s must not come after x.
  ghost function CountAfter<T>(cmp: Comparator<T>, ascending: bool, x: T, s: seq<T>): nat
  {
    if s == [] then 0
    else (if OutOfOrder(cmp, ascending, x, s[0]) then 1 else 0) + CountAfter(cmp, ascending, x, s[1..])
  }

  // The number of pairs that are out of order.
  ghost function Inversions<T>(cmp: Comparator<T>, ascending: bool, s: seq<T>): nat
  {
    if s == [] then 0 else CountAfter(cmp, ascending, s[0], s[1..]) + Inversions(cmp, ascending, s[1..])
  }

  function SwapAt<T>(s: seq<T>, k: nat): (r: seq<T>)
    requires k + 1 < |s|
    ensures |r| == |s|
  {
    s[k := s[k + 1]][k + 1 := s[k]]
  }

  lemma SwapTail<T>(s: seq<T>, k: nat)
    requires k + 1 < |s|
    ensures k > 0 ==> SwapAt(s, k)[0] == s[0] && SwapAt(s, k)[1..] == SwapAt(s[1..], k - 1)
    ensures k == 0 ==> SwapAt(s, k)[0] == s[1] && SwapAt(s, k)[1] == s[0] && SwapAt(s, k)[1..][1..] == s[1..][1..]
  {
    if k > 0 {
      assert SwapAt(s, k)[1..] == SwapAt(s[1..], k - 1);
    } else {
      assert SwapAt(s, k)[1..][1..] == s[1..][1..];
    }
  }

  lemma {:induction false} CountAfterSwap<T>(cmp: Comparator<T>, ascending: bool, x: T, s: seq<T>, k: nat)
    requires k + 1 < |s|
    ensures CountAfter(cmp, ascending, x, SwapAt(s, k)) == CountAfter(cmp, ascending, x, s)
  {
    hide SwapAt;
    SwapTail(s, k);
    if k > 0 {
      CountAfterSwap(cmp, ascending, x, s[1..], k - 1);
    }
  }

  // Swapping neighbours that are out of order removes exactly one inversion.
  lemma {:induction false} InversionsSwap<T(!new)>(cmp: Comparator<T>, ascending: bool, s: seq<T>, k: nat)
    requires TotalPreorder(cmp) && k + 1 < |s| && OutOfOrder(cmp, ascending, s[k], s[k + 1])
    ensures Inversions(cmp, ascending, SwapAt(s, k)) == Inversions(cmp, ascending, s) - 1
  {
    hide SwapAt;
    SwapTail(s, k);
    if k > 0 {
      InversionsSwap(cmp, ascending, s[1..], k - 1);
      CountAfterSwap(cmp, ascending, s[0], s[1..], k - 1);
    } else {
      assert !OutOfOrder(cmp, ascending, s[1], s[0]);
    }
  }

  lemma {:induction false} ClassOfSwap<T(!new)>(cmp: Comparator<T>, ascending: bool, s: seq<T>, k: nat, x: T)
    requires TotalPreorder(cmp) && k + 1 < |s| && OutOfOrder(cmp, ascending, s[k], s[k + 1])
    ensures ClassOf(cmp, SwapAt(s, k), x) == ClassOf(cmp, s, x)
  {
    hide SwapAt;
    SwapTail(s, k);
    if k > 0 {
      ClassOfSwap(cmp, ascending, s[1..], k - 1, x);
    } else {
      NotBothEqual(cmp, s[0], s[1], x);
    }
  }

  // Members that are out of order are not both equal to a third.
  lemma NotBothEqual<T(!new)>(cmp: Comparator<T>, a: T, b: T, x: T)
    requires TotalPreorder(cmp) && cmp(a, b) != 0
    ensures !(cmp(a, x) == 0 && cmp(b, x) == 0)
  {
    assert cmp(a, x) == 0 ==> cmp(x, a) == 0;
    assert cmp(b, x) == 0 ==> cmp(x, b) == 0;
    assert cmp(a, x) == 0 && cmp(b, x) == 0 ==> cmp(a, b) <= 0 && cmp(b, a) <= 0;
  }

  lemma SwapStep<T(!new)>(cmp: Comparator<T>, ascending: bool, s: seq<T>, k: nat)
    requires TotalPreorder(cmp) && k + 1 < |s| && OutOfOrder(cmp, ascending, s[k], s[k + 1])
    ensures Inversions(cmp, ascending, SwapAt(s, k)) < Inversions(cmp, ascending, s)
    ensures StablePermutation(cmp, s, SwapAt(s, k))
  {
    InversionsSwap(cmp, ascending, s, k);
    forall x
      ensures ClassOf(cmp, s, x) == ClassOf(cmp, SwapAt(s, k), x)
    {
      ClassOfSwap(cmp, ascending, s, k, x);
    }
  }

  lemma PermutationRefl<T(!new)>(cmp: Comparator<T>, s: seq<T>)
    ensures StablePermutation(cmp, s, s)
  {
  }

  lemma PermutationTrans<T(!new)>(cmp: Comparator<T>, s: seq<T>, t: seq<T>, u: seq<T>)
    requires StablePermutation(cmp, s, t) && StablePermutation(cmp, t, u)
    ensures StablePermutation(cmp, s, u)
  {
  }

  lemma ShortOrdered<T>(cmp: Comparator<T>, ascending: bool, s: seq<T>)
    requires |s| < 2
    ensures Ordered(cmp, ascending, s)
  {
  }

  // Ascending means that nothing compares greater than what comes after it, descending
  // that nothing compares less.
  lemma OrderedMeans<T(!new)>(cmp: Comparator<T>, ascending: bool, s: seq<T>)
    requires TotalPreorder(cmp)
    ensures Ordered(cmp, ascending, s) <==>
            forall i, j :: 0 <= i < j < |s| ==> if ascending then cmp(s[i], s[j]) <= 0 else cmp(s[i], s[j]) >= 0
  {
  }

  // The first k neighbouring pairs are in order.
  ghost predicate OrderedUpTo<T>(cmp: Comparator<T>, ascending: bool, s: seq<T>, k: int)
  {
    forall i {:trigger s[i]} :: 0 <= i < k && i + 1 < |s| ==> !OutOfOrder(cmp, ascending, s[i], s[i + 1])
  }

  lemma {:induction false} NeighboursOrdered<T(!new)>(cmp: Comparator<T>, ascending: bool, s: seq<T>, i: nat, j: nat)
    requires TotalPreorder(cmp) && i < j < |s| && OrderedUpTo(cmp, ascending, s, |s| - 1)
    ensures !OutOfOrder(cmp, ascending, s[i], s[j])
    decreases j - i
  {
    assert !OutOfOrder(cmp, ascending, s[j - 1], s[j]);
    if i + 1 < j {
      NeighboursOrdered(cmp, ascending, s, i, j - 1);
      var a, b, c := s[i], s[j - 1], s[j];
      assert ascending ==> cmp(a, b) <= 0 && cmp(b, c) <= 0;
      assert !ascending ==> cmp(c, b) <= 0 && cmp(b, a) <= 0;
    }
  }

  // A pass without swaps has seen a sorted list.
  lemma QuietPass<T(!new)>(cmp: Comparator<T>, ascending: bool, s: seq<T>)
    requires TotalPreorder(cmp) && OrderedUpTo(cmp, ascending, s, |s| - 1)
    ensures Ordered(cmp, ascending, s)
  {
    forall i, j | 0 <= i < j < |s|
      ensures !OutOfOrder(cmp, ascending, s[i], s[j])
    {
      NeighboursOrdered(cmp, ascending, s, i, j);
    }
  }

  // There is an ordered stable permutation: swapping neighbours comes to an end.
  lemma SortedExists<T(!new)>(cmp: Comparator<T>, ascending: bool, s: seq<T>) returns (t: seq<T>)
    requires TotalPreorder(cmp)
    ensures Ordered(cmp, ascending, t) && StablePermutation(cmp, s, t)
    decreases Inversions(cmp, ascending, s)
  {
    hide *;
    PermutationRefl(cmp, s);
    var k := FirstSwap(cmp, ascending, s);
    if k + 1 < |s| {
      SwapStep(cmp, ascending, s, k);
      t := SortedExists(cmp, ascending, SwapAt(s, k));
      PermutationTrans(cmp, s, SwapAt(s, k), t);
    } else {
      QuietPass(cmp, ascending, s);
      t := s;
    }
  }

  lemma FirstSwap<T>(cmp: Comparator<T>, ascending: bool, s: seq<T>) returns (k: nat)
    ensures k + 1 < |s| ==> OutOfOrder(cmp, ascending, s[k], s[k + 1])
    ensures k + 1 >= |s| ==> OrderedUpTo(cmp, ascending, s, |s| - 1)
  {
    if i: nat :| i + 1 < |s| && OutOfOrder(cmp, ascending, s[i], s[i + 1]) {
      k := i;
    } else {
      k := |s|;
    }
  }
}
