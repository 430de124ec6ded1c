/** The order behind the list sorts, and merging as a function on sequences of nodes. */
module ListOrder {

  /** A list node: its value never changes, sorting only relinks. */
  class Node {
    const val: int
    var next: Node?
    var prev: Node?

    constructor (v: int)
      ensures val == v && next == null && prev == this
    {
      val := v;
      next := null;
      new;
      prev := this;
    }
  }

  type Cmp = (int, int) -> int

  /** `a` may stand before `b`. */
  predicate Leq(cmp: Cmp, a: int, b: int) {
    !(cmp(b, a) < 0)
  }

  /** What the sorts need of a comparison function. */
  ghost predicate IsOrder(cmp: Cmp) {
    && (forall a, b :: Leq(cmp, a, b) || Leq(cmp, b, a))
    && (forall a, b, c :: Leq(cmp, a, b) && Leq(cmp, b, c) ==> Leq(cmp, a, c))
  }

  ghost predicate Sorted(cmp: Cmp, s: seq<Node>) {
    forall i, j :: 0 <= i < j < |s| ==> Leq(cmp, s[i].val, s[j].val)
  }

  /** Merging as merge_sorted_sublists does it: the right list goes first unless the left head is
      strictly smaller. */
  function Merge(cmp: Cmp, l: seq<Node>, r: seq<Node>): (m: seq<Node>)
    ensures |m| == |l| + |r|
    decreases |l| + |r|
  {
    if r == [] then l
    else if l != [] && cmp(l[0].val, r[0].val) < 0 then [l[0]] + Merge(cmp, l[1..], r)
    else [r[0]] + Merge(cmp, l, r[1..])
  }

  lemma ConsBag(x: Node, s: seq<Node>)
    ensures multiset([x] + s) == multiset{x} + multiset(s)
  {
  }

  lemma HeadBag(s: seq<Node>)
    requires s != []
    ensures multiset(s) == multiset{s[0]} + multiset(s[1..])
  {
    ConsBag(s[0], s[1..]);
    assert s == [s[0]] + s[1..];
  }

  lemma {:induction false} MergeMultiset(cmp: Cmp, l: seq<Node>, r: seq<Node>)
    ensures multiset(Merge(cmp, l, r)) == multiset(l) + multiset(r)
    decreases |l| + |r|
  {
    if r == [] {
    } else if l != [] && cmp(l[0].val, r[0].val) < 0 {
      MergeMultiset(cmp, l[1..], r);
      HeadBag(l);
      ConsBag(l[0], Merge(cmp, l[1..], r));
    } else {
      MergeMultiset(cmp, l, r[1..]);
      HeadBag(r);
      ConsBag(r[0], Merge(cmp, l, r[1..]));
    }
  }

  predicate AllAbove(cmp: Cmp, v: int, s: seq<Node>) {
    forall x :: x in s ==> Leq(cmp, v, x.val)
  }

  lemma AboveMerge(cmp: Cmp, v: int, l: seq<Node>, r: seq<Node>)
    requires AllAbove(cmp, v, l) && AllAbove(cmp, v, r)
    ensures AllAbove(cmp, v, Merge(cmp, l, r))
  {
    MergeMultiset(cmp, l, r);
    forall x | x in Merge(cmp, l, r) ensures Leq(cmp, v, x.val) {
      assert x in multiset(Merge(cmp, l, r));
      assert x in l || x in r;
    }
  }

  lemma SortedCons(cmp: Cmp, x: Node, s: seq<Node>)
    requires Sorted(cmp, s) && AllAbove(cmp, x.val, s)
    ensures Sorted(cmp, [x] + s)
  {
    var t := [x] + s;
    forall i, j | 0 <= i < j < |t| ensures Leq(cmp, t[i].val, t[j].val) {
      assert t[j] == s[j - 1] && s[j - 1] in s;
      if i > 0 { assert t[i] == s[i - 1]; }
    }
  }

  lemma SortedHead(cmp: Cmp, s: seq<Node>)
    requires Sorted(cmp, s) && s != []
    ensures Sorted(cmp, s[1..]) && AllAbove(cmp, s[0].val, s[1..])
  {
    assert forall i :: 0 <= i < |s[1..]| ==> s[1..][i] == s[i + 1];
  }

  lemma AboveTrans(cmp: Cmp, v: int, s: seq<Node>)
    requires IsOrder(cmp) && s != [] && Leq(cmp, v, s[0].val) && AllAbove(cmp, s[0].val, s[1..])
    ensures AllAbove(cmp, v, s)
  {
    assert s == [s[0]] + s[1..];
    forall x | x in s ensures Leq(cmp, v, x.val) {
      if x in s[1..] { assert Leq(cmp, s[0].val, x.val); }
    }
  }

  lemma {:induction false} MergeSorted(cmp: Cmp, l: seq<Node>, r: seq<Node>)
    requires IsOrder(cmp) && Sorted(cmp, l) && Sorted(cmp, r)
    ensures Sorted(cmp, Merge(cmp, l, r))
    decreases |l| + |r|
  {
    hide IsOrder, Sorted;
    if r == [] {
    } else if l != [] && cmp(l[0].val, r[0].val) < 0 {
      SortedHead(cmp, l);
      SortedHead(cmp, r);
      MergeSorted(cmp, l[1..], r);
      StrictIsLeq(cmp, l[0].val, r[0].val);
      AboveTrans(cmp, l[0].val, r);
      AboveMerge(cmp, l[0].val, l[1..], r);
      SortedCons(cmp, l[0], Merge(cmp, l[1..], r));
    } else {
      SortedHead(cmp, r);
      MergeSorted(cmp, l, r[1..]);
      if l != [] {
        SortedHead(cmp, l);
        AboveTrans(cmp, r[0].val, l);
      }
      AboveMerge(cmp, r[0].val, l, r[1..]);
      SortedCons(cmp, r[0], Merge(cmp, l, r[1..]));
    }
  }

  lemma StrictIsLeq(cmp: Cmp, a: int, b: int)
    requires IsOrder(cmp) && cmp(a, b) < 0
    ensures Leq(cmp, a, b)
  {
    assert Leq(cmp, a, b) || Leq(cmp, b, a);
  }

  /** The recursion of mergesort_list on a sequence. */
  function MergeSort(cmp: Cmp, s: seq<Node>): (r: seq<Node>)
    ensures |r| == |s|
    decreases |s|
  {
    if |s| <= 1 then s
    else
      var mid := |s| / 2;
      Merge(cmp, MergeSort(cmp, s[..mid]), MergeSort(cmp, s[mid..]))
  }

  /** It sorts, and it keeps exactly the nodes it was given. */
  lemma {:induction false} MergeSortCorrect(cmp: Cmp, s: seq<Node>)
    ensures multiset(MergeSort(cmp, s)) == multiset(s)
    ensures IsOrder(cmp) ==> Sorted(cmp, MergeSort(cmp, s))
    decreases |s|
  {
    hide IsOrder, Sorted, Merge;
    if |s| > 1 {
      var mid := |s| / 2;
      MergeSortCorrect(cmp, s[..mid]);
      MergeSortCorrect(cmp, s[mid..]);
      var l, r := MergeSort(cmp, s[..mid]), MergeSort(cmp, s[mid..]);
      MergeMultiset(cmp, l, r);
      assert s == s[..mid] + s[mid..];
      if IsOrder(cmp) { MergeSorted(cmp, l, r); }
    } else {
      ShortIsSorted(cmp, s);
    }
  }

  lemma ShortIsSorted(cmp: Cmp, s: seq<Node>)
    requires |s| <= 1
    ensures Sorted(cmp, s)
  {
  }
}
