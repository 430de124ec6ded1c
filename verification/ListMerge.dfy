/** Merging two whole sorted lists into one, again purely by relinking. */
module ListMerge {
  import opened ListOrder
  import opened ListSort

  /** Merging as merge_sorted_lists does it: the two lists change roles whenever the second one has
      the strictly smaller head, so equal values come from the list that was taken from last. */
  function Zip(cmp: Cmp, p: seq<Node>, q: seq<Node>): seq<Node>
    decreases |p| + |q|
  {
    if Turns(cmp, p, q) then [q[0]] + Zip(cmp, q[1..], p)
    else if p != [] then [p[0]] + Zip(cmp, p[1..], q)
    else []
  }

  /** Whether the lists change roles. */
  predicate Turns(cmp: Cmp, p: seq<Node>, q: seq<Node>) {
    q != [] && (p == [] || cmp(q[0].val, p[0].val) < 0)
  }

  lemma {:induction false} ZipMultiset(cmp: Cmp, p: seq<Node>, q: seq<Node>)
    ensures multiset(Zip(cmp, p, q)) == multiset(p) + multiset(q)
    decreases |p| + |q|
  {
    if Turns(cmp, p, q) {
      ZipMultiset(cmp, q[1..], p);
      HeadBag(q);
      ConsBag(q[0], Zip(cmp, q[1..], p));
    } else if p != [] {
      ZipMultiset(cmp, p[1..], q);
      HeadBag(p);
      ConsBag(p[0], Zip(cmp, p[1..], q));
    }
  }

  lemma AboveZip(cmp: Cmp, v: int, p: seq<Node>, q: seq<Node>)
    requires AllAbove(cmp, v, p) && AllAbove(cmp, v, q)
    ensures AllAbove(cmp, v, Zip(cmp, p, q))
  {
    ZipMultiset(cmp, p, q);
    forall x | x in Zip(cmp, p, q) ensures Leq(cmp, v, x.val) {
      assert x in multiset(Zip(cmp, p, q));
      assert x in p || x in q;
    }
  }

  /** Two sorted lists give a sorted list. */
  lemma {:induction false} ZipSorted(cmp: Cmp, p: seq<Node>, q: seq<Node>)
    requires IsOrder(cmp) && Sorted(cmp, p) && Sorted(cmp, q)
    ensures Sorted(cmp, Zip(cmp, p, q))
    decreases |p| + |q|
  {
    hide IsOrder, Sorted;
    if Turns(cmp, p, q) {
      ZipSortedHead(cmp, q, p);
      ZipSorted(cmp, q[1..], p);
      SortedCons(cmp, q[0], Zip(cmp, q[1..], p));
    } else if p != [] {
      ZipSortedHead(cmp, p, q);
      ZipSorted(cmp, p[1..], q);
      SortedCons(cmp, p[0], Zip(cmp, p[1..], q));
    } else {
      ShortIsSorted(cmp, []);
    }
  }

  /** The head that is taken first is below everything that remains. */
  lemma ZipSortedHead(cmp: Cmp, p: seq<Node>, q: seq<Node>)
    requires IsOrder(cmp) && Sorted(cmp, p) && Sorted(cmp, q)
    requires p != [] && (q == [] || Leq(cmp, p[0].val, q[0].val) || cmp(p[0].val, q[0].val) < 0)
    ensures Sorted(cmp, p[1..]) && AllAbove(cmp, p[0].val, Zip(cmp, p[1..], q))
  {
    SortedHead(cmp, p);
    if q != [] {
      if cmp(p[0].val, q[0].val) < 0 { StrictIsLeq(cmp, p[0].val, q[0].val); }
      SortedHead(cmp, q);
      AboveTrans(cmp, p[0].val, q);
    }
    AboveZip(cmp, p[0].val, p[1..], q);
  }

  /** A list without its head: linked forwards, ending in null. */
  ghost predicate Chain(i: Node?, s: seq<Node>)
    reads s
  {
    && Forward(s)
    && (if s == [] then i == null else i == s[0] && s[|s| - 1].next == null)
  }

  /** The state inside the loop: `done` is linked up, `p` and `q` remain. */
  ghost predicate Zipping(done: seq<Node>, i1: Node?, p: seq<Node>, i2: Node?, q: seq<Node>)
    reads done, p, q
  {
    && done != [] && Distinct(done + p + q) && Linked(done)
    && Chain(i1, p) && Chain(i2, q)
    && (p == [] && q == [] ==> done[|done| - 1].next == null)
  }

  lemma ZippingTurns(done: seq<Node>, i1: Node?, p: seq<Node>, i2: Node?, q: seq<Node>)
    requires Zipping(done, i1, p, i2, q)
    ensures Zipping(done, i2, q, i1, p)
  {
    hide Distinct, Linked, Chain;
    PermutationDistinct(done + p + q, done + q + p);
  }

  /** Takes the first node of the first list. */
  method TakeFirst(last: Node, i1: Node, ghost done: seq<Node>, ghost p: seq<Node>, i2: Node?, ghost q: seq<Node>)
    returns (l: Node, i: Node?)
    requires Zipping(done, i1, p, i2, q) && p != [] && last == done[|done| - 1]
    modifies last`next, i1`prev
    ensures l == i1 && Zipping(done + [i1], i, p[1..], i2, q)
  {
    ghost var rest := p[1..] + q;
    TakeDistinct(done, p, q);
    assert forall k :: 0 <= k < |p[1..]| ==> p[1..][k] in rest;
    assert forall k :: 0 <= k < |q| ==> q[k] in rest;
    assert |p| > 1 ==> p[0].next == p[1];
    Append(last, i1, done, rest);
    l := last.next;
    i := i1.next;
    TakeChain(p, i, q, i2);
  }

  lemma TakeDistinct(done: seq<Node>, p: seq<Node>, q: seq<Node>)
    requires Distinct(done + p + q) && p != []
    ensures Distinct(done + [p[0]] + (p[1..] + q)) && Distinct(done + [p[0]] + p[1..] + q)
  {
    assert p == [p[0]] + p[1..];
    assert done + [p[0]] + (p[1..] + q) == done + p + q;
    assert done + [p[0]] + p[1..] + q == done + p + q;
  }

  lemma TakeChain(p: seq<Node>, i: Node?, q: seq<Node>, i2: Node?)
    requires p != [] && i == (if |p| > 1 then p[1] else null) && Forward(p[1..]) && Chain(i2, q)
    requires |p| > 1 ==> p[|p| - 1].next == null
    ensures Chain(i, p[1..])
  {
  }

  /** merge_sorted_lists: a new head in front of exactly the nodes of both lists; sorted if both
      were. */
  method MergeSortedLists(cmp: Cmp, l1: Node, l2: Node, ghost nodes: set<Node>, ghost xs: seq<Node>,
      ghost ys: seq<Node>)
    returns (lhead: Node, ghost zs: seq<Node>)
    requires IsList(xs) && IsList(ys) && l1 == xs[0] && l2 == ys[0] && Distinct(xs + ys)
    requires Within(xs, nodes) && Within(ys, nodes)
    modifies nodes
    ensures fresh(lhead) && IsList([lhead] + zs)
    ensures zs == Zip(cmp, xs[1..], ys[1..]) && multiset(zs) == multiset(xs[1..]) + multiset(ys[1..])
    ensures IsOrder(cmp) && Sorted(cmp, xs[1..]) && Sorted(cmp, ys[1..]) ==> Sorted(cmp, zs)
  {
    var i1, i2 := l1.next, l2.next;
    ghost var p, q := xs[1..], ys[1..];
    lhead := new Node(0);
    ZipStart(lhead, xs, ys, nodes);
    hide IsList, Zipping, Distinct, Within, Zip, Sorted, IsOrder;
    var l;
    l, zs := ZipLoop(cmp, lhead, i1, i2, nodes + {lhead}, p, q);
    CloseHead(lhead, l, zs);
    ZipMultiset(cmp, p, q);
    if IsOrder(cmp) && Sorted(cmp, p) && Sorted(cmp, q) { ZipSorted(cmp, p, q); }
  }

  lemma ZipStart(lhead: Node, xs: seq<Node>, ys: seq<Node>, nodes: set<Node>)
    requires IsList(xs) && IsList(ys) && Distinct(xs + ys) && lhead !in xs && lhead !in ys && lhead.next == null
    requires Within(xs, nodes) && Within(ys, nodes)
    ensures Zipping([lhead], xs[0].next, xs[1..], ys[0].next, ys[1..])
    ensures Within(xs[1..], nodes + {lhead}) && Within(ys[1..], nodes + {lhead})
  {
    var s := [lhead] + xs[1..] + ys[1..];
    forall i, j | 0 <= i < j < |s| ensures s[i] != s[j] {
      assert forall k :: 1 <= k < |s| ==> s[k] == (xs + ys)[if k < |xs| then k else k + 1];
      assert forall k :: 0 <= k < |xs + ys| ==> (xs + ys)[k] in xs || (xs + ys)[k] in ys;
    }
    if |xs| > 1 { assert xs[0].next == xs[1]; }
    if |ys| > 1 { assert ys[0].next == ys[1]; }
  }

  /** Closes the loop's result with the head's prev. */
  method CloseHead(lhead: Node, l: Node, ghost zs: seq<Node>)
    requires Distinct([lhead] + zs) && Linked([lhead] + zs) && l == ([lhead] + zs)[|zs|] && l.next == null
    modifies lhead`prev
    ensures IsList([lhead] + zs)
  {
    lhead.prev := l;
  }

  method ZipLoop(cmp: Cmp, lhead: Node, first: Node?, second: Node?, ghost nodes: set<Node>, ghost xs: seq<Node>,
      ghost ys: seq<Node>)
    returns (l: Node, ghost zs: seq<Node>)
    requires Zipping([lhead], first, xs, second, ys)
    requires lhead in nodes && Within(xs, nodes) && Within(ys, nodes)
    modifies nodes
    ensures zs == Zip(cmp, xs, ys) && l == ([lhead] + zs)[|zs|]
    ensures Distinct([lhead] + zs) && Linked([lhead] + zs) && l.next == null
  {
    hide Zipping, Distinct, Zip, Linked;
    l := lhead;
    zs := [];
    var i1, i2 := first, second;
    ghost var p, q := xs, ys;
    assert [lhead] + zs == [lhead];
    assert i1 == null <==> p == [] by { ZippingEmpty([lhead], i1, p, i2, q); }
    assert i2 == null <==> q == [] by { ZippingEmpty([lhead], i1, p, i2, q); }
    while i1 != null || i2 != null
      invariant Zipping([lhead] + zs, i1, p, i2, q) && l == ([lhead] + zs)[|zs|]
      invariant zs + Zip(cmp, p, q) == Zip(cmp, xs, ys)
      invariant i1 == null <==> p == []
      invariant i2 == null <==> q == []
      invariant l in nodes && Within(p, nodes) && Within(q, nodes)
      decreases |p| + |q|
    {
      ghost var done := [lhead] + zs;
      ZippingHeads(done, i1, p, i2, q);
      ZipStep(cmp, zs, p, q);
      if i1 == null || (i2 != null && cmp(i2.val, i1.val) < 0) {
        ZippingTurns(done, i1, p, i2, q);
        i1, i2 := i2, i1;
        p, q := q, p;
      }
      assert p[0] in nodes && Within(p[1..], nodes);
      zs := zs + [p[0]];
      assert [lhead] + zs == done + [p[0]];
      l, i1 := TakeFirst(l, i1, done, p, i2, q);
      p := p[1..];
      ZippingEmpty([lhead] + zs, i1, p, i2, q);
    }
    ZippingDone(cmp, [lhead] + zs, p, q);
  }

  lemma ZippingEmpty(done: seq<Node>, i1: Node?, p: seq<Node>, i2: Node?, q: seq<Node>)
    requires Zipping(done, i1, p, i2, q)
    ensures (i1 == null <==> p == []) && (i2 == null <==> q == [])
  {
  }

  lemma ZippingHeads(done: seq<Node>, i1: Node?, p: seq<Node>, i2: Node?, q: seq<Node>)
    requires Zipping(done, i1, p, i2, q)
    ensures (p != [] ==> i1 == p[0]) && (q != [] ==> i2 == q[0])
  {
  }

  lemma ZippingDone(cmp: Cmp, done: seq<Node>, p: seq<Node>, q: seq<Node>)
    requires Zipping(done, null, p, null, q)
    ensures p == [] && q == [] && Zip(cmp, p, q) == []
    ensures Distinct(done) && Linked(done) && done[|done| - 1].next == null
  {
    assert done + [] + [] == done;
  }

  lemma ZipStep(cmp: Cmp, zs: seq<Node>, p: seq<Node>, q: seq<Node>)
    ensures Turns(cmp, p, q) ==> zs + [q[0]] + Zip(cmp, q[1..], p) == zs + Zip(cmp, p, q)
    ensures p != [] && !Turns(cmp, p, q) ==> zs + [p[0]] + Zip(cmp, p[1..], q) == zs + Zip(cmp, p, q)
  {
    if q != [] { Regroup(zs, q[0], Zip(cmp, q[1..], p)); }
    if p != [] { Regroup(zs, p[0], Zip(cmp, p[1..], q)); }
  }
}
