/** Sorting and splicing doubly linked lists with a head node, purely by relinking.  A list is
    described by the sequence of its nodes, the head first. */
module ListSort {
  import opened ListOrder

  ghost predicate Distinct(s: seq<Node>) {
    forall i, j :: 0 <= i < j < |s| ==> s[i] != s[j]
  }

  /** Consecutive nodes are linked in both directions. */
  ghost predicate Linked(s: seq<Node>)
    reads s
  {
    forall i :: 0 <= i < |s| - 1 ==> s[i].next == s[i + 1] && s[i + 1].prev == s[i]
  }

  /** Consecutive nodes are linked forwards. */
  ghost predicate Forward(s: seq<Node>)
    reads s
  {
    forall i :: 0 <= i < |s| - 1 ==> s[i].next == s[i + 1]
  }

  /** A well-formed list: xs[0] is the head, its prev is the last node, the last next is null. */
  ghost predicate IsList(xs: seq<Node>)
    reads xs
  {
    && xs != [] && Distinct(xs) && Linked(xs)
    && xs[|xs| - 1].next == null && xs[0].prev == xs[|xs| - 1]
  }

  lemma DistinctMembers(a: seq<Node>, b: seq<Node>)
    requires Distinct(a + b)
    ensures Distinct(a) && Distinct(b) && forall x :: x in a ==> x !in b
  {
    forall i, j | 0 <= i < j < |a| ensures a[i] != a[j] {
      assert (a + b)[i] == a[i] && (a + b)[j] == a[j];
    }
    forall i, j | 0 <= i < j < |b| ensures b[i] != b[j] {
      assert (a + b)[|a| + i] == b[i] && (a + b)[|a| + j] == b[j];
    }
    forall i, j | 0 <= i < |a| && 0 <= j < |b| ensures a[i] != b[j] {
      assert (a + b)[i] == a[i] && (a + b)[|a| + j] == b[j];
    }
  }

  /** A sequence is distinct exactly when no node occurs twice in it. */
  lemma DistinctIffOnce(s: seq<Node>)
    ensures Distinct(s) <==> forall x :: x in s ==> multiset(s)[x] == 1
  {
    if Distinct(s) { OnceEach(s); }
    if forall x :: x in s ==> multiset(s)[x] == 1 { OnceIsDistinct(s); }
  }

  lemma {:induction false} OnceEach(s: seq<Node>)
    requires Distinct(s)
    ensures forall x :: x in s ==> multiset(s)[x] == 1
  {
    if s == [] {
    } else {
      var t := s[1..];
      assert s == [s[0]] + t;
      DistinctMembers([s[0]], t);
      OnceEach(t);
      assert s[0] !in t && s[0] !in multiset(t);
    }
  }

  lemma OnceIsDistinct(s: seq<Node>)
    requires forall x :: x in s ==> multiset(s)[x] == 1
    ensures Distinct(s)
  {
    forall i, j | 0 <= i < j < |s| ensures s[i] != s[j] {
      TwoPlaces(s, i, j);
      assert s[i] in s;
    }
  }

  lemma TwoPlaces(s: seq<Node>, i: nat, j: nat)
    requires i < j < |s|
    ensures s[i] == s[j] ==> multiset(s)[s[i]] >= 2
  {
    assert s == s[..i] + [s[i]] + s[i + 1..j] + [s[j]] + s[j + 1..];
  }

  /** Rearranging nodes keeps them distinct. */
  lemma PermutationDistinct(s: seq<Node>, t: seq<Node>)
    requires Distinct(s) && multiset(s) == multiset(t)
    ensures Distinct(t)
  {
    DistinctIffOnce(s);
    forall x | x in t ensures multiset(t)[x] == 1 {
      assert x in multiset(t) && x in multiset(s) && x in s;
    }
    DistinctIffOnce(t);
  }

  // ---- merging two neighbouring sorted ranges ----

  /** The state inside the merge loop: `done` is linked up, `l` and `r` remain to be merged, `tail`
      follows them. */
  ghost predicate Merging(done: seq<Node>, l: seq<Node>, r: seq<Node>, tail: seq<Node>)
    reads done, l, r, tail
  {
    && done != [] && Distinct(done + l + r + tail)
    && Linked(done) && Forward(l) && Forward(r) && Linked(tail)
    && (if tail == [] then true else done[0].prev == tail[|tail| - 1] && tail[|tail| - 1].next == null)
  }

  /** Appends the node `x`, the first of what remains, behind the nodes that are linked up. */
  method Append(last: Node, x: Node, ghost done: seq<Node>, ghost rest: seq<Node>)
    requires done != [] && last == done[|done| - 1] && Linked(done)
    requires Distinct(done + [x] + rest)
    modifies last`next, x`prev
    ensures last.next == x && x.prev == last
    ensures Linked(done + [x])
    ensures done[0].prev == old(done[0].prev)
    ensures forall y :: y in rest ==> y.next == old(y.next) && y.prev == old(y.prev)
    ensures x.next == old(x.next)
  {
    DistinctMembers(done + [x], rest);
    DistinctMembers(done, [x]);
    assert x in [x] && x !in done && last in done;
    assert x in done + [x] && last in done + [x];
    assert forall i :: 0 <= i < |done| ==> done[i] in done;
    last.next := x;
    x.prev := last;
  }

  lemma DistinctLeft(done: seq<Node>, l: seq<Node>, r: seq<Node>, tail: seq<Node>)
    requires Distinct(done + l + r + tail) && l != []
    ensures Distinct(done + [l[0]] + (l[1..] + r + tail)) && Distinct(done + [l[0]] + l[1..] + r + tail)
  {
    assert l == [l[0]] + l[1..];
    assert done + [l[0]] + (l[1..] + r + tail) == done + l + r + tail;
    assert done + [l[0]] + l[1..] + r + tail == done + l + r + tail;
  }

  lemma DistinctRight(done: seq<Node>, l: seq<Node>, r: seq<Node>, tail: seq<Node>)
    requires Distinct(done + l + r + tail) && r != []
    ensures Distinct(done + [r[0]] + (l + r[1..] + tail)) && Distinct(done + [r[0]] + l + r[1..] + tail)
  {
    hide Distinct;
    var t := done + [r[0]] + (l + r[1..] + tail);
    assert done + [r[0]] + l + r[1..] + tail == t;
    var u := done + (l + r + tail);
    assert done + l + r + tail == u;
    assert r == [r[0]] + r[1..];
    assert multiset(u) == multiset(done) + (multiset(l) + multiset(r) + multiset(tail));
    assert multiset(t) == multiset(done) + multiset{r[0]} + (multiset(l) + multiset(r[1..]) + multiset(tail));
    PermutationDistinct(u, t);
  }

  /** The cursor of a range that ends with the node `end`. */
  ghost predicate Cursor(i: Node?, s: seq<Node>, end: Node) {
    if s == [] then i == null else i == s[0] && s[|s| - 1] == end
  }

  /** All nodes of the sequence belong to the set a method may relink. */
  ghost predicate Within(s: seq<Node>, nodes: set<Node>) {
    forall i :: 0 <= i < |s| ==> s[i] in nodes
  }

  /** Where the cursor goes after the first node of a range has been taken. */
  lemma CursorMoves(s: seq<Node>, end: Node)
    requires Distinct(s) && s != [] && s[|s| - 1] == end
    ensures if s[0] != end then |s| > 1 && Cursor(s[1], s[1..], end) else Cursor(null, s[1..], end)
  {
  }

  /** Takes the first node of the left range. */
  method TakeLeft(last: Node, x: Node, end: Node, ghost done: seq<Node>, ghost l: seq<Node>,
      ghost r: seq<Node>, ghost tail: seq<Node>)
    returns (l': Node, i1: Node?)
    requires Merging(done, l, r, tail) && last == done[|done| - 1] && l != [] && Cursor(x, l, end)
    modifies last`next, x`prev
    ensures l' == x && Merging(done + [x], l[1..], r, tail) && Cursor(i1, l[1..], end)
    ensures done[0].prev == old(done[0].prev)
  {
    DistinctLeft(done, l, r, tail);
    ghost var rest := l[1..] + r + tail;
    assert forall i :: 0 <= i < |l[1..]| ==> l[1..][i] in rest;
    assert forall i :: 0 <= i < |r| ==> r[i] in rest;
    assert forall i :: 0 <= i < |tail| ==> tail[i] in rest;
    assert Distinct(l) by {
      assert done + l + r + tail == done + (l + (r + tail));
      DistinctMembers(done, l + (r + tail));
      DistinctMembers(l, r + tail);
    }
    CursorMoves(l, end);
    Append(last, x, done, rest);
    l' := last.next;
    if x != end { i1 := x.next; } else { i1 := null; }
  }

  /** Takes the first node of the right range. */
  method TakeRight(last: Node, x: Node, end: Node, ghost done: seq<Node>, ghost l: seq<Node>,
      ghost r: seq<Node>, ghost tail: seq<Node>)
    returns (l': Node, i2: Node?)
    requires Merging(done, l, r, tail) && last == done[|done| - 1] && r != [] && Cursor(x, r, end)
    modifies last`next, x`prev
    ensures l' == x && Merging(done + [x], l, r[1..], tail) && Cursor(i2, r[1..], end)
    ensures done[0].prev == old(done[0].prev)
  {
    DistinctRight(done, l, r, tail);
    ghost var rest := l + r[1..] + tail;
    assert forall i :: 0 <= i < |l| ==> l[i] in rest;
    assert forall i :: 0 <= i < |r[1..]| ==> r[1..][i] in rest;
    assert forall i :: 0 <= i < |tail| ==> tail[i] in rest;
    assert Distinct(r) by {
      assert done + l + r + tail == done + l + (r + tail);
      DistinctMembers(done + l, r + tail);
      DistinctMembers(r, tail);
    }
    CursorMoves(r, end);
    Append(last, x, done, rest);
    l' := last.next;
    if x != end { i2 := x.next; } else { i2 := null; }
  }

  /** A list cut into its four parts. */
  lemma StartMerging(xs: seq<Node>, a: nat, b: nat, c: nat)
    requires IsList(xs) && a < b < c < |xs|
    ensures Merging(xs[..a + 1], xs[a + 1..b + 1], xs[b + 1..c + 1], xs[c + 1..])
    ensures Cursor(xs[a].next, xs[a + 1..b + 1], xs[b]) && Cursor(xs[b].next, xs[b + 1..c + 1], xs[c])
    ensures var tail := xs[c + 1..]; if tail == [] then xs[c].next == null else xs[c].next == tail[0]
    ensures xs[..a + 1][0] == xs[0] && xs[..a + 1][a] == xs[a]
  {
    assert xs[..a + 1] + xs[a + 1..b + 1] + xs[b + 1..c + 1] + xs[c + 1..] == xs;
  }

  /** Every node outside the places `a + 1` to `c` is where it was. */
  ghost predicate OutsideSame(xs: seq<Node>, ys: seq<Node>, a: nat, c: nat) {
    && |ys| == |xs|
    && forall i :: 0 <= i < |xs| && (i <= a || c < i) ==> ys[i] == xs[i]
  }

  /** `ys` is `xs` with two neighbouring ranges merged and everything else in its place. */
  ghost predicate RangeMerged(cmp: Cmp, xs: seq<Node>, ys: seq<Node>, a: nat, b: nat, c: nat)
    requires a <= b <= c < |xs|
  {
    && OutsideSame(xs, ys, a, c)
    && ys[a + 1..c + 1] == Merge(cmp, xs[a + 1..b + 1], xs[b + 1..c + 1])
  }

  /** Merges two neighbouring sorted ranges of a list in place.  The first range starts behind
      `startpos` and ends with `splitpos`, the second one ends with `endpos`. */
  method MergeSortedSublists(cmp: Cmp, head: Node, startpos: Node, splitpos: Node, endpos: Node,
      ghost nodes: set<Node>, ghost xs: seq<Node>, ghost a: nat, ghost b: nat, ghost c: nat)
    returns (last: Node, ghost ys: seq<Node>)
    requires IsList(xs) && a <= b <= c < |xs| && Within(xs, nodes)
    requires head == xs[0] && startpos == xs[a] && splitpos == xs[b] && endpos == xs[c]
    modifies nodes
    ensures RangeMerged(cmp, xs, ys, a, b, c)
    ensures IsList(ys) && last == ys[c]
  {
    SameNode(xs, a, b);
    SameNode(xs, b, c);
    hide Linked, Forward, Merging, Merge, Distinct, IsList;
    var i1, i2, enpos := startpos.next, splitpos.next, endpos.next;
    if startpos == splitpos || splitpos == endpos {
      NothingToMerge(cmp, xs, a, b, c);
      return endpos, xs;
    }
    last, ys := MergeRanges(cmp, head, startpos, i1, i2, splitpos, endpos, enpos, nodes, xs, a, b, c);
  }

  method MergeRanges(cmp: Cmp, head: Node, startpos: Node, i1: Node?, i2: Node?, splitpos: Node,
      endpos: Node, enpos: Node?, ghost nodes: set<Node>, ghost xs: seq<Node>, ghost a: nat, ghost b: nat,
      ghost c: nat)
    returns (last: Node, ghost ys: seq<Node>)
    requires IsList(xs) && a < b < c < |xs| && Within(xs, nodes)
    requires head == xs[0] && startpos == xs[a] && splitpos == xs[b] && endpos == xs[c]
    requires i1 == xs[a].next && i2 == xs[b].next && enpos == xs[c].next
    modifies nodes
    ensures RangeMerged(cmp, xs, ys, a, b, c)
    ensures IsList(ys) && last == ys[c]
  {
    hide Linked, Forward, Merging, Merge, Distinct, IsList;
    ghost var left, right, tail := xs[a + 1..b + 1], xs[b + 1..c + 1], xs[c + 1..];
    StartMerging(xs, a, b, c);
    ghost var merged;
    last, merged := MergeLoop(cmp, startpos, i1, i2, splitpos, endpos, nodes, xs[..a + 1], left, right, tail);
    ghost var done := xs[..a + 1] + merged;
    ys := done + tail;
    assert last == done[c] == ys[c];
    PartsMerged(cmp, xs, merged, a, b, c);
    CloseUp(head, last, enpos, done, tail);
  }

  lemma SameNode(xs: seq<Node>, i: nat, j: nat)
    requires IsList(xs) && i < |xs| && j < |xs|
    ensures xs[i] == xs[j] <==> i == j
  {
  }

  lemma NothingToMerge(cmp: Cmp, xs: seq<Node>, a: nat, b: nat, c: nat)
    requires a <= b <= c < |xs| && (a == b || b == c)
    ensures RangeMerged(cmp, xs, xs, a, b, c)
  {
    MergeEmpty(cmp, xs[a + 1..b + 1], xs[b + 1..c + 1]);
  }

  /** The three parts put together again. */
  lemma PartsMerged(cmp: Cmp, xs: seq<Node>, m: seq<Node>, a: nat, b: nat, c: nat)
    requires a <= b <= c < |xs| && m == Merge(cmp, xs[a + 1..b + 1], xs[b + 1..c + 1])
    ensures RangeMerged(cmp, xs, xs[..a + 1] + m + xs[c + 1..], a, b, c)
  {
    hide Merge;
    var ys := xs[..a + 1] + m + xs[c + 1..];
    assert |ys| == |xs| && ys[a + 1..c + 1] == m;
  }

  /** The merge loop: appends the nodes of the two ranges behind `done`. */
  method MergeLoop(cmp: Cmp, startpos: Node, first: Node?, second: Node?, splitpos: Node, endpos: Node,
      ghost nodes: set<Node>, ghost start: seq<Node>, ghost left: seq<Node>, ghost right: seq<Node>,
      ghost tail: seq<Node>)
    returns (l: Node, ghost merged: seq<Node>)
    requires Merging(start, left, right, tail) && start != [] && startpos == start[|start| - 1]
    requires Cursor(first, left, splitpos) && Cursor(second, right, endpos)
    requires Within(start, nodes) && Within(left, nodes) && Within(right, nodes)
    modifies nodes
    ensures l in nodes
    ensures merged == Merge(cmp, left, right) && l == (start + merged)[|start| + |merged| - 1]
    ensures Merging(start + merged, [], [], tail)
  {
    hide Distinct, Linked, Forward, Merging, IsList, Merge;
    l := startpos;
    merged := [];
    var i1, i2 := first, second;
    ghost var p, q := left, right;
    assert start + [] == start;
    while i1 != null || i2 != null
      invariant Merging(start + merged, p, q, tail) && l == (start + merged)[|start| + |merged| - 1]
      invariant merged + Merge(cmp, p, q) == Merge(cmp, left, right)
      invariant Cursor(i1, p, splitpos) && Cursor(i2, q, endpos)
      invariant Within(start + merged, nodes) && Within(p, nodes) && Within(q, nodes)
      decreases |p| + |q|
    {
      ghost var done := start + merged;
      if i2 == null || (i1 != null && i2 != null && cmp(i1.val, i2.val) < 0) {
        MergeTakes(cmp, merged, p, q);
        WithinMoves(done, p, nodes);
        merged := merged + [p[0]];
        assert start + merged == done + [p[0]];
        l, i1 := TakeLeft(l, i1, splitpos, done, p, q, tail);
        p := p[1..];
      } else {
        MergeTakes(cmp, merged, p, q);
        WithinMoves(done, q, nodes);
        merged := merged + [q[0]];
        assert start + merged == done + [q[0]];
        l, i2 := TakeRight(l, i2, endpos, done, p, q, tail);
        q := q[1..];
      }
    }
    MergeEmpty(cmp, p, q);
    assert (start + merged)[|start + merged| - 1] in nodes;
  }

  lemma WithinMoves(done: seq<Node>, s: seq<Node>, nodes: set<Node>)
    requires Within(done, nodes) && Within(s, nodes) && s != [] && done != []
    ensures Within(done + [s[0]], nodes) && Within(s[1..], nodes)
    ensures done[|done| - 1] in nodes && s[0] in nodes
  {
  }

  /** The next node of the merge. */
  lemma MergeTakes(cmp: Cmp, merged: seq<Node>, p: seq<Node>, q: seq<Node>)
    ensures p != [] && (q == [] || cmp(p[0].val, q[0].val) < 0) ==>
      merged + [p[0]] + Merge(cmp, p[1..], q) == merged + Merge(cmp, p, q)
    ensures q != [] && !(p != [] && cmp(p[0].val, q[0].val) < 0) ==>
      merged + [q[0]] + Merge(cmp, p, q[1..]) == merged + Merge(cmp, p, q)
  {
    MergeStep(cmp, p, q);
    hide Merge;
    if p != [] { Regroup(merged, p[0], Merge(cmp, p[1..], q)); }
    if q != [] { Regroup(merged, q[0], Merge(cmp, p, q[1..])); }
  }

  lemma MergeStep(cmp: Cmp, p: seq<Node>, q: seq<Node>)
    ensures p != [] && (q == [] || cmp(p[0].val, q[0].val) < 0) ==> Merge(cmp, p, q) == [p[0]] + Merge(cmp, p[1..], q)
    ensures q != [] && !(p != [] && cmp(p[0].val, q[0].val) < 0) ==>
      Merge(cmp, p, q) == [q[0]] + Merge(cmp, p, q[1..])
  {
    if p != [] && q == [] { assert p == [p[0]] + p[1..]; }
  }

  lemma Regroup(s: seq<Node>, x: Node, t: seq<Node>)
    ensures s + [x] + t == s + ([x] + t)
  {
  }

  lemma MergeEmpty(cmp: Cmp, l: seq<Node>, r: seq<Node>)
    requires l == [] || r == []
    ensures Merge(cmp, l, r) == l + r
  {
    if l != [] || r == [] {
    } else {
      MergeEmpty(cmp, l, r[1..]);
    }
  }

  /** Links the merged part to what follows it. */
  method CloseUp(head: Node, l: Node, enpos: Node?, ghost done: seq<Node>, ghost tail: seq<Node>)
    requires Merging(done, [], [], tail) && head == done[0] && l == done[|done| - 1]
    requires if tail == [] then enpos == null else enpos == tail[0]
    modifies l, head, enpos
    ensures IsList(done + tail)
  {
    assert done + [] + [] + tail == done + tail;
    DistinctMembers(done, tail);
    assert forall i, j :: 0 <= i < |done| && 0 <= j < |tail| ==> done[i] != tail[j] by {
      assert forall i :: 0 <= i < |done| ==> done[i] in done;
      assert forall i :: 0 <= i < |tail| ==> tail[i] in tail;
    }
    l.next := enpos;
    if enpos != null {
      enpos.prev := l;
    } else {
      head.prev := l;
    }
  }

  // ---- merge sort ----

  /** `ys` is `xs` with one range sorted and everything else in its place. */
  ghost predicate RangeSorted(cmp: Cmp, xs: seq<Node>, ys: seq<Node>, a: nat, c: nat)
    requires a <= c < |xs|
  {
    && OutsideSame(xs, ys, a, c)
    && ys[a + 1..c + 1] == MergeSort(cmp, xs[a + 1..c + 1])
  }

  lemma SliceBag(xs: seq<Node>, i: nat, j: nat)
    requires i <= j <= |xs|
    ensures multiset(xs) == multiset(xs[..i]) + multiset(xs[i..j]) + multiset(xs[j..])
  {
    assert xs == xs[..i] + xs[i..j] + xs[j..];
  }

  lemma RangePermutes(cmp: Cmp, xs: seq<Node>, ys: seq<Node>, a: nat, c: nat)
    requires a <= c < |xs| && RangeSorted(cmp, xs, ys, a, c)
    ensures multiset(ys) == multiset(xs)
  {
    hide MergeSort, Sorted, IsOrder;
    MergeSortCorrect(cmp, xs[a + 1..c + 1]);
    MiddlePermutes(xs, ys, a, c);
  }

  lemma MiddlePermutes(xs: seq<Node>, ys: seq<Node>, a: nat, c: nat)
    requires a <= c < |xs| && OutsideSame(xs, ys, a, c)
    requires multiset(ys[a + 1..c + 1]) == multiset(xs[a + 1..c + 1])
    ensures multiset(ys) == multiset(xs)
  {
    SliceBag(xs, a + 1, c + 1);
    SliceBag(ys, a + 1, c + 1);
    assert ys[..a + 1] == xs[..a + 1];
    assert ys[c + 1..] == xs[c + 1..];
  }

  lemma PermutationWithin(xs: seq<Node>, ys: seq<Node>, nodes: set<Node>)
    requires multiset(xs) == multiset(ys) && Within(xs, nodes)
    ensures Within(ys, nodes)
  {
    forall i | 0 <= i < |ys| ensures ys[i] in nodes {
      assert ys[i] in multiset(ys) && ys[i] in multiset(xs);
      var j :| 0 <= j < |xs| && xs[j] == ys[i];
    }
  }

  lemma MergeSortHalves(cmp: Cmp, xs: seq<Node>, a: nat, b: nat, c: nat)
    requires a < b < c < |xs| && b == a + (c - a) / 2
    ensures MergeSort(cmp, xs[a + 1..c + 1]) ==
      Merge(cmp, MergeSort(cmp, xs[a + 1..b + 1]), MergeSort(cmp, xs[b + 1..c + 1]))
  {
    var s := xs[a + 1..c + 1];
    assert s[..|s| / 2] == xs[a + 1..b + 1] && s[|s| / 2..] == xs[b + 1..c + 1];
  }

  /** Sorting the two halves of a range and merging them sorts the range. */
  lemma HalvesMerge(cmp: Cmp, xs: seq<Node>, us: seq<Node>, zs: seq<Node>, ys: seq<Node>, a: nat, b: nat, c: nat)
    requires a < b < c < |xs| && b == a + (c - a) / 2
    requires RangeSorted(cmp, xs, us, a, b) && RangeSorted(cmp, us, zs, b, c) && RangeMerged(cmp, zs, ys, a, b, c)
    ensures RangeSorted(cmp, xs, ys, a, c)
  {
    hide MergeSort, Merge, OutsideSame;
    MergeSortHalves(cmp, xs, a, b, c);
    OutsideSlice(xs, us, a, b, b + 1, c + 1);
    OutsideSlice(us, zs, b, c, a + 1, b + 1);
    OutsideChain(xs, us, zs, ys, a, b, c);
  }

  lemma OutsideSlice(xs: seq<Node>, ys: seq<Node>, a: nat, c: nat, i: nat, j: nat)
    requires OutsideSame(xs, ys, a, c) && i <= j <= |xs| && (j <= a + 1 || c < i)
    ensures |ys| == |xs| && ys[i..j] == xs[i..j]
  {
  }

  lemma OutsideChain(xs: seq<Node>, us: seq<Node>, zs: seq<Node>, ys: seq<Node>, a: nat, b: nat, c: nat)
    requires a <= b <= c && OutsideSame(xs, us, a, b) && OutsideSame(us, zs, b, c) && OutsideSame(zs, ys, a, c)
    ensures OutsideSame(xs, ys, a, c) && |us| == |zs| == |ys| == |xs|
  {
  }

  /** The node `n` places behind index `a`. */
  method Walk(startpos: Node, n: nat, ghost xs: seq<Node>, ghost a: nat) returns (pos: Node)
    requires IsList(xs) && a + n < |xs| && startpos == xs[a]
    ensures pos == xs[a + n]
  {
    pos := startpos;
    var i := 0;
    while i < n
      invariant 0 <= i <= n && pos == xs[a + i]
    {
      assert xs[a + i].next == xs[a + i + 1];
      pos := pos.next;
      i := i + 1;
    }
  }

  /** Sorts the range behind `startpos` up to `endpos`, which holds `size` nodes; returns the new
      last node of the range. */
  method MergesortIntern(cmp: Cmp, head: Node, startpos: Node, endpos: Node, size: nat,
      ghost nodes: set<Node>, ghost xs: seq<Node>, ghost a: nat, ghost c: nat)
    returns (last: Node, ghost ys: seq<Node>)
    requires IsList(xs) && a <= c < |xs| && size == c - a && Within(xs, nodes)
    requires head == xs[0] && startpos == xs[a] && endpos == xs[c]
    modifies nodes
    ensures RangeSorted(cmp, xs, ys, a, c) && IsList(ys) && last == ys[c]
    ensures Within(ys, nodes)
    decreases size
  {
    ShortRange(cmp, xs, a, c);
    hide IsList, MergeSort, Merge, RangeSorted, RangeMerged;
    if startpos == endpos || startpos.next == endpos {
      return endpos, xs;
    }
    var mid := size / 2;
    ghost var b := a + mid;
    var midpos := Walk(startpos, mid, xs, a);
    ghost var us, zs;
    midpos, us := MergesortIntern(cmp, head, startpos, midpos, mid, nodes, xs, a, b);
    SortedEnds(cmp, xs, us, a, b, c);
    var end;
    end, zs := MergesortIntern(cmp, head, midpos, endpos, size - mid, nodes, us, b, c);
    SortedEnds(cmp, us, zs, b, c, a);
    last, ys := MergeSortedSublists(cmp, head, startpos, midpos, end, nodes, zs, a, b, c);
    HalvesMerge(cmp, xs, us, zs, ys, a, b, c);
    RangePermutes(cmp, xs, ys, a, c);
    PermutationWithin(xs, ys, nodes);
  }

  /** The nodes outside a sorted range that the recursion holds on to. */
  lemma SortedEnds(cmp: Cmp, xs: seq<Node>, ys: seq<Node>, a: nat, c: nat, i: nat)
    requires a <= c < |xs| && RangeSorted(cmp, xs, ys, a, c) && i < |xs| && (i <= a || c < i)
    ensures |ys| == |xs| && ys[0] == xs[0] && ys[a] == xs[a] && ys[i] == xs[i]
  {
    hide MergeSort;
  }

  lemma ShortRange(cmp: Cmp, xs: seq<Node>, a: nat, c: nat)
    requires IsList(xs) && a <= c < |xs|
    ensures xs[a] == xs[c] <==> a == c
    ensures xs[a].next == xs[c] <==> c == a + 1
    ensures c <= a + 1 ==> RangeSorted(cmp, xs, xs, a, c)
  {
    if a + 1 < |xs| { assert xs[a].next == xs[a + 1]; }
  }

  method ListSize(head: Node, ghost xs: seq<Node>) returns (n: nat)
    requires IsList(xs) && head == xs[0]
    ensures n == |xs| - 1
  {
    n := 0;
    var p := head.next;
    while p != null
      invariant n < |xs| && p == (if n + 1 < |xs| then xs[n + 1] else null)
      decreases |xs| - n
    {
      n := n + 1;
      assert n + 1 < |xs| ==> xs[n].next == xs[n + 1];
      p := p.next;
    }
  }

  /** mergesort_list: the same nodes, relinked into sorted order; prev mirrors next and the head's
      prev is the last node. */
  method MergesortList(cmp: Cmp, head: Node, ghost nodes: set<Node>, ghost xs: seq<Node>)
    returns (ghost ys: seq<Node>)
    requires IsList(xs) && head == xs[0] && Within(xs, nodes)
    modifies nodes
    ensures IsList(ys) && ys[0] == head && multiset(ys) == multiset(xs)
    ensures ys[1..] == MergeSort(cmp, xs[1..])
    ensures IsOrder(cmp) ==> Sorted(cmp, ys[1..])
  {
    var n := ListSize(head, xs);
    var last;
    last, ys := MergesortIntern(cmp, head, head, head.prev, n, nodes, xs, 0, |xs| - 1);
    WholeRange(cmp, xs, ys);
  }

  lemma WholeRange(cmp: Cmp, xs: seq<Node>, ys: seq<Node>)
    requires xs != [] && RangeSorted(cmp, xs, ys, 0, |xs| - 1)
    ensures ys != [] && ys[0] == xs[0] && multiset(ys) == multiset(xs)
    ensures ys[1..] == MergeSort(cmp, xs[1..])
    ensures IsOrder(cmp) ==> Sorted(cmp, ys[1..])
  {
    RangePermutes(cmp, xs, ys, 0, |xs| - 1);
    MergeSortCorrect(cmp, xs[1..]);
    hide MergeSort, Sorted, IsOrder;
    assert xs[1..|xs|] == xs[1..] && ys[1..|xs|] == ys[1..];
  }

  // ---- exchange sort ----

  function Swapped(xs: seq<Node>, i: nat, j: nat): seq<Node>
    requires i < |xs| && j < |xs|
  {
    xs[i := xs[j]][j := xs[i]]
  }

  lemma SwappedFacts(xs: seq<Node>, i: nat, j: nat)
    requires i < |xs| && j < |xs|
    ensures multiset(Swapped(xs, i, j)) == multiset(xs)
    ensures Distinct(xs) ==> Distinct(Swapped(xs, i, j))
  {
    var ys := Swapped(xs, i, j);
    assert multiset(ys) == multiset(xs);
    if Distinct(xs) { PermutationDistinct(xs, ys); }
  }

  /** swap_list_elements: exchanges the places of two nodes, neighbours included. */
  method SwapListElements(head: Node, p1: Node, p2: Node, ghost nodes: set<Node>, ghost xs: seq<Node>,
      ghost i: nat, ghost j: nat)
    requires IsList(xs) && head == xs[0] && Within(xs, nodes)
    requires 1 <= i < |xs| && 1 <= j < |xs| && i != j && p1 == xs[i] && p2 == xs[j]
    modifies nodes
    ensures IsList(Swapped(xs, i, j))
  {
    var pos1, pos2 := p1, p2;
    ghost var a, b := i, j;
    Neighbours(xs, i);
    Neighbours(xs, j);
    if pos1 == pos2.next {
      pos1, pos2 := pos2, pos1;
      a, b := j, i;
    }
    assert a != b + 1 && Swapped(xs, a, b) == Swapped(xs, i, j);
    Relink(head, pos1, pos2, nodes, xs, a, b);
  }

  /** The relinking, for two nodes of which the second does not stand right before the first. */
  method Relink(head: Node, pos1: Node, pos2: Node, ghost nodes: set<Node>, ghost xs: seq<Node>,
      ghost a: nat, ghost b: nat)
    requires IsList(xs) && head == xs[0] && Within(xs, nodes)
    requires 1 <= a < |xs| && 1 <= b < |xs| && a != b && a != b + 1 && pos1 == xs[a] && pos2 == xs[b]
    modifies nodes
    ensures IsList(Swapped(xs, a, b))
  {
    Neighbours(xs, a);
    Neighbours(xs, b);
    var p1next, p2next, p1prev, p2prev := pos1.next, pos2.next, pos1.prev, pos2.prev;
    pos1.prev.next := pos2;
    if pos2.next != null { pos2.next.prev := pos1; } else { head.prev := pos1; }
    if pos2 == pos1.next {
      pos1.prev := pos2;
      pos2.next := pos1;
    } else {
      if pos1.next != null { pos1.next.prev := pos2; } else { head.prev := pos2; }
      pos2.prev.next := pos1;
      pos2.next := p1next;
      pos1.prev := p2prev;
    }
    pos1.next := p2next;
    pos2.prev := p1prev;
    SwappedFacts(xs, a, b);
    ghost var ys := Swapped(xs, a, b);
    assert Linked(ys) by {
      forall k | 0 <= k < |ys| - 1 ensures ys[k].next == ys[k + 1] {
        assert old(xs[k].next) == xs[k + 1];
        if k != a && k != b && k + 1 != a && k + 1 != b {
          assert ys[k] == xs[k] && ys[k + 1] == xs[k + 1];
        }
      }
      forall k | 0 <= k < |ys| - 1 ensures ys[k + 1].prev == ys[k] {
        assert old(xs[k + 1].prev) == xs[k];
      }
    }
  }

  /** What the neighbours of a node are. */
  lemma Neighbours(xs: seq<Node>, k: nat)
    requires IsList(xs) && 1 <= k < |xs|
    ensures xs[k].prev == xs[k - 1] && xs[k - 1].next == xs[k]
    ensures if k + 1 < |xs| then xs[k].next == xs[k + 1] && xs[k + 1].prev == xs[k]
            else xs[k].next == null && xs[0].prev == xs[k]
  {
    assert xs[k - 1].next == xs[k - 1 + 1];
  }

  /** Positions 1 to `k - 1` hold what they hold in the sorted list. */
  ghost predicate Settled(cmp: Cmp, ys: seq<Node>, k: nat) {
    forall p, q :: 1 <= p < k && p < q < |ys| ==> Leq(cmp, ys[p].val, ys[q].val)
  }

  /** The node at position `k` may stand before those up to position `m - 1`. */
  ghost predicate LeastSoFar(cmp: Cmp, ys: seq<Node>, k: nat, m: nat)
    requires k < |ys|
  {
    forall q :: k < q < m && q < |ys| ==> Leq(cmp, ys[k].val, ys[q].val)
  }

  lemma ExchangeKeeps(cmp: Cmp, ys: seq<Node>, k: nat, m: nat)
    requires IsOrder(cmp) && 1 <= k < m < |ys|
    requires Settled(cmp, ys, k) && LeastSoFar(cmp, ys, k, m) && cmp(ys[m].val, ys[k].val) < 0
    ensures Settled(cmp, Swapped(ys, k, m), k) && LeastSoFar(cmp, Swapped(ys, k, m), k, m + 1)
  {
    var zs := Swapped(ys, k, m);
    StrictIsLeq(cmp, ys[m].val, ys[k].val);
    forall q | k < q < m + 1 ensures Leq(cmp, zs[k].val, zs[q].val) {
      if q < m { assert Leq(cmp, ys[k].val, ys[q].val); }
    }
  }

  lemma SettledNext(cmp: Cmp, ys: seq<Node>, k: nat)
    requires 1 <= k < |ys| && Settled(cmp, ys, k) && LeastSoFar(cmp, ys, k, |ys|)
    ensures Settled(cmp, ys, k + 1)
  {
  }

  lemma AllSettled(cmp: Cmp, ys: seq<Node>)
    requires ys != [] && Settled(cmp, ys, |ys|)
    ensures Sorted(cmp, ys[1..])
  {
  }

  /** bubblesort_list meets the same specification as mergesort_list. */
  method BubblesortList(cmp: Cmp, head: Node, ghost nodes: set<Node>, ghost xs: seq<Node>)
    returns (ghost ys: seq<Node>)
    requires IsList(xs) && head == xs[0] && Within(xs, nodes)
    modifies nodes
    ensures IsList(ys) && ys[0] == head && multiset(ys) == multiset(xs)
    ensures IsOrder(cmp) ==> Sorted(cmp, ys[1..])
  {
    ys := xs;
    ghost var k := 1;
    var i := head.next;
    if |xs| > 1 { Neighbours(xs, 1); }
    while i != null
      invariant IsList(ys) && ys[0] == head && |ys| == |xs| && multiset(ys) == multiset(xs) && Within(ys, nodes)
      invariant 1 <= k <= |ys| && i == (if k < |ys| then ys[k] else null)
      invariant IsOrder(cmp) ==> Settled(cmp, ys, k)
      decreases |ys| - k
    {
      i, ys := SelectLeast(cmp, head, i, nodes, ys, k);
      if IsOrder(cmp) { SettledNext(cmp, ys, k); }
      Neighbours(ys, k);
      i := i.next;
      k := k + 1;
    }
    if IsOrder(cmp) { AllSettled(cmp, ys); }
  }

  /** The inner loop: brings the least of the remaining nodes to position `k`. */
  method SelectLeast(cmp: Cmp, head: Node, first: Node, ghost nodes: set<Node>, ghost xs: seq<Node>, ghost k: nat)
    returns (i: Node, ghost ys: seq<Node>)
    requires IsList(xs) && head == xs[0] && Within(xs, nodes) && 1 <= k < |xs| && first == xs[k]
    requires IsOrder(cmp) ==> Settled(cmp, xs, k)
    modifies nodes
    ensures IsList(ys) && ys[0] == head && |ys| == |xs| && multiset(ys) == multiset(xs) && Within(ys, nodes)
    ensures i == ys[k]
    ensures IsOrder(cmp) ==> Settled(cmp, ys, k) && LeastSoFar(cmp, ys, k, |ys|)
  {
    hide IsOrder, Settled, LeastSoFar, IsList, Within;
    ys := xs;
    i := first;
    ghost var m := k + 1;
    Neighbours(xs, k);
    LeastStart(cmp, ys, k);
    var j := i.next;
    while j != null
      invariant |ys| == |xs| && IsList(ys) && ys[0] == head && multiset(ys) == multiset(xs) && Within(ys, nodes)
      invariant k < m <= |ys| && i == ys[k] && j == (if m < |ys| then ys[m] else null)
      invariant IsOrder(cmp) ==> Settled(cmp, ys, k) && LeastSoFar(cmp, ys, k, m)
      decreases |ys| - m
    {
      i, j, ys := Exchange(cmp, head, i, j, nodes, ys, k, m);
      Neighbours(ys, m);
      j := j.next;
      m := m + 1;
    }
  }

  /** Exchanges two nodes that are out of order. */
  method Exchange(cmp: Cmp, head: Node, i: Node, j: Node, ghost nodes: set<Node>, ghost xs: seq<Node>,
      ghost k: nat, ghost m: nat)
    returns (i': Node, j': Node, ghost ys: seq<Node>)
    requires IsList(xs) && head == xs[0] && Within(xs, nodes) && 1 <= k < m < |xs| && i == xs[k] && j == xs[m]
    requires IsOrder(cmp) ==> Settled(cmp, xs, k) && LeastSoFar(cmp, xs, k, m)
    modifies nodes
    ensures IsList(ys) && ys[0] == head && |ys| == |xs| && multiset(ys) == multiset(xs) && Within(ys, nodes)
    ensures i' == ys[k] && j' == ys[m]
    ensures IsOrder(cmp) ==> Settled(cmp, ys, k) && LeastSoFar(cmp, ys, k, m + 1)
  {
    hide IsOrder, Settled, LeastSoFar, IsList, Within;
    if cmp(j.val, i.val) < 0 {
      SwapListElements(head, i, j, nodes, xs, k, m);
      SwappedFacts(xs, k, m);
      ys := Swapped(xs, k, m);
      PermutationWithin(xs, ys, nodes);
      if IsOrder(cmp) { ExchangeKeeps(cmp, xs, k, m); }
      i', j' := j, i;
    } else {
      LeastGrows(cmp, xs, k, m);
      i', j', ys := i, j, xs;
    }
  }

  lemma LeastStart(cmp: Cmp, ys: seq<Node>, k: nat)
    requires k < |ys|
    ensures LeastSoFar(cmp, ys, k, k + 1)
  {
  }

  lemma LeastGrows(cmp: Cmp, ys: seq<Node>, k: nat, m: nat)
    requires k < m < |ys| && !(cmp(ys[m].val, ys[k].val) < 0)
    ensures LeastSoFar(cmp, ys, k, m) ==> LeastSoFar(cmp, ys, k, m + 1)
  {
  }

  // ---- joining and splitting ----

  lemma DropOne(s: seq<Node>, k: nat)
    requires Distinct(s) && k < |s|
    ensures Distinct(s[..k] + s[k + 1..])
  {
    var t := s[..k] + s[k + 1..];
    forall i, j | 0 <= i < j < |t| ensures t[i] != t[j] {
      assert t[i] == s[if i < k then i else i + 1] && t[j] == s[if j < k then j else j + 1];
    }
  }

  /** concat_lists: the nodes of the second list follow those of the first; its head is dropped. */
  method ConcatLists(l1: Node, l2: Node, ghost xs: seq<Node>, ghost ys: seq<Node>)
    requires IsList(xs) && IsList(ys) && l1 == xs[0] && l2 == ys[0] && Distinct(xs + ys)
    modifies l1, l1.prev, l2.next
    ensures IsList(xs + ys[1..])
  {
    ghost var zs := xs + ys[1..];
    DistinctMembers(xs, ys);
    assert Distinct(zs) by { DropOne(xs + ys, |xs|); assert (xs + ys)[..|xs|] + (xs + ys)[|xs| + 1..] == zs; }
    if |ys| > 1 { Neighbours(ys, 1); }
    if l2.next != null {
      l1.prev.next := l2.next;
      l2.next.prev := l1.prev;
      l1.prev := l2.prev;
    }
    assert forall i :: 1 <= i < |ys| ==> zs[|xs| + i - 1] == ys[i];
    if |ys| == 1 { assert zs == xs; } else { assert zs[|zs| - 1] == ys[|ys| - 1]; }
  }

  lemma CutDistinct(s: seq<Node>, k: nat)
    requires Distinct(s) && k <= |s|
    ensures Distinct(s[..k]) && Distinct(s[k..])
    ensures forall i, j :: 0 <= i < k <= j < |s| ==> s[i] != s[j]
  {
  }

  /** splice_list: the list is cut behind `splitpos`; the rest gets a head of its own. */
  method SpliceList(l: Node, splitpos: Node, ghost xs: seq<Node>, ghost a: nat)
    returns (newlist: Node)
    requires IsList(xs) && a < |xs| && l == xs[0] && splitpos == xs[a]
    modifies l, splitpos, splitpos.next
    ensures fresh(newlist)
    ensures IsList(xs[..a + 1]) && IsList([newlist] + xs[a + 1..])
  {
    newlist := new Node(0);
    CutDistinct(xs, a + 1);
    newlist.next := splitpos.next;
    if a + 1 < |xs| { Neighbours(xs, a + 1); }
    if splitpos.next != null {
      splitpos.next.prev := newlist;
      newlist.prev := l.prev;
    } else {
      newlist.prev := newlist;
    }
    splitpos.next := null;
    l.prev := splitpos;
    CutLists(newlist, xs, a);
  }

  /** The links of the two halves after the cut. */
  lemma CutLists(newlist: Node, xs: seq<Node>, a: nat)
    requires a < |xs| && Distinct(xs[..a + 1]) && Distinct(xs[a + 1..]) && newlist !in xs
    requires forall i :: 0 <= i < |xs| - 1 && i != a ==> xs[i].next == xs[i + 1]
    requires forall i :: 0 <= i < |xs| - 1 && i != a ==> xs[i + 1].prev == xs[i]
    requires xs[a].next == null && xs[|xs| - 1].next == null && xs[0].prev == xs[a]
    requires if a + 1 < |xs| then newlist.next == xs[a + 1] && xs[a + 1].prev == newlist && newlist.prev == xs[|xs| - 1]
             else newlist.next == null && newlist.prev == newlist
    ensures IsList(xs[..a + 1]) && IsList([newlist] + xs[a + 1..])
  {
    var zs, ys := xs[..a + 1], [newlist] + xs[a + 1..];
    assert IsList(zs);
    forall i | 1 <= i < |ys| ensures ys[i] == xs[a + i] && ys[i] != newlist {}
    forall i, j | 1 <= i < j < |ys| ensures ys[i] != ys[j] {
      assert ys[i] == xs[a + 1..][i - 1] && ys[j] == xs[a + 1..][j - 1];
    }
  }
}
