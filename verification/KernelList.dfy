/** The kernel's lists: circular, doubly linked, with an end marker inside the list object. */
module KernelList {
  import opened CursorRing
  import opened SeqSets

  const MAX_DELAY: nat := 0xFFFF_FFFF

  class ListItem {
    var value: nat
    var next: ListItem
    var prev: ListItem
    var container: List?

    constructor (v: nat)
      ensures value == v && container == null && next == this && prev == this
    {
      value := v;
      container := null;
      next := this;
      prev := this;
    }
  }

  /** The i-th node of the ring; the end marker comes before the first and after the last item. */
  ghost function Slot(end: ListItem, items: seq<ListItem>, i: int): ListItem {
    if 1 <= i <= |items| then items[i - 1] else end
  }

  ghost predicate Linked(end: ListItem, items: seq<ListItem>)
    reads end, items
  {
    forall i :: 0 <= i <= |items| ==>
      && Slot(end, items, i).next == Slot(end, items, i + 1)
      && Slot(end, items, i + 1).prev == Slot(end, items, i)
  }

  lemma Links(end: ListItem, items: seq<ListItem>, i: nat)
    requires Linked(end, items) && i <= |items|
    ensures Slot(end, items, i).next == Slot(end, items, i + 1)
    ensures Slot(end, items, i + 1).prev == Slot(end, items, i)
  {
  }

  ghost predicate Distinct(end: ListItem, items: seq<ListItem>) {
    && end !in items
    && forall i, j :: 0 <= i < j < |items| ==> items[i] != items[j]
  }

  /** The items know their list, hold the given values and do not exceed the end marker. */
  ghost predicate Owned(list: List, items: seq<ListItem>, keys: seq<nat>)
    reads items
  {
    && |keys| == |items|
    && forall i :: 0 <= i < |items| ==>
      items[i].container == list && items[i].value == keys[i] <= MAX_DELAY
  }

  class List {
    const end: ListItem
    var index: ListItem
    var count: nat
    ghost var items: seq<ListItem>
    ghost var keys: seq<nat>
    ghost var at: nat

    /** The sequence and the cursor this list stands for. */
    ghost function Contents(): Ring<ListItem>
      reads this
    {
      Ring(items, at)
    }

    ghost predicate Valid()
      reads this, end, items
    {
      && Linked(end, items) && Distinct(end, items)
      && at <= |items| && index == Slot(end, items, at)
      && count == |items|
      && end.value == MAX_DELAY
      && Owned(this, items, keys)
    }

    /** vListInitialise */
    constructor ()
      ensures Valid() && fresh(end) && Contents() == Ring([], 0) && keys == []
    {
      end := new ListItem(MAX_DELAY);
      count := 0;
      items := [];
      keys := [];
      at := 0;
      index := end;
      new;
    }

    /** listLIST_IS_EMPTY */
    predicate IsEmpty()
      requires Valid()
      reads this, end, items
      ensures IsEmpty() <==> items == []
    {
      count == 0
    }

    /** vListInsertEnd: behind the cursor, which moves on to the new item. */
    method InsertEnd(x: ListItem)
      requires Valid() && x.container == null && x != end && x.value <= MAX_DELAY
      modifies this, x, index, index.next
      ensures Valid() && x.container == this && x.value == old(x.value)
      ensures Contents() == CursorRing.InsertEnd(old(Contents()), x)
      ensures keys == old(PutAt(keys, at, x.value))
    {
      hide Linked, Distinct, Owned;
      ghost var p := at;
      Enter(index, x, p);
      index := x;
      at := p + 1;
    }

    /** The new item is linked in behind `pos` and recorded; the cursor stays on its item. */
    method Enter(pos: ListItem, x: ListItem, ghost p: nat)
      requires Valid() && x.container == null && x != end && x.value <= MAX_DELAY
      requires p <= |items| && pos == Slot(end, items, p)
      modifies this`items, this`keys, this`at, this`count, pos`next, pos.next`prev, x`next, x`prev, x`container
      ensures Valid() && x.container == this && x.value == old(x.value)
      ensures Contents() == InsertAt(old(Contents()), p, x)
      ensures keys == old(PutAt(keys, p, x.value))
      ensures Slot(end, items, p + 1) == x
    {
      hide Linked, Distinct, Owned, Slot, PutAt;
      AroundInserted(x, p);
      LinkBehind(pos, x, items, keys, p);
      items := PutAt(items, p, x);
      keys := PutAt(keys, p, x.value);
      at := if p < at then at + 1 else at;
      count := count + 1;
    }

    /** An item without a container is in no list; the cursor stays where it is. */
    lemma AroundInserted(x: ListItem, p: nat)
      requires Valid() && x.container == null && x != end && p <= |items|
      ensures x !in items && Distinct(end, items) && end !in items
      ensures var s, pos := PutAt(items, p, x), Slot(end, items, p);
        && Slot(end, s, if p < at then at + 1 else at) == index && Slot(end, s, p + 1) == x
        && (pos == end || pos in items) && (pos.next == end || pos.next in items)
    {
      InsertedIn(end, items, p, x, at);
      Links(end, items, p);
    }

    /** The relinking both insertions share. */
    method LinkBehind(pos: ListItem, x: ListItem, ghost xs: seq<ListItem>, ghost ks: seq<nat>, ghost p: nat)
      requires Linked(end, xs) && Distinct(end, xs) && p <= |xs| && pos == Slot(end, xs, p)
      requires x != end && x !in xs && Owned(this, xs, ks) && x.value <= MAX_DELAY
      modifies pos`next, pos.next`prev, x`next, x`prev, x`container
      ensures Linked(end, PutAt(xs, p, x)) && Distinct(end, PutAt(xs, p, x))
      ensures Owned(this, PutAt(xs, p, x), PutAt(ks, p, x.value))
      ensures x.container == this
    {
      ghost var s := PutAt(xs, p, x);
      SlotsInserted(end, xs, p, x);
      SlotsDistinct(end, xs);
      Links(end, xs, p);
      x.next := pos.next;
      x.prev := pos;
      pos.next.prev := x;
      pos.next := x;
      x.container := this;
      forall i | 0 <= i <= |s| ensures Slot(end, s, i).next == Slot(end, s, i + 1)
                                    && Slot(end, s, i + 1).prev == Slot(end, s, i) {
        if i < p {
          assert old(Slot(end, xs, i).next) == Slot(end, xs, i + 1);
        } else if i > p + 1 {
          assert old(Slot(end, xs, i - 1).next) == Slot(end, xs, i);
        }
      }
      assert Owned(this, xs, ks);
      OwnedInserted(this, xs, ks, p, x);
    }

    /** vListInsert: sorted, behind items of the same value; terminates for every value. */
    method Insert(x: ListItem)
      requires Valid() && x.container == null && x != end && x.value <= MAX_DELAY
      modifies this, x, end, items
      ensures Valid() && x.container == this && x.value == old(x.value)
      ensures Contents() == InsertAt(old(Contents()), Place(old(keys), old(x.value)), x)
      ensures keys == Inserted(old(keys), old(x.value))
    {
      var pos := FindSlot(x.value);
      ghost var p := Place(keys, x.value);
      InRing(p);
      hide Linked, Distinct, Owned, Place;
      Enter(pos, x, p);
    }

    lemma InRing(p: nat)
      requires Valid() && p <= |items|
      ensures Slot(end, items, p) == end || Slot(end, items, p) in items
      ensures Slot(end, items, p).next == end || Slot(end, items, p).next in items
    {
      Links(end, items, p);
    }

    /** The node behind which vListInsert puts a value. */
    method FindSlot(v: nat) returns (pos: ListItem)
      requires Valid() && v <= MAX_DELAY
      ensures pos == Slot(end, items, Place(keys, v))
    {
      if v == MAX_DELAY {
        Links(end, items, |items|);
        pos := end.prev;
        PlaceOfGreatest(keys, v);
      } else {
        pos := FindPlace(v);
      }
    }

    /** The search loop of vListInsert: it ends at the end marker at the latest. */
    method FindPlace(v: nat) returns (pos: ListItem)
      requires Valid() && v < MAX_DELAY
      ensures pos == Slot(end, items, Place(keys, v))
    {
      pos := end;
      ghost var p := 0;
      Links(end, items, 0);
      while pos.next.value <= v
        invariant p <= |items| && pos == Slot(end, items, p) && pos.next == Slot(end, items, p + 1)
        invariant forall i :: 0 <= i < p ==> items[i].value <= v
        decreases |items| - p
      {
        pos := pos.next;
        p := p + 1;
        Links(end, items, p);
      }
      PlaceIsFirst(keys, v, p);
    }

    /** listGET_OWNER_OF_NEXT_ENTRY: the next item of the round; the marker is never delivered. */
    method Next() returns (x: ListItem)
      requires Valid() && items != []
      modifies this`index, this`at
      ensures Valid() && Contents() == Advance(old(Contents()))
      ensures x == Current(Contents()) == Upcoming(old(Contents()))[0]
    {
      Links(end, items, at);
      index := index.next;
      if index == end {
        assert at == |items|;
        Links(end, items, 0);
        index := index.next;
        at := 1;
      } else {
        at := at + 1;
      }
      x := index;
    }

    /** listGET_OWNER_OF_HEAD_ENTRY */
    method Head() returns (x: ListItem)
      requires Valid() && items != []
      ensures x == items[0]
    {
      Links(end, items, 0);
      x := end.next;
    }
  }

  /** vListRemove: the item takes itself out of the list it is in; a cursor on it steps back. */
  method Remove(x: ListItem, ghost k: nat)
    requires x.container != null && x.container.Valid() && k < |x.container.items| && x.container.items[k] == x
    modifies x, x.next, x.prev, x.container
    ensures x.container == null && x.value == old(x.value)
    ensures var l := old(x.container); l.Valid() && l.Contents() == RemoveAt(old(x.container.Contents()), k)
    ensures var l := old(x.container); l.keys == old(DropAt(x.container.keys, k))
  {
    hide Linked, Distinct, Owned, Slot, DropAt;
    var list := x.container;
    AroundRemoved(list, k);
    Unlink(x, list, k);
    if list.index == x {
      list.index := x.prev;
    }
    list.count := list.count - 1;
    list.items := DropAt(list.items, k);
    list.keys := DropAt(list.keys, k);
    list.at := if k < list.at then list.at - 1 else list.at;
  }

  lemma AroundRemoved(list: List, k: nat)
    requires list.Valid() && k < |list.items|
    ensures var x, s := list.items[k], DropAt(list.items, k);
      && (list.index == x <==> list.at == k + 1)
      && var at := if k < list.at then list.at - 1 else list.at;
      && Slot(list.end, s, at) == (if list.index == x then x.prev else list.index)
      && x !in s && list.end !in s && x != list.end
      && (x.next == list.end || x.next in s) && (x.prev == list.end || x.prev in s)
  {
    RemovedFrom(list.end, list.items, k, list.at);
    Links(list.end, list.items, k);
    Links(list.end, list.items, k + 1);
  }

  /** The relinking of vListRemove. */
  method Unlink(x: ListItem, ghost list: List, ghost k: nat)
    requires Linked(list.end, list.items) && Distinct(list.end, list.items) && Owned(list, list.items, list.keys)
    requires k < |list.items| && x == list.items[k]
    modifies x.next`prev, x.prev`next, x`container
    ensures var s := DropAt(list.items, k);
      Linked(list.end, s) && Distinct(list.end, s) && Owned(list, s, DropAt(list.keys, k))
    ensures x.container == null && x.prev == old(x.prev)
  {
    ghost var end, items := list.end, list.items;
    ghost var s := DropAt(items, k);
    SlotsRemoved(end, items, k);
    SlotsDistinct(end, items);
    Links(end, items, k);
    Links(end, items, k + 1);
    OwnedRemoved(list, items, list.keys, k);
    x.next.prev := x.prev;
    x.prev.next := x.next;
    x.container := null;
    assert Owned(list, s, DropAt(list.keys, k));
    forall i | 0 <= i <= |s| ensures Slot(end, s, i).next == Slot(end, s, i + 1)
                                  && Slot(end, s, i + 1).prev == Slot(end, s, i) {
      if i < k {
        assert old(Slot(end, items, i).next) == Slot(end, items, i + 1);
      } else if i > k {
        assert old(Slot(end, items, i + 1).next) == Slot(end, items, i + 2);
      }
    }
  }

  lemma OwnedInserted(list: List, xs: seq<ListItem>, ks: seq<nat>, p: nat, x: ListItem)
    requires Owned(list, xs, ks) && p <= |xs| && x.container == list && x.value <= MAX_DELAY
    ensures Owned(list, PutAt(xs, p, x), PutAt(ks, p, x.value))
  {
  }

  lemma OwnedRemoved(list: List, xs: seq<ListItem>, ks: seq<nat>, k: nat)
    requires Owned(list, xs, ks) && k < |xs|
    ensures Owned(list, DropAt(xs, k), DropAt(ks, k))
  {
  }

  // ---- positions in the ring ----

  /** The cursor stays on its item when another one comes in. */
  lemma InsertedIn(end: ListItem, items: seq<ListItem>, p: nat, x: ListItem, at: nat)
    requires p <= |items| && at <= |items| && Distinct(end, items) && x != end && x !in items
    ensures Slot(end, PutAt(items, p, x), if p < at then at + 1 else at) == Slot(end, items, at)
    ensures Slot(end, PutAt(items, p, x), p + 1) == x
    ensures Slot(end, items, p) != x && Slot(end, items, p + 1) != x
    ensures forall i :: 0 <= i < |items| ==> items[i] != x && items[i] != end
  {
    SlotsInserted(end, items, p, x);
  }

  /** The cursor stays on its item, or steps back from the removed one. */
  lemma RemovedFrom(end: ListItem, items: seq<ListItem>, k: nat, at: nat)
    requires k < |items| && at <= |items| && Distinct(end, items)
    ensures var s := DropAt(items, k);
      && Slot(end, s, if k < at then at - 1 else at) == Slot(end, items, if k + 1 == at then k else at)
      && (forall i :: 0 <= i < |s| ==> s[i] != items[k] && s[i] in items)
    ensures Slot(end, items, at) == items[k] <==> at == k + 1
    ensures Slot(end, items, k + 1) == items[k] && end != items[k]
  {
    SlotsRemoved(end, items, k);
  }

  lemma SlotsInserted(end: ListItem, items: seq<ListItem>, p: nat, x: ListItem)
    requires p <= |items| && Distinct(end, items) && x != end && x !in items
    ensures var s := PutAt(items, p, x);
      && Distinct(end, s)
      && forall i :: 0 <= i <= |s| + 1 ==>
        Slot(end, s, i) == (if i <= p then Slot(end, items, i) else if i == p + 1 then x else Slot(end, items, i - 1))
  {
  }

  lemma SlotsRemoved(end: ListItem, items: seq<ListItem>, k: nat)
    requires k < |items| && Distinct(end, items)
    ensures var s := DropAt(items, k);
      && Distinct(end, s) && items[k] !in s
      && forall i :: 0 <= i <= |s| + 1 ==>
        Slot(end, s, i) == (if i <= k then Slot(end, items, i) else Slot(end, items, i + 1))
  {
  }

  /** Only the two ends of the ring are the same node. */
  lemma SlotsDistinct(end: ListItem, items: seq<ListItem>)
    requires Distinct(end, items)
    ensures forall i, j :: 0 <= i < j <= |items| ==> Slot(end, items, i) != Slot(end, items, j)
  {
  }
}
