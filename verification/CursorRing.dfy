/** What the kernel's circular lists stand for: a sequence of items and a round-robin cursor. */
module CursorRing {
  import opened SeqSets

  /** The cursor stands on item `at - 1`, or on the end marker when `at` is 0. */
  datatype Ring<T> = Ring(items: seq<T>, at: nat)

  ghost predicate Whole<T>(r: Ring<T>) {
    r.at <= |r.items|
  }

  /** The items in the order in which the cursor will reach them. */
  function Upcoming<T>(r: Ring<T>): (u: seq<T>)
    requires Whole(r)
    ensures |u| == |r.items|
  {
    r.items[r.at..] + r.items[..r.at]
  }

  function InsertAt<T>(r: Ring<T>, p: nat, x: T): (r': Ring<T>)
    requires Whole(r) && p <= |r.items|
    ensures Whole(r')
  {
    Ring(PutAt(r.items, p, x), if p < r.at then r.at + 1 else r.at)
  }

  /** Behind the cursor, which then stands on the new item. */
  function InsertEnd<T>(r: Ring<T>, x: T): (r': Ring<T>)
    requires Whole(r)
    ensures Whole(r') && r'.at > 0
  {
    InsertAt(r, r.at, x).(at := r.at + 1)
  }

  /** A cursor on the removed item steps back to its predecessor. */
  function RemoveAt<T>(r: Ring<T>, k: nat): (r': Ring<T>)
    requires Whole(r) && k < |r.items|
    ensures Whole(r')
  {
    Ring(DropAt(r.items, k), if k < r.at then r.at - 1 else r.at)
  }

  /** The next item, skipping the end marker. */
  function Advance<T>(r: Ring<T>): (r': Ring<T>)
    requires Whole(r) && r.items != []
    ensures Whole(r') && r'.at > 0
  {
    r.(at := if r.at == |r.items| then 1 else r.at + 1)
  }

  function Current<T>(r: Ring<T>): T
    requires Whole(r) && r.at > 0
  {
    r.items[r.at - 1]
  }

  // ---- what the operations mean for the round robin ----

  /** Every item that was in the list is reached before the new one. */
  lemma InsertEndIsLast<T>(r: Ring<T>, x: T)
    requires Whole(r)
    ensures Upcoming(InsertEnd(r, x)) == Upcoming(r) + [x]
  {
    var s := InsertEnd(r, x);
    assert s.items[s.at..] == r.items[r.at..];
    assert s.items[..s.at] == r.items[..r.at] + [x];
  }

  /** The place of item `k` in the round. */
  function Turn<T>(r: Ring<T>, k: nat): (t: nat)
    requires Whole(r) && k < |r.items|
    ensures t < |r.items| && Upcoming(r)[t] == r.items[k]
  {
    if k < r.at then |r.items| - r.at + k else k - r.at
  }

  /** Removing an item, the current one included, leaves the order of all others unchanged: none is
      skipped and none is repeated. */
  lemma RemoveKeepsOrder<T>(r: Ring<T>, k: nat)
    requires Whole(r) && k < |r.items|
    ensures var t := Turn(r, k);
      Upcoming(RemoveAt(r, k)) == DropAt(Upcoming(r), t)
  {
    var t, s := Turn(r, k), RemoveAt(r, k);
    var u, v := Upcoming(r), Upcoming(s);
    hide Upcoming, DropAt, RemoveAt, Turn;
    forall i | 0 <= i < |v| ensures v[i] == DropAt(u, t)[i] {
      OthersStay(r, k, i);
    }
  }

  lemma OthersStay<T>(r: Ring<T>, k: nat, i: nat)
    requires Whole(r) && k < |r.items| && i < |r.items| - 1
    ensures |RemoveAt(r, k).items| == |r.items| - 1
    ensures Upcoming(RemoveAt(r, k))[i] == Upcoming(r)[if i < Turn(r, k) then i else i + 1]
  {
    hide Upcoming, DropAt;
    UpcomingAt(RemoveAt(r, k), i);
    UpcomingAt(r, if i < Turn(r, k) then i else i + 1);
  }

  lemma UpcomingAt<T>(r: Ring<T>, i: nat)
    requires Whole(r) && i < |r.items|
    ensures Upcoming(r)[i] == r.items[if r.at + i < |r.items| then r.at + i else r.at + i - |r.items|]
  {
  }

  /** Inserting elsewhere leaves the order of the others unchanged, too. */
  lemma InsertKeepsOrder<T>(r: Ring<T>, p: nat, x: T)
    requires Whole(r) && p <= |r.items|
    ensures var s := InsertAt(r, p, x);
      var t := Turn(s, p);
      && Upcoming(s)[t] == x
      && Upcoming(r) == DropAt(Upcoming(s), t)
  {
    hide Upcoming, PutAt, DropAt;
    var s := InsertAt(r, p, x);
    RemoveKeepsOrder(s, p);
    PutThenDrop(r.items, p, x);
    assert s.items[p] == x;
  }

  lemma AdvanceRotates<T>(r: Ring<T>)
    requires Whole(r) && r.items != []
    ensures Current(Advance(r)) == Upcoming(r)[0]
    ensures Upcoming(Advance(r)) == Upcoming(r)[1..] + [Upcoming(r)[0]]
  {
  }

  /** The items that `n` calls of the round-robin macro deliver. */
  function Visits<T>(r: Ring<T>, n: nat): seq<T>
    requires Whole(r) && (r.items != [] || n == 0)
    decreases n
  {
    if n == 0 then [] else [Current(Advance(r))] + Visits(Advance(r), n - 1)
  }

  /** A round delivers every item exactly once and in the upcoming order. */
  lemma {:induction false} RoundIsFair<T>(r: Ring<T>, n: nat)
    requires Whole(r) && n <= |r.items|
    ensures Visits(r, n) == Upcoming(r)[..n]
    decreases n
  {
    if n == 0 {
      assert Visits(r, 0) == [];
    } else {
      AdvanceRotates(r);
      RoundIsFair(Advance(r), n - 1);
      hide Upcoming, Advance, Current;
      RotatedStart(Upcoming(r), n);
    }
  }

  lemma RotatedStart<T>(u: seq<T>, n: nat)
    requires 1 <= n <= |u|
    ensures [u[0]] + (u[1..] + [u[0]])[..n - 1] == u[..n]
  {
  }

  // ---- sorted insertion ----

  /** Behind the last item whose value is not greater. */
  function Place(keys: seq<nat>, v: nat): (p: nat)
    ensures p <= |keys|
    ensures forall i :: 0 <= i < p ==> keys[i] <= v
    ensures p < |keys| ==> keys[p] > v
  {
    if keys == [] || keys[0] > v then 0 else 1 + Place(keys[1..], v)
  }

  ghost predicate Ascending(keys: seq<nat>) {
    forall i, j :: 0 <= i < j < |keys| ==> keys[i] <= keys[j]
  }

  function Inserted(keys: seq<nat>, v: nat): seq<nat> {
    PutAt(keys, Place(keys, v), v)
  }

  /** The keys stay sorted, and the new one stands behind all equal ones: first in, first out. */
  lemma PlaceKeepsSorted(keys: seq<nat>, v: nat)
    requires Ascending(keys)
    ensures var p := Place(keys, v);
      && Ascending(Inserted(keys, v))
      && (forall i :: 0 <= i < p ==> keys[i] <= v)
      && (forall i :: p <= i < |keys| ==> v < keys[i])
  {
    var p := Place(keys, v);
    forall i | p <= i < |keys| ensures v < keys[i] {
      assert keys[p] <= keys[i];
    }
    hide Place;
    SortedAround(keys, v, p);
  }

  lemma SortedAround(keys: seq<nat>, v: nat, p: nat)
    requires Ascending(keys) && p <= |keys|
    requires (forall i :: 0 <= i < p ==> keys[i] <= v) && (forall i :: p <= i < |keys| ==> v < keys[i])
    ensures Ascending(PutAt(keys, p, v))
  {
    hide PutAt;
    var s := PutAt(keys, p, v);
    forall i, j | 0 <= i < j < |s| ensures s[i] <= s[j] {
      if j < p {
        assert keys[i] <= keys[j];
      } else if i > p {
        assert s[i] == keys[i - 1] <= keys[j - 1] == s[j];
      }
    }
  }

  /** A value that no item exceeds goes to the back. */
  lemma PlaceOfGreatest(keys: seq<nat>, v: nat)
    requires forall i :: 0 <= i < |keys| ==> keys[i] <= v
    ensures Place(keys, v) == |keys|
  {
  }

  /** The place is the only one the loop can stop at. */
  lemma PlaceIsFirst(keys: seq<nat>, v: nat, p: nat)
    requires p <= |keys| && (forall i :: 0 <= i < p ==> keys[i] <= v) && (p < |keys| ==> keys[p] > v)
    ensures p == Place(keys, v)
  {
  }
}
