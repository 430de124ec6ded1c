/** The invariant of the co-routine scheduler, over every interleaving of main code and interrupts. */
module CoroutineSafety {
  import T = TimerPlacement
  import opened CursorRing
  import opened SeqSets
  import opened CoroutineSpec

  /** The ready list of a priority holds exactly the ready co-routines of that priority. */
  ghost predicate ReadyOk(prio: seq<nat>, g: seq<Generic>, ready: seq<Ring<nat>>)
    requires |g| == |prio|
  {
    forall p :: 0 <= p < |ready| ==> ReadyListOk(prio, g, ready[p], p)
  }

  ghost predicate ReadyListOk(prio: seq<nat>, g: seq<Generic>, r: Ring<nat>, p: nat)
    requires |g| == |prio|
  {
    && Whole(r) && NoDup(r.items)
    && forall c: nat :: c in r.items <==> c < |prio| && prio[c] == p && g[c] == OnReady
  }

  /** A delay list holds exactly the co-routines that say so, in wake time order. */
  ghost predicate QueueOk(g: seq<Generic>, items: seq<Item>, q: nat) {
    && NoDup(Ids(items)) && Ascending(Values(items))
    && forall c: nat :: c in Ids(items) <==> c < |g| && g[c] == OnQueue(q)
  }

  /** An event list holds exactly the co-routines that say so. */
  ghost predicate WaitersOk(ev: seq<Event>, ids: seq<nat>, place: Event) {
    && NoDup(ids)
    && forall c: nat :: c in ids <==> c < |ev| && ev[c] == place
  }

  /** Event lists are in priority order, so the interrupt readies the most urgent waiter. */
  ghost predicate EventsOk(prio: seq<nat>, ev: seq<Event>, events: seq<seq<nat>>) {
    forall e :: 0 <= e < |events| ==> WaitersOk(ev, events[e], OnEvent(e)) && Ascending(EventKeys(prio, events[e]))
  }

  /** Who waits for an event also waits for a timeout; only the co-routine in hand is in no list. */
  ghost predicate LinkOk(g: seq<Generic>, ev: seq<Event>, lists: nat, hand: Hand)
    requires |g| == |ev|
  {
    && (forall c :: 0 <= c < |g| ==>
      && (ev[c] != Free ==> g[c].OnQueue?)
      && (ev[c].OnEvent? ==> ev[c].e < lists)
      && (g[c].OnQueue? ==> g[c].q < 2)
      && (g[c] == Nowhere ==> hand == Held(c)))
    && (hand.Held? ==> hand.id < |g| && g[hand.id] == Nowhere && ev[hand.id] == Free)
    && (hand.Unblocked? ==> hand.id < |g| && g[hand.id].OnQueue? && ev[hand.id] == Free)
  }

  /** The delayed list holds wake times of this epoch that are still to come (or due right now,
      while expired timeouts are being looked for). */
  ghost predicate CurrentTime(items: seq<Item>, now: nat, expiring: bool) {
    forall i :: 0 <= i < |items| ==> var it := items[i];
      && it.value == T.Wrap(it.due) && T.Epoch(it.due) == T.Epoch(now)
      && (it.due > now || (expiring && it.due == now))
  }

  /** The overflow list holds wake times of the next epoch. */
  ghost predicate OverflowTime(items: seq<Item>, now: nat) {
    forall i :: 0 <= i < |items| ==>
      items[i].value == T.Wrap(items[i].due) && T.Epoch(items[i].due) == T.Epoch(now) + 1
  }

  ghost predicate TopOk(ready: seq<Ring<nat>>, top: nat) {
    forall p :: top < p < |ready| ==> ready[p].items == []
  }

  /** Every timeout was noticed in the very tick it was set for. */
  ghost predicate WakesExact(wakes: seq<Wake>) {
    forall i :: 0 <= i < |wakes| ==> wakes[i].due == wakes[i].at
  }

  ghost predicate Inv(s: State): (good: bool)
    ensures good ==> Shape(s)
  {
    && Shape(s)
    && ReadyOk(s.prio, s.generic, s.ready) && TopOk(s.ready, s.top)
    && QueueOk(s.generic, s.queues[0], 0) && QueueOk(s.generic, s.queues[1], 1)
    && EventsOk(s.prio, s.event, s.events) && WaitersOk(s.event, s.pending, OnPending)
    && LinkOk(s.generic, s.event, |s.events|, s.hand)
    && CurrentTime(s.queues[s.cur], s.now, s.expiring) && OverflowTime(s.queues[1 - s.cur], s.now)
    && s.count == T.Wrap(s.now)
    && WakesExact(s.wakes)
    && (|s.prio| > 0 ==> s.current < |s.prio|)
  }

  // ---- lists in which nothing changes ----

  lemma ReadyStable(prio: seq<nat>, g: seq<Generic>, g': seq<Generic>, ready: seq<Ring<nat>>)
    requires |g| == |g'| == |prio| && ReadyOk(prio, g, ready)
    requires forall c :: 0 <= c < |g| ==> (g[c] == OnReady <==> g'[c] == OnReady)
    ensures ReadyOk(prio, g', ready)
  {
    forall p | 0 <= p < |ready| ensures ReadyListOk(prio, g', ready[p], p) {
      assert ReadyListOk(prio, g, ready[p], p);
    }
  }

  lemma QueueStable(g: seq<Generic>, g': seq<Generic>, items: seq<Item>, q: nat)
    requires |g| == |g'| && QueueOk(g, items, q)
    requires forall c :: 0 <= c < |g| ==> (g[c] == OnQueue(q) <==> g'[c] == OnQueue(q))
    ensures QueueOk(g', items, q)
  {
  }

  // ---- one list changes ----

  lemma ReadyRemoved(prio: seq<nat>, g: seq<Generic>, ready: seq<Ring<nat>>, c: nat)
    requires |g| == |prio| && ReadyOk(prio, g, ready) && c < |g| && g[c] == OnReady && prio[c] < |ready|
    ensures c in ready[prio[c]].items
    ensures var r := ready[prio[c]];
      ReadyOk(prio, g[c := Nowhere], ready[prio[c] := RemoveAt(r, Index(r.items, c))])
  {
    var p := prio[c];
    assert ReadyListOk(prio, g, ready[p], p);
    var r := ready[p];
    DropSet(r.items, Index(r.items, c));
    assert RemoveAt(r, Index(r.items, c)).items == DropAt(r.items, Index(r.items, c));
    var ready' := ready[p := RemoveAt(r, Index(r.items, c))];
    forall k | 0 <= k < |ready'| ensures ReadyListOk(prio, g[c := Nowhere], ready'[k], k) {
      assert ReadyListOk(prio, g, ready[k], k);
    }
  }

  lemma ReadyAdded(prio: seq<nat>, g: seq<Generic>, ready: seq<Ring<nat>>, c: nat)
    requires |g| == |prio| && ReadyOk(prio, g, ready) && c < |g| && g[c] != OnReady && prio[c] < |ready|
    requires Whole(ready[prio[c]])
    ensures ReadyOk(prio, g[c := OnReady], ready[prio[c] := InsertEnd(ready[prio[c]], c)])
  {
    var p := prio[c];
    assert ReadyListOk(prio, g, ready[p], p);
    var r := ready[p];
    PutSet(r.items, r.at, c);
    assert InsertEnd(r, c).items == PutAt(r.items, r.at, c);
    var ready' := ready[p := InsertEnd(r, c)];
    forall k | 0 <= k < |ready'| ensures ReadyListOk(prio, g[c := OnReady], ready'[k], k) {
      assert ReadyListOk(prio, g, ready[k], k);
    }
  }

  lemma AscendingDrop(keys: seq<nat>, k: nat)
    requires Ascending(keys) && k < |keys|
    ensures Ascending(DropAt(keys, k))
  {
  }

  lemma QueueRemoved(g: seq<Generic>, items: seq<Item>, q: nat, k: nat)
    requires QueueOk(g, items, q) && k < |items|
    ensures items[k].id < |g| && g[items[k].id] == OnQueue(q)
    ensures QueueOk(g[items[k].id := Nowhere], DropAt(items, k), q)
  {
    var c := items[k].id;
    assert c == Ids(items)[k] && c in Ids(items);
    DropSet(Ids(items), k);
    AscendingDrop(Values(items), k);
    assert Ids(DropAt(items, k)) == DropAt(Ids(items), k);
    assert Values(DropAt(items, k)) == DropAt(Values(items), k);
  }

  lemma QueueAdded(g: seq<Generic>, items: seq<Item>, q: nat, x: Item)
    requires QueueOk(g, items, q) && x.id < |g| && g[x.id] != OnQueue(q)
    ensures QueueOk(g[x.id := OnQueue(q)], InsertItem(items, x), q)
  {
    var p := Place(Values(items), x.value);
    PutSet(Ids(items), p, x.id);
    PlaceKeepsSorted(Values(items), x.value);
    hide Place;
    PutParts(items, p, x);
  }

  lemma PutParts(items: seq<Item>, p: nat, x: Item)
    requires p <= |items|
    ensures Ids(PutAt(items, p, x)) == PutAt(Ids(items), p, x.id)
    ensures Values(PutAt(items, p, x)) == PutAt(Values(items), p, x.value)
  {
    assert Ids(PutAt(items, p, x)) == PutAt(Ids(items), p, x.id);
    assert Values(PutAt(items, p, x)) == PutAt(Values(items), p, x.value);
  }

  lemma WaitersRemoved(ev: seq<Event>, ids: seq<nat>, place: Event, k: nat, u: Event)
    requires WaitersOk(ev, ids, place) && k < |ids| && u != place
    ensures ids[k] < |ev| && ev[ids[k]] == place
    ensures WaitersOk(ev[ids[k] := u], DropAt(ids, k), place)
  {
    DropSet(ids, k);
    assert ids[k] in ids;
  }

  lemma WaitersStable(ev: seq<Event>, ev': seq<Event>, ids: seq<nat>, place: Event)
    requires |ev| == |ev'| && WaitersOk(ev, ids, place)
    requires forall c :: 0 <= c < |ev| ==> (ev[c] == place <==> ev'[c] == place)
    ensures WaitersOk(ev', ids, place)
  {
  }

  lemma EventsStable(prio: seq<nat>, ev: seq<Event>, ev': seq<Event>, events: seq<seq<nat>>)
    requires |ev| == |ev'| && EventsOk(prio, ev, events)
    requires forall c :: 0 <= c < |ev| ==> (ev[c].OnEvent? || ev'[c].OnEvent? ==> ev[c] == ev'[c])
    ensures EventsOk(prio, ev', events)
  {
    forall e | 0 <= e < |events| ensures WaitersOk(ev', events[e], OnEvent(e)) {
      WaitersStable(ev, ev', events[e], OnEvent(e));
    }
  }

  /** One event list loses its k-th waiter. */
  lemma EventRemoved(prio: seq<nat>, ev: seq<Event>, events: seq<seq<nat>>, e: nat, k: nat, u: Event)
    requires EventsOk(prio, ev, events) && e < |events| && k < |events[e]| && !u.OnEvent?
    ensures events[e][k] < |ev| && ev[events[e][k]] == OnEvent(e)
    ensures EventsOk(prio, ev[events[e][k] := u], events[e := DropAt(events[e], k)])
  {
    var c := events[e][k];
    WaitersRemoved(ev, events[e], OnEvent(e), k, u);
    AscendingDrop(EventKeys(prio, events[e]), k);
    assert EventKeys(prio, DropAt(events[e], k)) == DropAt(EventKeys(prio, events[e]), k);
    var events' := events[e := DropAt(events[e], k)];
    forall i | 0 <= i < |events'| ensures WaitersOk(ev[c := u], events'[i], OnEvent(i)) {
      if i != e { WaitersStable(ev, ev[c := u], events[i], OnEvent(i)); }
    }
  }

  /** One event list gets another waiter. */
  lemma EventAdded(prio: seq<nat>, ev: seq<Event>, events: seq<seq<nat>>, e: nat, c: nat)
    requires EventsOk(prio, ev, events) && e < |events| && c < |ev| && ev[c] == Free
    ensures EventsOk(prio, ev[c := OnEvent(e)], events[e := InsertWaiter(prio, events[e], c)])
  {
    WaitersAdded(prio, ev, events[e], OnEvent(e), c);
    hide InsertWaiter, WaitersOk, Ascending;
    var events' := events[e := InsertWaiter(prio, events[e], c)];
    forall i | 0 <= i < |events'| ensures
      WaitersOk(ev[c := OnEvent(e)], events'[i], OnEvent(i)) && Ascending(EventKeys(prio, events'[i]))
    {
      if i != e { WaitersStable(ev, ev[c := OnEvent(e)], events[i], OnEvent(i)); }
    }
  }

  lemma WaitersAdded(prio: seq<nat>, ev: seq<Event>, ids: seq<nat>, place: Event, c: nat)
    requires WaitersOk(ev, ids, place) && Ascending(EventKeys(prio, ids)) && c < |ev| && ev[c] == Free && place != Free
    ensures WaitersOk(ev[c := place], InsertWaiter(prio, ids, c), place)
    ensures Ascending(EventKeys(prio, InsertWaiter(prio, ids, c)))
  {
    hide EventKey;
    var p := Place(EventKeys(prio, ids), EventKey(prio, c));
    PutSet(ids, p, c);
    PlaceKeepsSorted(EventKeys(prio, ids), EventKey(prio, c));
    hide Place;
    KeysPut(prio, ids, p, c);
  }

  lemma KeysPut(prio: seq<nat>, ids: seq<nat>, p: nat, c: nat)
    requires p <= |ids|
    ensures EventKeys(prio, PutAt(ids, p, c)) == PutAt(EventKeys(prio, ids), p, EventKey(prio, c))
  {
    assert EventKeys(prio, PutAt(ids, p, c)) == PutAt(EventKeys(prio, ids), p, EventKey(prio, c));
  }

  /** A co-routine that leaves all its lists is in hand. */
  lemma LinkHeld(g: seq<Generic>, ev: seq<Event>, lists: nat, hand: Hand, c: nat)
    requires |g| == |ev| && LinkOk(g, ev, lists, hand) && c < |g| && (hand == Empty || hand == Unblocked(c))
    ensures LinkOk(g[c := Nowhere], ev[c := Free], lists, Held(c))
  {
  }
}
