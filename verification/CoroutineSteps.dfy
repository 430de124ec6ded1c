/** Every step of the co-routine scheduler keeps the invariant; what that means for whole runs. */
module CoroutineSteps {
  import T = TimerPlacement
  import opened CursorRing
  import opened SeqSets
  import opened CoroutineSpec
  import opened CoroutineSafety

  // ---- time ----

  lemma NextTick(now: nat)
    ensures T.Wrap(T.Wrap(now) + 1) == T.Wrap(now + 1)
    ensures T.Epoch(now + 1) == T.Epoch(now) + (if T.Wrap(now + 1) == 0 then 1 else 0)
    ensures T.Wrap(now + 1) == 0 ==> T.Wrap(now) == T.WRAP - 1
  {
  }

  lemma SameEpoch(a: nat, b: nat)
    requires T.Epoch(a) == T.Epoch(b)
    ensures a <= b <==> T.Wrap(a) <= T.Wrap(b)
  {
  }

  lemma NextEpoch(a: nat, b: nat)
    requires T.Epoch(a) == T.Epoch(b) + 1
    ensures a > b
  {
  }

  /** A delay goes to the list of the epoch in which it ends, and it ends in the future, exactly if
      it is at least one tick long. */
  lemma DelayPlacedIff(now: nat, ticks: T.Tick)
    ensures var due, wake := now + ticks, T.Wrap(T.Wrap(now) + ticks);
      && wake == T.Wrap(due)
      && (wake < T.Wrap(now) <==> T.Epoch(due) == T.Epoch(now) + 1)
      && (wake >= T.Wrap(now) <==> T.Epoch(due) == T.Epoch(now))
      && (due > now <==> ticks >= 1)
  {
  }

  /** At the last tick of an epoch nothing in this epoch is still to come. */
  lemma LastTick(now: nat, due: nat)
    requires T.Wrap(now) == T.WRAP - 1 && T.Epoch(due) == T.Epoch(now)
    ensures due <= now
  {
    SameEpoch(due, now);
  }

  /** When the counter wraps to 0, the list that is swapped away is empty. */
  lemma DelayedEmptyAtWrap(s: State)
    requires Inv(s) && Enabled(s, Tick) && Next(s, Tick).count == 0
    ensures s.queues[s.cur] == []
  {
    NextTick(s.now);
    hide ReadyOk, QueueOk, EventsOk, WaitersOk, LinkOk, TopOk, OverflowTime, T.Wrap, T.Epoch;
    if s.queues[s.cur] != [] {
      LastTick(s.now, s.queues[s.cur][0].due);
      assert false;
    }
  }

  lemma TickKeeps(s: State)
    requires Inv(s) && Enabled(s, Tick)
    ensures Inv(Next(s, Tick))
  {
    var s' := Next(s, Tick);
    NextTick(s.now);
    if s'.count == 0 { DelayedEmptyAtWrap(s); }
    hide ReadyOk, QueueOk, EventsOk, WaitersOk, LinkOk, TopOk;
    var later := s.queues[1 - s.cur];
    forall i | 0 <= i < |later| ensures later[i].due > s.now {
      NextEpoch(later[i].due, s.now);
    }
  }

  /** A timeout is taken in the very tick it was set for: neither early nor late. */
  lemma ExpireIsExact(s: State)
    requires Inv(s) && Enabled(s, Expire)
    ensures s.queues[s.cur][0].due == s.now
  {
    SameEpoch(s.queues[s.cur][0].due, s.now);
  }

  // ---- lists ----

  lemma TimeDropped(items: seq<Item>, k: nat, now: nat, expiring: bool)
    requires k < |items|
    ensures CurrentTime(items, now, expiring) ==> CurrentTime(DropAt(items, k), now, expiring)
    ensures OverflowTime(items, now) ==> OverflowTime(DropAt(items, k), now)
  {
  }

  lemma TimePut(items: seq<Item>, p: nat, x: Item, now: nat, expiring: bool)
    requires p <= |items|
    ensures CurrentTime(items, now, expiring) && CurrentTime([x], now, expiring) ==>
      CurrentTime(PutAt(items, p, x), now, expiring)
    ensures OverflowTime(items, now) && OverflowTime([x], now) ==> OverflowTime(PutAt(items, p, x), now)
  {
    assert [x][0] == x;
  }

  /** A generic item leaves a delay list. */
  lemma QueueOut(s: State, q: nat, k: nat)
    requires Inv(s) && q < 2 && k < |s.queues[q]|
    ensures var c := s.queues[q][k].id;
      && c < |s.prio| && s.generic[c] == OnQueue(q) && c in Ids(s.queues[q])
      && var g, qs := s.generic[c := Nowhere], s.queues[q := DropAt(s.queues[q], k)];
      && ReadyOk(s.prio, g, s.ready) && QueueOk(g, qs[0], 0) && QueueOk(g, qs[1], 1)
      && CurrentTime(qs[s.cur], s.now, s.expiring) && OverflowTime(qs[1 - s.cur], s.now)
  {
    hide ReadyOk, QueueOk, EventsOk, WaitersOk, LinkOk, TopOk, CurrentTime, OverflowTime;
    QueueRemoved(s.generic, s.queues[q], q, k);
    var c := s.queues[q][k].id;
    assert c == Ids(s.queues[q])[k];
    var g := s.generic[c := Nowhere];
    ReadyStable(s.prio, s.generic, g, s.ready);
    QueueStable(s.generic, g, s.queues[1 - q], 1 - q);
    TimeDropped(s.queues[q], k, s.now, s.expiring);
  }

  /** An event item leaves whatever list it is in; that list does hold it. */
  lemma EventOut(s: State, c: nat)
    requires Inv(s) && c < |s.prio|
    ensures ListedEvent(s, c)
    ensures var s' := RemoveEvent(s, c);
      && s' == s.(event := s.event[c := Free], events := s'.events, pending := s'.pending)
      && |s'.events| == |s.events|
      && EventsOk(s.prio, s'.event, s'.events) && WaitersOk(s'.event, s'.pending, OnPending)
  {
    var s' := RemoveEvent(s, c);
    var ev := s.event[c := Free];
    match s.event[c] {
      case Free =>
        assert ev == s.event;
      case OnEvent(e) =>
        assert c in s.events[e];
        EventRemoved(s.prio, s.event, s.events, e, Index(s.events[e], c), Free);
        WaitersStable(s.event, ev, s.pending, OnPending);
      case OnPending =>
        EventsStable(s.prio, s.event, ev, s.events);
        WaitersRemoved(s.event, s.pending, OnPending, Index(s.pending, c), Free);
    }
  }

  // ---- the steps ----

  lemma ExpireKeeps(s: State)
    requires Inv(s) && Enabled(s, Expire)
    ensures Inv(Next(s, Expire))
  {
    hide ReadyOk, QueueOk, EventsOk, WaitersOk, LinkOk, TopOk, CurrentTime, OverflowTime, RemoveEvent;
    ExpireIsExact(s);
    var it := s.queues[s.cur][0];
    QueueOut(s, s.cur, 0);
    EventOut(s, it.id);
    assert s.queues[s.cur][1..] == DropAt(s.queues[s.cur], 0);
    EventOutOfBoth(s, it.id);
    LinkHeld(s.generic, s.event, |s.events|, s.hand, it.id);
  }

  /** Leaving the delay list does not matter to the event item. */
  lemma EventOutOfBoth(s: State, c: nat)
    requires Shape(s) && s.queues[s.cur] != []
    ensures var u, v := Unqueue(s), RemoveEvent(s, c);
      RemoveEvent(u, c) == u.(event := v.event, events := v.events, pending := v.pending)
  {
    hide Index, DropAt;
  }

  lemma SettleKeeps(s: State)
    requires Inv(s) && Enabled(s, Settle)
    ensures Inv(Next(s, Settle))
  {
    var items := s.queues[s.cur];
    forall i | 0 <= i < |items| ensures items[i].due > s.now {
      assert Values(items)[0] <= Values(items)[i];
      SameEpoch(items[i].due, s.now);
    }
    hide ReadyOk, QueueOk, EventsOk, WaitersOk, LinkOk, TopOk;
  }

  lemma TakePendingKeeps(s: State)
    requires Inv(s) && Enabled(s, TakePending)
    ensures Inv(Next(s, TakePending))
  {
    var c := s.pending[0];
    assert c in s.pending;
    var s' := Next(s, TakePending);
    EventsStable(s.prio, s.event, s'.event, s.events);
    WaitersRemoved(s.event, s.pending, OnPending, 0, Free);
    assert s.pending[1..] == DropAt(s.pending, 0);
    hide ReadyOk, QueueOk, EventsOk, WaitersOk, TopOk, CurrentTime, OverflowTime;
    assert LinkOk(s'.generic, s'.event, |s'.events|, s'.hand);
  }

  lemma DetachKeeps(s: State)
    requires Inv(s) && Enabled(s, Detach)
    ensures ListedGeneric(s, s.hand.id) && Inv(Next(s, Detach))
  {
    hide ReadyOk, QueueOk, EventsOk, WaitersOk, TopOk, CurrentTime, OverflowTime;
    var c := s.hand.id;
    var q := s.generic[c].q;
    InHand(s, c);
    var k := Index(Ids(s.queues[q]), c);
    QueueOut(s, q, k);
    LinkHeld(s.generic, s.event, |s.events|, s.hand, c);
    assert s.event[c := Free] == s.event;
    hide LinkOk;
    assert Next(s, Detach) ==
      s.(generic := s.generic[c := Nowhere], queues := s.queues[q := DropAt(s.queues[q], k)], hand := Held(c));
  }

  lemma InHand(s: State, c: nat)
    requires Inv(s) && c < |s.prio| && s.generic[c].OnQueue?
    ensures s.generic[c].q < 2 && c in Ids(s.queues[s.generic[c].q])
  {
  }

  lemma AddReadyKeeps(s: State, c: nat)
    requires Inv(s) && s.hand == Held(c)
    ensures Inv(AddReady(s, c).(hand := Empty))
  {
    var s' := AddReady(s, c).(hand := Empty);
    ReadyAdded(s.prio, s.generic, s.ready, c);
    QueueStable(s.generic, s'.generic, s.queues[0], 0);
    QueueStable(s.generic, s'.generic, s.queues[1], 1);
    assert TopOk(s'.ready, s'.top);
    assert LinkOk(s'.generic, s'.event, |s'.events|, s'.hand);
    hide ReadyOk, QueueOk, EventsOk, WaitersOk, LinkOk, TopOk, CurrentTime, OverflowTime;
  }

  lemma IsrKeeps(s: State, e: nat)
    requires Inv(s) && Enabled(s, Isr(e))
    ensures Inv(Next(s, Isr(e)))
  {
    var c := s.events[e][0];
    var s' := Next(s, Isr(e));
    assert c in s.events[e];
    EventRemoved(s.prio, s.event, s.events, e, 0, OnPending);
    assert s.events[e][1..] == DropAt(s.events[e], 0);
    PendingAdded(s.event, s.pending, c);
    assert LinkOk(s'.generic, s'.event, |s'.events|, s'.hand);
    hide ReadyOk, QueueOk, EventsOk, WaitersOk, LinkOk, TopOk, CurrentTime, OverflowTime;
  }

  lemma PendingAdded(ev: seq<Event>, pending: seq<nat>, c: nat)
    requires WaitersOk(ev, pending, OnPending) && c < |ev| && ev[c] != OnPending
    ensures WaitersOk(ev[c := OnPending], pending + [c], OnPending)
  {
    PutSet(pending, |pending|, c);
    assert pending + [c] == PutAt(pending, |pending|, c);
  }

  // ---- choosing ----

  /** The search stops at the highest priority that has a ready co-routine, if there is one. */
  lemma {:induction false} HighestIsHighest(s: State, top: nat)
    requires Shape(s) && top < |s.ready|
    ensures var p := HighestReady(s, top);
      && (forall q :: p < q <= top ==> s.ready[q].items == [])
      && (s.ready[p].items == [] ==> p == 0)
    decreases top
  {
    if s.ready[top].items != [] || top == 0 {
    } else {
      HighestIsHighest(s, top - 1);
    }
  }

  /** The co-routine that runs next is ready, no ready co-routine has a higher priority, and among
      its equals it is the one whose turn it is; with nothing ready nothing is chosen. */
  lemma ChoosesHighest(s: State)
    requires Inv(s) && Enabled(s, Choose)
    ensures var s' := Next(s, Choose);
      if exists c :: 0 <= c < |s.prio| && s.generic[c] == OnReady then
        && s.current < |s.prio| && s'.current < |s.prio| && s.generic[s'.current] == OnReady
        && (forall c :: 0 <= c < |s.prio| && s.generic[c] == OnReady ==> s.prio[c] <= s.prio[s'.current])
        && var p := s.prio[s'.current];
        && s.ready[p].items != [] && s'.current == Upcoming(s.ready[p])[0]
        && s'.ready == s.ready[p := Advance(s.ready[p])]
      else
        s'.current == s.current && s'.ready == s.ready
  {
    HighestIsHighest(s, s.top);
    var p := HighestReady(s, s.top);
    forall c | 0 <= c < |s.prio| && s.generic[c] == OnReady ensures s.prio[c] <= p && s.ready[p].items != [] {
      assert ReadyListOk(s.prio, s.generic, s.ready[s.prio[c]], s.prio[c]);
      assert c in s.ready[s.prio[c]].items;
    }
    if s.ready[p].items != [] {
      assert ReadyListOk(s.prio, s.generic, s.ready[p], p);
      AdvanceRotates(s.ready[p]);
      var c := Upcoming(s.ready[p])[0];
      assert Current(Advance(s.ready[p])) in s.ready[p].items;
      assert s.prio[c] == p && s.generic[c] == OnReady;
    }
  }

  /** Moving the cursor of a ready list changes nobody's place. */
  lemma AdvanceStable(prio: seq<nat>, g: seq<Generic>, ready: seq<Ring<nat>>, p: nat)
    requires |g| == |prio| && ReadyOk(prio, g, ready) && p < |ready| && Whole(ready[p]) && ready[p].items != []
    ensures Current(Advance(ready[p])) < |prio|
    ensures ReadyOk(prio, g, ready[p := Advance(ready[p])])
  {
    assert ReadyListOk(prio, g, ready[p], p);
    assert Current(Advance(ready[p])) in ready[p].items;
    var ready' := ready[p := Advance(ready[p])];
    forall q | 0 <= q < |ready'| ensures ReadyListOk(prio, g, ready'[q], q) {
      assert ReadyListOk(prio, g, ready[q], q);
    }
  }

  lemma ChooseKeeps(s: State)
    requires Inv(s) && Enabled(s, Choose)
    ensures Inv(Next(s, Choose))
  {
    HighestIsHighest(s, s.top);
    var p := HighestReady(s, s.top);
    hide ReadyOk, QueueOk, EventsOk, WaitersOk, LinkOk, CurrentTime, OverflowTime, HighestReady;
    assert TopOk(s.ready, p);
    if s.ready[p].items != [] { AdvanceStable(s.prio, s.generic, s.ready, p); }
  }

  // ---- delaying and creating ----

  lemma DelayKeeps(s: State, ticks: T.Tick, ev: int)
    requires Inv(s) && Enabled(s, Delay(ticks, ev))
    ensures ListedGeneric(s, s.current) && Inv(Next(s, Delay(ticks, ev)))
  {
    hide ReadyOk, QueueOk, EventsOk, WaitersOk, LinkOk, TopOk, CurrentTime, OverflowTime, RemoveGeneric, AddDelayed;
    var c := s.current;
    RunningOut(s, c);
    var u := RemoveGeneric(s, c);
    DelayedIn(s, u, ticks);
    var v := AddDelayed(u, c, ticks);
    WaitingOut(s, v.generic, c, ev);
    if ev >= 0 { EventAdded(s.prio, s.event, s.events, ev, c); }
  }

  /** It enters the delay list of the epoch in which its delay ends. */
  lemma DelayedIn(s: State, u: State, ticks: T.Tick)
    requires Shape(s) && s.current < |s.prio| && ticks >= 1 && s.count == T.Wrap(s.now) && !s.expiring
    requires CurrentTime(s.queues[s.cur], s.now, false) && OverflowTime(s.queues[1 - s.cur], s.now)
    requires u == s.(generic := s.generic[s.current := Nowhere], ready := u.ready) && Shape(u)
    requires ReadyOk(s.prio, u.generic, u.ready)
    requires QueueOk(u.generic, s.queues[0], 0) && QueueOk(u.generic, s.queues[1], 1)
    ensures var v := AddDelayed(u, s.current, ticks);
      && v == u.(generic := v.generic, queues := v.queues)
      && |v.generic| == |s.generic| && v.generic[s.current].OnQueue? && v.generic[s.current].q < 2
      && (forall i :: 0 <= i < |v.generic| && i != s.current ==> v.generic[i] == s.generic[i])
      && ReadyOk(s.prio, v.generic, v.ready) && QueueOk(v.generic, v.queues[0], 0) && QueueOk(v.generic, v.queues[1], 1)
      && CurrentTime(v.queues[s.cur], s.now, false) && OverflowTime(v.queues[1 - s.cur], s.now)
  {
    hide ReadyOk, QueueOk, CurrentTime, OverflowTime, InsertItem, DelayQueue, T.Wrap;
    var due, wake := s.now + ticks, T.Wrap(s.count + ticks);
    var q := DelayQueue(u, wake);
    var x := Item(s.current, wake, due);
    SameQueue(s, u, wake);
    DelayItem(s, ticks, x);
    assert AddDelayed(u, s.current, ticks) ==
      u.(generic := u.generic[s.current := OnQueue(q)], queues := u.queues[q := InsertItem(u.queues[q], x)]);
    hide AddDelayed;
    Enqueued(s.prio, u.generic, u.ready, s.queues, q, x);
    TimeInserted(s.queues[q], x, s.now);
  }

  lemma SameQueue(s: State, u: State, wake: T.Tick)
    requires Shape(s) && Shape(u) && u.count == s.count && u.cur == s.cur
    ensures DelayQueue(u, wake) == DelayQueue(s, wake)
    ensures DelayQueue(s, wake) == s.cur || DelayQueue(s, wake) == 1 - s.cur
  {
  }

  /** The list and the new item fit together. */
  lemma DelayItem(s: State, ticks: T.Tick, x: Item)
    requires Shape(s) && ticks >= 1 && s.count == T.Wrap(s.now)
    requires x.value == T.Wrap(s.count + ticks) && x.due == s.now + ticks
    ensures DelayQueue(s, x.value) < 2
    ensures if DelayQueue(s, x.value) == s.cur then CurrentTime([x], s.now, false) else OverflowTime([x], s.now)
  {
    DelayPlacedIff(s.now, ticks);
  }

  lemma Enqueued(prio: seq<nat>, g: seq<Generic>, ready: seq<Ring<nat>>, queues: seq<seq<Item>>, q: nat, x: Item)
    requires |g| == |prio| && |queues| == 2 && q < 2 && x.id < |g| && g[x.id] == Nowhere
    requires ReadyOk(prio, g, ready) && QueueOk(g, queues[0], 0) && QueueOk(g, queues[1], 1)
    ensures var g', qs := g[x.id := OnQueue(q)], queues[q := InsertItem(queues[q], x)];
      ReadyOk(prio, g', ready) && QueueOk(g', qs[0], 0) && QueueOk(g', qs[1], 1)
  {
    hide ReadyOk, QueueOk, InsertItem;
    QueueAdded(g, queues[q], q, x);
    var g' := g[x.id := OnQueue(q)];
    QueueStable(g, g', queues[1 - q], 1 - q);
    ReadyStable(prio, g, g', ready);
  }

  lemma TimeInserted(items: seq<Item>, x: Item, now: nat)
    ensures CurrentTime(items, now, false) && CurrentTime([x], now, false) ==>
      CurrentTime(InsertItem(items, x), now, false)
    ensures OverflowTime(items, now) && OverflowTime([x], now) ==> OverflowTime(InsertItem(items, x), now)
  {
    TimePut(items, Place(Values(items), x.value), x, now, false);
  }

  /** The running co-routine leaves its ready list. */
  lemma RunningOut(s: State, c: nat)
    requires Inv(s) && c < |s.prio| && s.generic[c] == OnReady
    ensures c in s.ready[s.prio[c]].items
    ensures var u := RemoveGeneric(s, c);
      && u == s.(generic := s.generic[c := Nowhere], ready := u.ready)
      && ReadyOk(s.prio, u.generic, u.ready) && TopOk(u.ready, s.top)
      && QueueOk(u.generic, s.queues[0], 0) && QueueOk(u.generic, s.queues[1], 1)
  {
    ReadyRemoved(s.prio, s.generic, s.ready, c);
    var g := s.generic[c := Nowhere];
    QueueStable(s.generic, g, s.queues[0], 0);
    QueueStable(s.generic, g, s.queues[1], 1);
  }

  lemma WaitingOut(s: State, g: seq<Generic>, c: nat, ev: int)
    requires Inv(s) && c < |s.prio| && s.generic[c] == OnReady && ev < |s.events| && s.hand == Empty
    requires |g| == |s.prio| && g[c].OnQueue? && g[c].q < 2
    requires forall i :: 0 <= i < |g| && i != c ==> g[i] == s.generic[i]
    ensures s.event[c] == Free
    ensures var e := if ev >= 0 then s.event[c := OnEvent(ev)] else s.event;
      LinkOk(g, e, |s.events|, Empty) && WaitersOk(e, s.pending, OnPending)
  {
    var e := if ev >= 0 then s.event[c := OnEvent(ev)] else s.event;
    WaitersStable(s.event, e, s.pending, OnPending);
  }

  lemma CreateKeeps(s: State, priority: nat)
    requires Inv(s) && Enabled(s, Create(priority))
    ensures Inv(Next(s, Create(priority)))
  {
    var p := if priority >= |s.ready| then |s.ready| - 1 else priority;
    var c := |s.prio|;
    var t := Allocated(s, priority);
    var u := t.(hand := Held(c));
    NewOk(s, u, p);
    AddReadyKeeps(u, c);
    HandAside(t, c);
    hide Inv, Allocated, AddReady;
  }

  lemma HandAside(t: State, c: nat)
    requires Shape(t) && t.hand == Empty
    ensures AddReady(t.(hand := Held(c)), c).(hand := Empty) == AddReady(t, c)
  {
  }

  lemma KeysGrow(prio: seq<nat>, p: nat, ids: seq<nat>)
    requires forall i :: 0 <= i < |ids| ==> ids[i] < |prio|
    ensures EventKeys(prio + [p], ids) == EventKeys(prio, ids)
  {
  }

  /** A co-routine that is in no list yet disturbs no list. */
  lemma NewOk(s: State, u: State, p: nat)
    requires Inv(s) && s.hand == Empty && p < |s.ready|
    requires u == s.(prio := s.prio + [p], generic := s.generic + [Nowhere], event := s.event + [Free],
                     current := if |s.prio| == 0 then 0 else s.current, hand := Held(|s.prio|))
    ensures Inv(u)
  {
    forall q | 0 <= q < |u.ready| ensures ReadyListOk(u.prio, u.generic, u.ready[q], q) {
      assert ReadyListOk(s.prio, s.generic, s.ready[q], q);
    }
    forall e | 0 <= e < |u.events| ensures Ascending(EventKeys(u.prio, u.events[e])) {
      var ids := s.events[e];
      assert WaitersOk(s.event, ids, OnEvent(e));
      assert forall i :: 0 <= i < |ids| ==> ids[i] in ids;
      KeysGrow(s.prio, p, ids);
    }
    assert EventsOk(u.prio, u.event, u.events);
    assert WaitersOk(u.event, u.pending, OnPending);
    assert QueueOk(u.generic, u.queues[0], 0) && QueueOk(u.generic, u.queues[1], 1);
    assert LinkOk(u.generic, u.event, |u.events|, u.hand);
    hide ReadyOk, QueueOk, EventsOk, WaitersOk, LinkOk, CurrentTime, OverflowTime;
  }

  // ---- runs ----

  lemma StartIsGood(priorities: nat, eventLists: nat)
    requires priorities > 0
    ensures Inv(Start(priorities, eventLists))
  {
  }

  lemma StepKeeps(s: State, st: Step)
    requires Inv(s) && Enabled(s, st)
    ensures Inv(Next(s, st))
  {
    hide Inv, Enabled, Next;
    match st
    case Tick => TickKeeps(s);
    case Expire => ExpireKeeps(s);
    case Settle => SettleKeeps(s);
    case TakePending => TakePendingKeeps(s);
    case Detach => DetachKeeps(s);
    case MakeReady => MakeReadyKeeps(s);
    case Choose => ChooseKeeps(s);
    case Delay(ticks, ev) => DelayKeeps(s, ticks, ev);
    case Isr(e) => IsrKeeps(s, e);
    case Create(priority) => CreateKeeps(s, priority);
  }

  lemma MakeReadyKeeps(s: State)
    requires Inv(s) && Enabled(s, MakeReady)
    ensures Inv(Next(s, MakeReady))
  {
    AddReadyKeeps(s, s.hand.id);
    hide Inv, AddReady;
  }

  /** The invariant holds after every run, however interrupts and main code interleave. */
  lemma {:induction false} RunKeeps(s: State, steps: seq<Step>)
    requires Inv(s) && EnabledRun(s, steps)
    ensures Inv(AfterRun(s, steps))
    decreases |steps|
  {
    hide Inv, Enabled, Next;
    assert Shape(s) by { InvShape(s); }
    if steps == [] {
    } else {
      StepKeeps(s, steps[0]);
      RunKeeps(Next(s, steps[0]), steps[1..]);
    }
  }

  lemma InvShape(s: State)
    requires Inv(s)
    ensures Shape(s)
  {
  }

  /** Exactly one of the ready, delayed and overflow lists holds a co-routine that main code is not
      just moving. */
  lemma ExactlyOneList(s: State, c: nat)
    requires Inv(s) && c < |s.prio| && s.hand == Empty
    ensures ListedGeneric(s, c) && ListedEvent(s, c)
    ensures var r, d, o := c in s.ready[s.prio[c]].items, c in Ids(s.queues[s.cur]), c in Ids(s.queues[1 - s.cur]);
      (r && !d && !o) || (!r && d && !o) || (!r && !d && o)
    ensures forall p :: 0 <= p < |s.ready| && p != s.prio[c] ==> c !in s.ready[p].items
  {
    forall p | 0 <= p < |s.ready| ensures c in s.ready[p].items <==> s.prio[c] == p && s.generic[c] == OnReady {
      assert ReadyListOk(s.prio, s.generic, s.ready[p], p);
    }
  }

  /** From the start, over every run: all timeouts were exact, nobody waits past its time, and every
      co-routine is in exactly one list. */
  lemma RunsAreExact(priorities: nat, eventLists: nat, steps: seq<Step>)
    requires priorities > 0 && EnabledRun(Start(priorities, eventLists), steps)
    ensures var s := AfterRun(Start(priorities, eventLists), steps);
      && WakesExact(s.wakes)
      && (forall q, i :: 0 <= q < 2 && 0 <= i < |s.queues[q]| && !s.expiring ==> s.queues[q][i].due > s.now)
      && (forall c :: 0 <= c < |s.prio| && s.hand == Empty ==> s.generic[c] != Nowhere && ListedGeneric(s, c))
  {
    StartIsGood(priorities, eventLists);
    RunKeeps(Start(priorities, eventLists), steps);
    var s := AfterRun(Start(priorities, eventLists), steps);
    hide Start, AfterRun, EnabledRun;
    NobodyOverdue(s);
    forall c | 0 <= c < |s.prio| && s.hand == Empty ensures s.generic[c] != Nowhere && ListedGeneric(s, c) {
      ExactlyOneList(s, c);
    }
  }

  /** Between two ticks every wake time that is still waited for lies in the future. */
  lemma NobodyOverdue(s: State)
    requires Inv(s)
    ensures WakesExact(s.wakes)
    ensures forall q, i :: 0 <= q < 2 && 0 <= i < |s.queues[q]| && !s.expiring ==> s.queues[q][i].due > s.now
  {
    var c, o := s.queues[s.cur], s.queues[1 - s.cur];
    forall i | 0 <= i < |o| ensures o[i].due > s.now {
      NextEpoch(o[i].due, s.now);
    }
    assert forall i :: 0 <= i < |c| && !s.expiring ==> c[i].due > s.now;
  }

  // ---- on the way to a ready list ----

  /** An interrupt has readied the co-routine, or main code is moving it to its ready list, or it is
      there. */
  ghost predicate OnTheWay(s: State, c: nat) {
    c < |s.event| == |s.generic| &&
    (s.event[c] == OnPending || s.hand == Unblocked(c) || s.hand == Held(c) || s.generic[c] == OnReady)
  }

  ghost predicate IsReady(s: State, c: nat) {
    c < |s.generic| && s.generic[c] == OnReady
  }

  /** Nobody has fallen back on the way to its ready list. */
  ghost predicate NotBehind(s: State, t: State) {
    forall c: nat :: (OnTheWay(s, c) ==> OnTheWay(t, c)) && (IsReady(s, c) ==> IsReady(t, c))
  }

  /** A step that changes the place of one co-routine only, which was and is on the way. */
  lemma OneMoves(s: State, t: State, c: nat)
    requires |s.event| == |s.generic| == |t.event| == |t.generic|
    requires forall i :: 0 <= i < |s.generic| && i != c ==> t.generic[i] == s.generic[i] && t.event[i] == s.event[i]
    requires s.hand == Empty || s.hand == Unblocked(c) || s.hand == Held(c)
    requires OnTheWay(t, c) && (IsReady(s, c) ==> IsReady(t, c))
    ensures NotBehind(s, t)
  {
  }

  lemma ExpireIsOnTheWay(s: State)
    requires Inv(s) && Enabled(s, Expire)
    ensures NotBehind(s, Expired(s))
  {
    hide ReadyOk, QueueOk, EventsOk, WaitersOk, LinkOk, TopOk, CurrentTime, OverflowTime;
    hide RemoveEvent, OnTheWay, IsReady;
    var c := s.queues[s.cur][0].id;
    QueueOut(s, s.cur, 0);
    EventOut(s, c);
    RemoveFacts(Unqueue(s), c);
    InNoReadyList(s, c);
    InHandIsOnTheWay(Expired(s), c);
    OneMoves(s, Expired(s), c);
  }

  lemma RemoveFacts(s: State, c: nat)
    requires Shape(s)
    ensures var t := RemoveEvent(s, c);
      && t.generic == s.generic && |t.event| == |s.event|
      && forall i :: 0 <= i < |s.event| && i != c ==> t.event[i] == s.event[i]
  {
  }

  lemma InNoReadyList(s: State, c: nat)
    requires c < |s.generic| && s.generic[c] != OnReady
    ensures !IsReady(s, c)
  {
  }

  lemma InHandIsOnTheWay(s: State, c: nat)
    requires c < |s.event| == |s.generic| && (s.hand == Unblocked(c) || s.hand == Held(c))
    ensures OnTheWay(s, c)
  {
  }

  lemma UnpendedIsOnTheWay(s: State)
    requires Inv(s) && Enabled(s, TakePending)
    ensures NotBehind(s, Unpended(s))
  {
    hide ReadyOk, QueueOk, EventsOk, LinkOk, TopOk, CurrentTime, OverflowTime;
    assert s.pending[0] in s.pending;
    OneMoves(s, Unpended(s), s.pending[0]);
  }

  lemma DetachedIsOnTheWay(s: State)
    requires Inv(s) && Enabled(s, Detach)
    ensures NotBehind(s, Next(s, Detach))
  {
    hide ReadyOk, QueueOk, EventsOk, WaitersOk, TopOk, CurrentTime, OverflowTime, Index, DropAt, RemoveAt;
    OneMoves(s, Next(s, Detach), s.hand.id);
  }

  lemma MadeReadyIsOnTheWay(s: State)
    requires Inv(s) && Enabled(s, MakeReady)
    ensures NotBehind(s, Next(s, MakeReady))
  {
    hide ReadyOk, QueueOk, EventsOk, WaitersOk, TopOk, CurrentTime, OverflowTime, InsertEnd;
    OneMoves(s, Next(s, MakeReady), s.hand.id);
  }

  lemma SignalledIsOnTheWay(s: State, e: nat)
    requires Inv(s) && Enabled(s, Isr(e))
    ensures NotBehind(s, Signalled(s, e))
  {
    hide ReadyOk, QueueOk, LinkOk, TopOk, CurrentTime, OverflowTime;
    assert s.events[e][0] in s.events[e];
    assert WaitersOk(s.event, s.events[e], OnEvent(e));
  }

  lemma NewcomerIsBehind(s: State, priority: nat)
    requires Shape(s)
    ensures NotBehind(s, AddReady(Allocated(s, priority), |s.prio|))
  {
    hide InsertEnd;
  }

  lemma ChooseIsNeutral(s: State)
    requires Shape(s)
    ensures NotBehind(s, ChooseNext(s))
  {
    hide Advance, HighestReady;
  }

  /** Only the running co-routine ever leaves a ready list, and only when it delays itself. */
  lemma NobodyFallsBack(s: State, st: Step)
    requires Inv(s) && Enabled(s, st) && !st.Delay?
    ensures NotBehind(s, Next(s, st))
  {
    hide Inv, Enabled;
    InvShape(s);
    match st
    case Tick => assert NotBehind(s, Ticked(s));
    case Expire => ExpireIsOnTheWay(s);
    case Settle => assert NotBehind(s, s.(expiring := false));
    case TakePending => UnpendedIsOnTheWay(s);
    case Detach => DetachedIsOnTheWay(s);
    case MakeReady => MadeReadyIsOnTheWay(s);
    case Choose => ChooseIsNeutral(s);
    case Isr(e) => SignalledIsOnTheWay(s, e);
    case Create(priority) => NewcomerIsBehind(s, priority);
  }

  /** With nothing pending and nothing in hand, whoever was on the way has arrived. */
  lemma AllArrived(s: State)
    requires Inv(s) && s.pending == [] && s.hand == Empty
    ensures forall c: nat :: OnTheWay(s, c) ==> IsReady(s, c)
  {
  }
}
