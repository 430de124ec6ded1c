/** What the steps of the co-routine scheduler achieve, and when a delay ends. */
module CoroutineRuns {
  import T = TimerPlacement
  import opened CursorRing
  import opened SeqSets
  import opened CoroutineSpec
  import opened CoroutineSafety
  import opened CoroutineSteps

  // ---- single steps ----

  /** The co-routine waits in a delay list for time `due`, and that list holds it only once. */
  ghost predicate Sleeps(s: State, c: nat, due: nat) {
    && c < |s.generic| && s.generic[c].OnQueue? && s.generic[c].q < |s.queues|
    && Item(c, T.Wrap(due), due) in s.queues[s.generic[c].q]
    && forall x :: x in s.queues[s.generic[c].q] && x.id == c ==> x == Item(c, T.Wrap(due), due)
  }

  /** A delay lasts as many ticks as were asked for, and the co-routine waits for its event. */
  ghost predicate FellAsleep(s: State, s': State, ticks: nat, ev: int) {
    var c := s.current;
    && c < |s.event| == |s'.event| && Sleeps(s', c, s.now + ticks)
    && (forall p :: 0 <= p < |s'.ready| ==> c !in s'.ready[p].items)
    && s'.event[c] == (if ev >= 0 then OnEvent(ev) else Free)
    && (ev >= 0 ==> ev < |s'.events| && c in s'.events[ev])
    && s'.now == s.now && s'.wakes == s.wakes && s'.pending == s.pending && s'.hand == s.hand
  }

  lemma DelayIs(s: State, ticks: T.Tick, ev: int)
    requires Inv(s) && Enabled(s, Delay(ticks, ev))
    ensures FellAsleep(s, Next(s, Delay(ticks, ev)), ticks, ev)
  {
    hide ReadyOk, QueueOk, EventsOk, WaitersOk, LinkOk, TopOk, CurrentTime, OverflowTime;
    hide RemoveGeneric, AddDelayed, AddWaiter, Sleeps;
    var c := s.current;
    RunningOut(s, c);
    RunningIsFree(s, c);
    var u := RemoveGeneric(s, c);
    var v := AddDelayed(u, c, ticks);
    EntersQueue(u, c, ticks);
    var s' := AddWaiter(v, c, ev);
    Waits(v, c, ev);
    DelayKeeps(s, ticks, ev);
    OneItem(s', c, s.now + ticks);
    InOneList(s', c);
  }

  lemma RunningIsFree(s: State, c: nat)
    requires Inv(s) && c < |s.prio| && s.generic[c] == OnReady
    ensures s.event[c] == Free
  {
    hide ReadyOk, QueueOk, EventsOk, WaitersOk, TopOk, CurrentTime, OverflowTime;
  }

  lemma EntersQueue(u: State, c: nat, ticks: T.Tick)
    requires Shape(u) && c < |u.prio| && u.count == T.Wrap(u.now)
    ensures var v := AddDelayed(u, c, ticks);
      && v == u.(generic := v.generic, queues := v.queues)
      && v.generic[c].OnQueue? && v.generic[c].q < 2
      && Item(c, T.Wrap(u.now + ticks), u.now + ticks) in v.queues[v.generic[c].q]
  {
    hide T.Wrap, Place;
    DelayPlacedIff(u.now, ticks);
    var q := DelayQueue(u, T.Wrap(u.count + ticks));
    var x := Item(c, T.Wrap(u.count + ticks), u.now + ticks);
    var p := Place(Values(u.queues[q]), x.value);
    assert InsertItem(u.queues[q], x)[p] == x;
  }

  lemma Waits(v: State, c: nat, ev: int)
    requires Shape(v) && c < |v.prio| && ev < |v.events| && v.event[c] == Free
    ensures var t := AddWaiter(v, c, ev);
      && t == v.(event := t.event, events := t.events) && |t.events| == |v.events|
      && |t.event| == |v.event| && t.event[c] == (if ev >= 0 then OnEvent(ev) else Free)
      && (ev >= 0 ==> c in t.events[ev])
  {
    hide Place;
    if ev >= 0 {
      var p := Place(EventKeys(v.prio, v.events[ev]), EventKey(v.prio, c));
      assert InsertWaiter(v.prio, v.events[ev], c)[p] == c;
    }
  }

  lemma OneItem(s: State, c: nat, due: nat)
    requires Inv(s) && c < |s.prio| && s.generic[c].OnQueue? && s.generic[c].q < 2
    requires Item(c, T.Wrap(due), due) in s.queues[s.generic[c].q]
    ensures Sleeps(s, c, due)
  {
    var items := s.queues[s.generic[c].q];
    var it := Item(c, T.Wrap(due), due);
    assert NoDup(Ids(items));
    hide Inv;
    var i :| 0 <= i < |items| && items[i] == it;
    forall x | x in items && x.id == c ensures x == it {
      var j :| 0 <= j < |items| && items[j] == x;
      assert Ids(items)[i] == Ids(items)[j];
    }
  }

  lemma InOneList(s: State, c: nat)
    requires Inv(s) && c < |s.prio| && s.generic[c] != OnReady
    ensures forall p :: 0 <= p < |s.ready| ==> c !in s.ready[p].items
  {
    forall p | 0 <= p < |s.ready| ensures c !in s.ready[p].items {
      assert ReadyListOk(s.prio, s.generic, s.ready[p], p);
    }
  }

  /** A co-routine that becomes ready is the last of its priority in the round. */
  lemma ReadyIsLast(s: State)
    requires Inv(s) && Enabled(s, MakeReady)
    ensures var s', c := Next(s, MakeReady), s.hand.id;
      && c < |s.prio| && s.prio[c] < |s.ready| == |s'.ready| && s'.generic == s.generic[c := OnReady]
      && (forall p :: 0 <= p < |s.ready| && p != s.prio[c] ==> s'.ready[p] == s.ready[p])
      && Upcoming(s'.ready[s.prio[c]]) == Upcoming(s.ready[s.prio[c]]) + [c]
      && s'.top >= s.prio[c] && s'.top >= s.top
  {
    hide ReadyOk, QueueOk, EventsOk, WaitersOk, TopOk, CurrentTime, OverflowTime;
    InsertEndIsLast(s.ready[s.prio[s.hand.id]], s.hand.id);
  }

  /** A new co-routine gets the priority asked for, or the highest there is, and is ready, the last of
      its priority in the round. */
  lemma CreateIs(s: State, priority: nat)
    requires Inv(s) && Enabled(s, Create(priority))
    ensures var s', c := Next(s, Create(priority)), |s.prio|;
      && |s'.prio| == c + 1 && s'.prio[..c] == s.prio && IsReady(s', c)
      && s'.prio[c] == (if priority < |s.ready| then priority else |s.ready| - 1)
      && |s'.ready| == |s.ready|
      && (forall p :: 0 <= p < |s.ready| && p != s'.prio[c] ==> s'.ready[p] == s.ready[p])
      && Whole(s'.ready[s'.prio[c]]) && Upcoming(s'.ready[s'.prio[c]]) == Upcoming(s.ready[s'.prio[c]]) + [c]
      && s'.generic[..c] == s.generic && s'.event == s.event + [Free] && (c > 0 ==> s'.current == s.current)
  {
    hide ReadyOk, QueueOk, EventsOk, WaitersOk, LinkOk, TopOk, CurrentTime, OverflowTime;
    InsertEndIsLast(s.ready[if priority < |s.ready| then priority else |s.ready| - 1], |s.prio|);
  }

  /** The first waiter of an event list is the most urgent one. */
  lemma MostUrgentFirst(s: State, e: nat)
    requires Inv(s) && |s.ready| <= MAX_PRIORITIES + 1 && e < |s.events| && s.events[e] != []
    ensures s.events[e][0] < |s.prio|
    ensures forall c :: c in s.events[e] ==> c < |s.prio| && s.prio[c] <= s.prio[s.events[e][0]]
  {
    var ids := s.events[e];
    assert WaitersOk(s.event, ids, OnEvent(e)) && Ascending(EventKeys(s.prio, ids));
    assert ids[0] in ids;
    forall c | c in ids ensures c < |s.prio| && s.prio[c] <= s.prio[ids[0]] {
      var i :| 0 <= i < |ids| && ids[i] == c;
      assert EventKeys(s.prio, ids)[0] <= EventKeys(s.prio, ids)[i];
    }
  }

  /** An event readies the first waiter of its list: it joins the pending co-routines as the last. */
  lemma SignalIs(s: State, e: nat)
    requires Inv(s) && Enabled(s, Isr(e))
    ensures var s', c := Next(s, Isr(e)), s.events[e][0];
      && c < |s.event| && s'.event == s.event[c := OnPending]
      && s.events[e] == [c] + s'.events[e] && s'.pending == s.pending + [c]
      && s' == s.(event := s'.event, events := s.events[e := s'.events[e]], pending := s'.pending)
  {
    assert s.events[e][0] in s.events[e];
    assert WaitersOk(s.event, s.events[e], OnEvent(e));
    hide Inv;
  }

  // ---- when a delay ends ----

  /** Some interrupt of the run readies the co-routine. */
  predicate SignalledIn(s: State, steps: seq<Step>, c: nat)
    requires Shape(s) && EnabledRun(s, steps)
    decreases |steps|
  {
    steps != [] &&
    ((steps[0].Isr? && s.events[steps[0].e][0] == c) || SignalledIn(Next(s, steps[0]), steps[1..], c))
  }

  /** From record `base` on, the first timeout of the co-routine is the one at `due`. */
  ghost predicate WokeAt(wakes: seq<Wake>, base: nat, c: nat, due: nat) {
    exists i :: base <= i < |wakes| && wakes[i] == Wake(c, due, due) && NotBefore(wakes, base, i, c)
  }

  ghost predicate NotBefore(wakes: seq<Wake>, base: nat, i: nat, c: nat) {
    base <= i <= |wakes| && forall j :: base <= j < i ==> wakes[j].id != c
  }

  /** The co-routine has not been woken since record `base`, and no interrupt has readied it. */
  ghost predicate StillAsleep(s: State, base: nat, c: nat, due: nat) {
    && Sleeps(s, c, due) && |s.event| == |s.generic| && s.event[c] != OnPending && s.hand != Unblocked(c)
    && NotBefore(s.wakes, base, |s.wakes|, c)
  }

  lemma WokeStays(wakes: seq<Wake>, more: seq<Wake>, base: nat, c: nat, due: nat)
    requires WokeAt(wakes, base, c, due) && wakes <= more
    ensures WokeAt(more, base, c, due)
  {
    var i :| base <= i < |wakes| && wakes[i] == Wake(c, due, due) && NotBefore(wakes, base, i, c);
    assert more[i] == wakes[i] && NotBefore(more, base, i, c);
  }

  /** What a step records it records at the present time. */
  lemma WakesGrow(s: State, st: Step)
    requires Shape(s) && Enabled(s, st)
    ensures var t := Next(s, st);
      s.wakes <= t.wakes && s.now <= t.now && forall i :: |s.wakes| <= i < |t.wakes| ==> t.wakes[i].at == s.now
  {
    hide SetGeneric, SetEvent, RemoveGeneric, RemoveEvent, AddReady, AddDelayed, AddWaiter, HighestReady, Advance;
  }

  /** Nothing happens to the co-routine: its items stay where they are. */
  lemma Undisturbed(s: State, t: State, base: nat, c: nat, due: nat)
    requires StillAsleep(s, base, c, due)
    requires |t.generic| == |t.event| >= |s.generic| && t.generic[c] == s.generic[c] && t.event[c] == s.event[c]
    requires t.hand != Unblocked(c) && NotBefore(t.wakes, base, |t.wakes|, c)
    requires |t.queues| == |s.queues|
    requires var q := s.generic[c].q;
      forall x: Item :: x.id == c ==> (x in t.queues[q] <==> x in s.queues[q])
    ensures StillAsleep(t, base, c, due)
  {
  }

  lemma DropOther(items: seq<Item>, k: nat, c: nat)
    requires k < |items| && items[k].id != c
    ensures forall x: Item :: x.id == c ==> (x in DropAt(items, k) <==> x in items)
  {
    assert items == items[..k] + [items[k]] + items[k + 1..];
  }

  lemma PutOther(items: seq<Item>, y: Item, c: nat)
    requires y.id != c
    ensures forall x: Item :: x.id == c ==> (x in InsertItem(items, y) <==> x in items)
  {
    hide Place;
    var p := Place(Values(items), y.value);
    assert items == items[..p] + items[p..];
  }

  lemma ExpireWakes(s: State, base: nat, c: nat, due: nat)
    requires Inv(s) && Enabled(s, Expire) && StillAsleep(s, base, c, due)
    ensures var t := Next(s, Expire); StillAsleep(t, base, c, due) || WokeAt(t.wakes, base, c, due)
  {
    hide ReadyOk, QueueOk, EventsOk, WaitersOk, LinkOk, TopOk, CurrentTime, OverflowTime, RemoveEvent, Sleeps;
    var it, t := s.queues[s.cur][0], Next(s, Expire);
    ExpireIsExact(s);
    QueueOut(s, s.cur, 0);
    EventOut(s, it.id);
    RemoveFacts(Unqueue(s), it.id);
    EventOutOfBoth(s, it.id);
    if it.id == c {
      assert it == Item(c, T.Wrap(due), due) by { ItsItem(s, c, due, it); }
      assert t.wakes[|s.wakes|] == Wake(c, due, due) && NotBefore(t.wakes, base, |s.wakes|, c);
    } else {
      assert s.queues[s.cur][1..] == DropAt(s.queues[s.cur], 0);
      DropOther(s.queues[s.cur], 0, c);
      SleepKnown(s, c, due);
      Undisturbed(s, t, base, c, due);
    }
  }

  lemma ItsItem(s: State, c: nat, due: nat, it: Item)
    requires Sleeps(s, c, due) && s.generic[c] == OnQueue(s.cur)
    requires s.cur < |s.queues| && it in s.queues[s.cur] && it.id == c
    ensures it == Item(c, T.Wrap(due), due)
  {
  }

  lemma SleepKnown(s: State, c: nat, due: nat)
    requires Sleeps(s, c, due)
    ensures c < |s.generic| && s.generic[c].OnQueue? && s.generic[c].q < |s.queues|
  {
  }

  lemma OthersMove(s: State, st: Step, base: nat, c: nat, due: nat)
    requires Inv(s) && Enabled(s, st) && StillAsleep(s, base, c, due) && !st.Expire? && !st.Delay? && !st.Detach?
    requires st.Isr? ==> s.events[st.e][0] != c
    ensures StillAsleep(Next(s, st), base, c, due)
  {
    hide ReadyOk, QueueOk, EventsOk, TopOk, CurrentTime, OverflowTime, Sleeps;
    hide InsertEnd, HighestReady, Advance, Current;
    SleepKnown(s, c, due);
    match st
    case Tick => Undisturbed(s, Next(s, st), base, c, due);
    case Settle => Undisturbed(s, Next(s, st), base, c, due);
    case TakePending =>
      assert s.pending[0] in s.pending;
      Undisturbed(s, Next(s, st), base, c, due);
    case MakeReady => Undisturbed(s, Next(s, st), base, c, due);
    case Choose => Undisturbed(s, Next(s, st), base, c, due);
    case Isr(e) => Undisturbed(s, Next(s, st), base, c, due);
    case Create(priority) => Undisturbed(s, Next(s, st), base, c, due);
  }

  lemma DetachMoves(s: State, base: nat, c: nat, due: nat)
    requires Inv(s) && Enabled(s, Detach) && StillAsleep(s, base, c, due)
    ensures StillAsleep(Next(s, Detach), base, c, due)
  {
    hide ReadyOk, EventsOk, WaitersOk, TopOk, CurrentTime, OverflowTime, Sleeps, Index, DropAt;
    SleepKnown(s, c, due);
    var h := s.hand.id;
    var q := s.generic[h].q;
    DropOther(s.queues[q], Index(Ids(s.queues[q]), h), c);
    Undisturbed(s, Next(s, Detach), base, c, due);
  }

  lemma DelayMoves(s: State, ticks: T.Tick, ev: int, base: nat, c: nat, due: nat)
    requires Inv(s) && Enabled(s, Delay(ticks, ev)) && StillAsleep(s, base, c, due)
    ensures StillAsleep(Next(s, Delay(ticks, ev)), base, c, due)
  {
    hide ReadyOk, QueueOk, EventsOk, WaitersOk, LinkOk, TopOk, CurrentTime, OverflowTime, Sleeps;
    hide RemoveGeneric, InsertItem, T.Wrap, InsertWaiter;
    SleepKnown(s, c, due);
    var r := s.current;
    RunningOut(s, r);
    var u := RemoveGeneric(s, r);
    var wake := T.Wrap(u.count + ticks);
    PutOther(u.queues[DelayQueue(u, wake)], Item(r, wake, u.now + ticks), c);
    Undisturbed(s, Next(s, Delay(ticks, ev)), base, c, due);
  }

  lemma StepAsleep(s: State, st: Step, base: nat, c: nat, due: nat)
    requires Inv(s) && Enabled(s, st) && StillAsleep(s, base, c, due)
    requires st.Isr? ==> s.events[st.e][0] != c
    ensures var t := Next(s, st); StillAsleep(t, base, c, due) || WokeAt(t.wakes, base, c, due)
  {
    hide Inv, Enabled, Next, StillAsleep, WokeAt;
    match st
    case Expire => ExpireWakes(s, base, c, due);
    case Detach => DetachMoves(s, base, c, due);
    case Delay(ticks, ev) => DelayMoves(s, ticks, ev, base, c, due);
    case _ => OthersMove(s, st, base, c, due);
  }

  lemma {:induction false} RunAsleep(s: State, steps: seq<Step>, base: nat, c: nat, due: nat)
    requires Inv(s) && EnabledRun(s, steps) && !SignalledIn(s, steps, c)
    requires (StillAsleep(s, base, c, due) && s.now <= due) || (WokeAt(s.wakes, base, c, due) && s.now >= due)
    ensures var e := AfterRun(s, steps);
      (StillAsleep(e, base, c, due) && e.now <= due) || (WokeAt(e.wakes, base, c, due) && e.now >= due)
    decreases |steps|
  {
    hide Inv, Enabled, Next, StillAsleep, WokeAt;
    if steps == [] {
    } else {
      InvShape(s);
      StepKeeps(s, steps[0]);
      WakesGrow(s, steps[0]);
      var t := Next(s, steps[0]);
      if WokeAt(s.wakes, base, c, due) && s.now >= due {
        WokeStays(s.wakes, t.wakes, base, c, due);
      } else {
        StepAsleep(s, steps[0], base, c, due);
        if StillAsleep(t, base, c, due) {
          NotOverdue(t, base, c, due);
        } else {
          NoTimePasses(s, steps[0], base, c, due);
        }
      }
      RunAsleep(t, steps[1..], base, c, due);
    }
  }

  /** Nobody sleeps past its time. */
  lemma NotOverdue(s: State, base: nat, c: nat, due: nat)
    requires Inv(s) && StillAsleep(s, base, c, due)
    ensures s.now <= due && (s.now == due ==> s.expiring)
  {
    var q := s.generic[c].q;
    var items := s.queues[q];
    var i :| 0 <= i < |items| && items[i] == Item(c, T.Wrap(due), due);
    if q == s.cur {
      assert items[i].due > s.now || (s.expiring && items[i].due == s.now);
    } else {
      assert T.Epoch(items[i].due) == T.Epoch(s.now) + 1;
      NextEpoch(items[i].due, s.now);
    }
  }

  /** The step that wakes a co-routine takes place at the time it is due. */
  lemma NoTimePasses(s: State, st: Step, base: nat, c: nat, due: nat)
    requires Inv(s) && Enabled(s, st) && StillAsleep(s, base, c, due) && WokeAt(Next(s, st).wakes, base, c, due)
    ensures Next(s, st).now >= due
  {
    hide Inv, Enabled, Next, Sleeps;
    InvShape(s);
    WakesGrow(s, st);
    var t := Next(s, st);
    var i :| base <= i < |t.wakes| && t.wakes[i] == Wake(c, due, due) && NotBefore(t.wakes, base, i, c);
    assert i >= |s.wakes|;
  }

  /** A delay of `ticks` that no event cuts short ends exactly `ticks` later, over every run: until then
      the co-routine sleeps, and as soon as the scheduler has dealt with that tick it has been woken, at
      that very time and for no other reason. */
  lemma DelayEndsOnTime(s: State, ticks: T.Tick, ev: int, steps: seq<Step>)
    requires Inv(s) && Enabled(s, Delay(ticks, ev)) && EnabledRun(Next(s, Delay(ticks, ev)), steps)
    requires !SignalledIn(Next(s, Delay(ticks, ev)), steps, s.current)
    ensures var e, due := AfterRun(Next(s, Delay(ticks, ev)), steps), s.now + ticks;
      && (e.now < due ==> Sleeps(e, s.current, due))
      && (e.now > due || (e.now == due && !e.expiring) ==> WokeAt(e.wakes, |s.wakes|, s.current, due))
  {
    hide Inv, Enabled, Next, FellAsleep, WokeAt, Sleeps;
    var t, c, due := Next(s, Delay(ticks, ev)), s.current, s.now + ticks;
    DelayIs(s, ticks, ev);
    StepKeeps(s, Delay(ticks, ev));
    JustAsleep(s, t, ticks, ev);
    RunAsleep(t, steps, |s.wakes|, c, due);
    var e := AfterRun(t, steps);
    RunKeeps(t, steps);
    if StillAsleep(e, |s.wakes|, c, due) { NotOverdue(e, |s.wakes|, c, due); }
  }

  lemma JustAsleep(s: State, t: State, ticks: T.Tick, ev: int)
    requires Inv(s) && Enabled(s, Delay(ticks, ev)) && t == Next(s, Delay(ticks, ev)) && FellAsleep(s, t, ticks, ev)
    ensures StillAsleep(t, |s.wakes|, s.current, s.now + ticks) && t.now <= s.now + ticks
  {
    hide ReadyOk, QueueOk, EventsOk, WaitersOk, LinkOk, TopOk, CurrentTime, OverflowTime;
    hide RemoveGeneric, AddDelayed, AddWaiter, Sleeps;
  }
}
