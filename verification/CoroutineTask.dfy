/** croutine.c: the scheduler's functions, interruptible wherever the code has interrupts enabled. */
module CoroutineTask {
  import T = TimerPlacement
  import opened CursorRing
  import opened SeqSets
  import opened CoroutineSpec
  import opened CoroutineSafety
  import opened CoroutineSteps
  import opened CoroutineRuns

  /** What interrupts can change. */
  ghost predicate OnlyEvents(s: State, t: State) {
    t == s.(event := t.event, events := t.events, pending := t.pending)
  }

  /** How many co-routines wait for an event or have been readied by one. */
  function Waiters(events: seq<seq<nat>>): nat {
    if events == [] then 0 else |events[0]| + Waiters(events[1..])
  }

  lemma {:induction false} WaitersDrop(events: seq<seq<nat>>, e: nat)
    requires e < |events| && events[e] != []
    ensures Waiters(events[e := events[e][1..]]) == Waiters(events) - 1
    decreases |events|
  {
    var t := events[e := events[e][1..]];
    if e == 0 {
      assert t[1..] == events[1..];
    } else {
      WaitersDrop(events[1..], e - 1);
      assert t[1..] == events[1..][e - 1 := events[e][1..]];
    }
  }

  /** `steps` leads from one state to the other. */
  ghost predicate Leads(s: State, steps: seq<Step>, t: State) {
    Shape(s) && EnabledRun(s, steps) && t == AfterRun(s, steps)
  }

  lemma {:induction false} LeadsOn(s: State, a: seq<Step>, t: State, b: seq<Step>, u: State)
    requires Leads(s, a, t) && Leads(t, b, u)
    ensures Leads(s, a + b, u)
    decreases |a|
  {
    hide Enabled, Next;
    if a == [] {
      assert a + b == b;
    } else {
      LeadsOn(Next(s, a[0]), a[1..], t, b, u);
      assert (a + b)[0] == a[0] && (a + b)[1..] == a[1..] + b;
    }
  }

  lemma LeadsNone(s: State)
    requires Inv(s)
    ensures Leads(s, [], s)
  {
  }

  lemma LeadsOne(s: State, st: Step)
    requires Shape(s) && Enabled(s, st)
    ensures Leads(s, [st], Next(s, st))
  {
    hide Enabled, Next;
    assert [st][0] == st && [st][1..] == [];
    assert EnabledRun(Next(s, st), []) && AfterRun(Next(s, st), []) == Next(s, st);
    assert EnabledRun(s, [st]);
  }

  lemma LeadsStep(s: State, a: seq<Step>, t: State, st: Step)
    requires Leads(s, a, t) && Shape(t) && Enabled(t, st)
    ensures Leads(s, a + [st], Next(t, st))
  {
    LeadsOne(t, st);
    LeadsOn(s, a, t, [st], Next(t, st));
  }

  /** A trace determines the state it leads to. */
  lemma TraceTells(z: State, steps: seq<Step>, s: State, st: Step, t: State)
    requires Shape(s) && Enabled(s, st) && Leads(z, steps, s) && Leads(z, steps + [st], t)
    ensures t == Next(s, st)
  {
    LeadsStep(z, steps, s, st);
  }

  class Scheduler {
    var prio: seq<nat>
    var generic: seq<Generic>
    var event: seq<Event>
    var ready: seq<Ring<nat>>
    var queues: seq<seq<Item>>
    var cur: nat
    var events: seq<seq<nat>>
    var pending: seq<nat>
    var top: nat
    var count: T.Tick
    var last: T.Tick
    var current: nat
    // The unwrapped tick count: for the record only, no decision depends on it.
    var now: nat
    // The event lists served by the interrupts that come in at each point that allows them.
    var arrivals: seq<seq<nat>>
    ghost var hand: Hand
    ghost var expiring: bool
    ghost var wakes: seq<Wake>
    // How the scheduler started, and all the steps since.
    ghost var begin: State
    ghost var trace: seq<Step>

    ghost function Now(): State
      reads this
    {
      State(prio, generic, event, ready, queues, cur, events, pending, top, count, current, hand, expiring, now, wakes)
    }

    /** All that has happened so far is a run of the state machine. */
    ghost predicate Valid()
      reads this
    {
      Leads(begin, trace, Now()) && Inv(Now())
    }

    /** Between calls nothing is being moved, and the last call left its tick count behind. */
    ghost predicate Resting()
      reads this
    {
      Valid() && hand == Hand.Empty && !expiring && last == count
    }

    /** prvInitialiseCoRoutineLists */
    constructor (priorities: nat, eventLists: nat, interrupts: seq<seq<nat>>)
      requires priorities > 0
      ensures Resting() && begin == Now() == Start(priorities, eventLists)
    {
      prio, generic, event := [], [], [];
      ready := seq(priorities, _ => Ring([], 0));
      queues, cur := [[], []], 0;
      events, pending := seq(eventLists, _ => []), [];
      top, count, last, current := 0, 0, 0, 0;
      hand, expiring, now, wakes := Hand.Empty, false, 0, [];
      arrivals := interrupts;
      begin, trace := Start(priorities, eventLists), [];
      new;
      assert ready == begin.ready;
      assert events == begin.events;
      StartIsGood(priorities, eventLists);
      LeadsNone(begin);
    }

    /** Records a step. */
    ghost method Record(s: State, st: Step)
      requires Inv(s) && Leads(begin, trace, s) && Enabled(s, st) && Now() == Next(s, st)
      modifies this`trace
      ensures Valid() && trace == old(trace) + [st]
      ensures !st.Delay? ==> NotBehind(s, Now())
    {
      hide Inv, Leads, Next, Enabled, NotBehind;
      StepKeeps(s, st);
      if !st.Delay? { NobodyFallsBack(s, st); }
      LeadsStep(begin, trace, s, st);
      trace := trace + [st];
    }

    // ---- the list operations ----

    /** vListRemove of a generic item. */
    method RemoveGenericItem(c: nat)
      requires Shape(Now()) && c < |prio| && ListedGeneric(Now(), c)
      modifies this`generic, this`ready, this`queues
      ensures Now() == RemoveGeneric(old(Now()), c)
    {
      hide Index, DropAt, Ids, RemoveAt;
      match generic[c] {
        case Nowhere =>
        case OnReady =>
          var p := prio[c];
          ready := ready[p := RemoveAt(ready[p], Index(ready[p].items, c))];
          generic := generic[c := Nowhere];
        case OnQueue(q) =>
          queues := queues[q := DropAt(queues[q], Index(Ids(queues[q]), c))];
          generic := generic[c := Nowhere];
      }
    }

    /** vListRemove of an event item, if it has a container. */
    method RemoveEventItem(c: nat)
      requires Shape(Now()) && c < |prio| && ListedEvent(Now(), c)
      modifies this`event, this`events, this`pending
      ensures Now() == RemoveEvent(old(Now()), c)
    {
      hide Index, DropAt;
      match event[c] {
        case Free =>
        case OnEvent(e) =>
          events := events[e := DropAt(events[e], Index(events[e], c))];
          event := event[c := Free];
        case OnPending =>
          pending := DropAt(pending, Index(pending, c));
          event := event[c := Free];
      }
    }

    /** prvAddCoRoutineToReadyQueue */
    method AddToReadyQueue(c: nat)
      requires Shape(Now()) && c < |prio|
      modifies this`generic, this`ready, this`top
      ensures Now() == AddReady(old(Now()), c)
    {
      hide InsertEnd;
      if prio[c] > top {
        top := prio[c];
      }
      ready := ready[prio[c] := InsertEnd(ready[prio[c]], c)];
      generic := generic[c := OnReady];
    }

    /** The generic item enters the delay list of the epoch in which the delay ends. */
    method EnterDelayList(c: nat, ticks: T.Tick)
      requires Shape(Now()) && c < |prio|
      modifies this`generic, this`queues
      ensures Now() == AddDelayed(old(Now()), c, ticks)
    {
      hide InsertItem, T.Wrap;
      var wake := T.Wrap(count + ticks);
      var q := cur;
      if wake < count {
        q := 1 - cur;
      }
      queues := queues[q := InsertItem(queues[q], Item(c, wake, now + ticks))];
      generic := generic[c := OnQueue(q)];
    }

    /** The event item enters an event list, if there is one to wait on. */
    method EnterEventList(c: nat, ev: int)
      requires Shape(Now()) && c < |prio| && ev < |events|
      modifies this`event, this`events
      ensures Now() == AddWaiter(old(Now()), c, ev)
    {
      hide InsertWaiter;
      if ev >= 0 {
        events := events[ev := InsertWaiter(prio, events[ev], c)];
        event := event[c := OnEvent(ev)];
      }
    }

    // ---- interrupts ----

    /** xCoRoutineRemoveFromEventList, called by an interrupt that has seen a waiter. */
    method RemoveFromEventList(e: nat) returns (higher: bool)
      requires Valid() && Enabled(Now(), Isr(e))
      modifies this`event, this`events, this`pending, this`trace
      ensures Valid() && trace == old(trace) + [Isr(e)]
      ensures OnlyEvents(old(Now()), Now()) && NotBehind(old(Now()), Now())
      ensures |pending| + Waiters(events) == old(|pending| + Waiters(events))
      ensures var c := old(events[e][0]); c < |prio| && (higher <==> prio[c] >= prio[current])
      ensures |events| == old(|events|) && old(events[e]) == [old(events[e][0])] + events[e]
      ensures pending == old(pending) + [old(events[e][0])]
    {
      hide Inv, Waiters, Leads, NotBehind, Shape;
      WaitersDrop(events, e);
      ShapeKnown(Now());
      HeadsKnown(Now());
      var c := Signal(e);
      Record(old(Now()), Isr(e));
      higher := prio[c] >= prio[current];
    }

    /** The head of an event list moves to the pending list. */
    method Signal(e: nat) returns (c: nat)
      requires Shape(Now()) && e < |events| && events[e] != [] && events[e][0] < |prio|
      modifies this`event, this`events, this`pending
      ensures Now() == Signalled(old(Now()), e) && c == old(events[e][0])
      ensures OnlyEvents(old(Now()), Now()) && pending == old(pending) + [c]
      ensures events == old(events)[e := old(events)[e][1..]]
    {
      c := events[e][0];
      event := event[c := OnPending];
      events := events[e := events[e][1..]];
      pending := pending + [c];
    }

    /** A point at which interrupts are enabled: those that arrive are served. */
    method Interrupts()
      requires Valid()
      modifies this`event, this`events, this`pending, this`trace, this`arrivals
      ensures Valid() && old(trace) <= trace && OnlyEvents(old(Now()), Now()) && NotBehind(old(Now()), Now())
      ensures |pending| + Waiters(events) == old(|pending| + Waiters(events))
    {
      hide Inv, Leads, Next, Waiters, Shape, OnTheWay, IsReady;
      if arrivals == [] { return; }
      var batch := arrivals[0];
      arrivals := arrivals[1..];
      var i := 0;
      while i < |batch|
        invariant 0 <= i <= |batch|
        invariant Valid() && old(trace) <= trace && OnlyEvents(old(Now()), Now()) && NotBehind(old(Now()), Now())
        invariant |pending| + Waiters(events) == old(|pending| + Waiters(events))
      {
        var e := batch[i];
        if e < |events| && events[e] != [] {
          var _ := RemoveFromEventList(e);
        }
        i := i + 1;
      }
    }

    /** The same between calls. */
    method Interrupted()
      requires Valid()
      modifies this
      ensures Valid() && old(trace) <= trace && begin == old(begin) && NotBehind(old(Now()), Now())
      ensures now == old(now) && count == old(count) && last == old(last)
      ensures hand == old(hand) && expiring == old(expiring) && queues == old(queues) && cur == old(cur)
      ensures |pending| + Waiters(events) == old(|pending| + Waiters(events))
    {
      hide Inv, Leads, Waiters, Shape, NotBehind;
      Interrupts();
    }

    // ---- what interrupts have readied ----

    /** The first critical section of prvCheckPendingReadyList. */
    method TakePending() returns (c: nat)
      requires Valid() && Enabled(Now(), Step.TakePending)
      modifies this`event, this`pending, this`hand, this`trace
      ensures Valid() && trace == old(trace) + [Step.TakePending] && NotBehind(old(Now()), Now())
      ensures hand == Unblocked(c)
      ensures |pending| == old(|pending|) - 1
    {
      hide Inv, Leads, NotBehind, Shape, Unpended;
      HeadsKnown(Now());
      ShapeKnown(Now());
      c := Unpend();
      Record(old(Now()), Step.TakePending);
    }

    /** The head of the pending list leaves it. */
    method Unpend() returns (c: nat)
      requires Shape(Now()) && pending != [] && pending[0] < |prio|
      modifies this`event, this`pending, this`hand
      ensures Now() == Unpended(old(Now())) && hand == Unblocked(c) && |pending| == old(|pending|) - 1
    {
      c := pending[0];
      event := event[c := Free];
      pending := pending[1..];
      hand := Unblocked(c);
    }

    /** vListRemove of the generic item of a co-routine that an event has unblocked. */
    method Detach(c: nat)
      requires Valid() && hand == Unblocked(c)
      modifies this`generic, this`ready, this`queues, this`hand, this`trace
      ensures Valid() && trace == old(trace) + [Step.Detach] && NotBehind(old(Now()), Now())
      ensures hand == Held(c)
    {
      hide Inv, Leads, RemoveGeneric, NotBehind;
      InHandKnown(Now());
      RemoveGenericItem(c);
      hand := Held(c);
      Record(old(Now()), Step.Detach);
    }

    /** The co-routine in hand becomes ready. */
    method MakeHeldReady(c: nat)
      requires Valid() && hand == Held(c)
      modifies this`generic, this`ready, this`top, this`hand, this`trace
      ensures Valid() && trace == old(trace) + [MakeReady] && NotBehind(old(Now()), Now())
      ensures hand == Hand.Empty
    {
      hide Inv, Leads, AddReady, NotBehind;
      InHandKnown(Now());
      AddToReadyQueue(c);
      hand := Hand.Empty;
      Record(old(Now()), MakeReady);
    }

    /** prvCheckPendingReadyList: every co-routine that an interrupt has readied is moved to its ready
        list, those that are readied meanwhile included. */
    method CheckPendingReadyList()
      requires Resting()
      modifies this
      ensures Resting() && old(trace) <= trace && begin == old(begin)
      ensures now == old(now) && count == old(count)
      ensures pending == []
      ensures forall c: nat :: old(OnTheWay(Now(), c)) ==> IsReady(Now(), c)
    {
      hide Inv, Leads, Next, Waiters, OnlyEvents, Shape, OnTheWay, IsReady;
      Interrupted();
      while pending != []
        invariant Resting() && old(trace) <= trace && begin == old(begin) && NotBehind(old(Now()), Now())
        invariant now == old(now) && count == old(count)
        decreases |pending| + Waiters(events)
      {
        OneUnblocked();
      }
      AllArrived(Now());
    }

    /** The loop body of prvCheckPendingReadyList. */
    method OneUnblocked()
      requires Resting() && pending != []
      modifies this
      ensures Resting() && old(trace) <= trace && begin == old(begin) && NotBehind(old(Now()), Now())
      ensures now == old(now) && count == old(count)
      ensures |pending| + Waiters(events) == old(|pending| + Waiters(events)) - 1
    {
      hide Inv, Leads, Waiters, Next, Enabled, Shape, OnTheWay, IsReady;
      CanTake(Now());
      var c := TakePending();
      Interrupted();
      Detach(c);
      Interrupted();
      MakeHeldReady(c);
    }

    // ---- timeouts ----

    /** The loop of prvCheckDelayedList: the counter catches up tick by tick. */
    method CatchUp(passedTicks: T.Tick)
      requires Valid() && hand == Hand.Empty && !expiring
      modifies this
      ensures Valid() && hand == Hand.Empty && !expiring && old(trace) <= trace && begin == old(begin)
      ensures NotBehind(old(Now()), Now())
      ensures now == old(now) + passedTicks && count == T.Wrap(now)
    {
      hide Inv, Leads, Waiters, Next, Enabled, Shape, T.Wrap, OnTheWay, IsReady;
      var passed := passedTicks;
      CountIsWrapped(Now());
      while passed != 0
        invariant 0 <= passed <= passedTicks
        invariant Valid() && hand == Hand.Empty && !expiring && old(trace) <= trace && begin == old(begin)
        invariant NotBehind(old(Now()), Now())
        invariant now == old(now) + passedTicks - passed && count == T.Wrap(now)
      {
        passed := passed - 1;
        OneTick();
        Interrupted();
        WakeExpired();
      }
    }

    /** The counter advances; when it wraps to 0 the two delay lists change roles. */
    method OneTick()
      requires Valid() && hand == Hand.Empty && !expiring
      modifies this`count, this`cur, this`now, this`expiring, this`trace
      ensures Valid() && trace == old(trace) + [Step.Tick] && NotBehind(old(Now()), Now())
      ensures count == 0 ==> queues[1 - cur] == []
      ensures expiring && now == old(now) + 1 && count == T.Wrap(now)
    {
      hide Inv, Leads, Enabled, NotBehind, Shape, Ticked;
      CanTake(Now());
      ShapeKnown(Now());
      TickKnown(Now());
      CountOn();
      Record(old(Now()), Step.Tick);
    }

    /** The increment is the 32-bit one. */
    method CountOn()
      requires Shape(Now()) && T.Wrap(count + 1) == if count == T.WRAP - 1 then 0 else count + 1
      modifies this`count, this`cur, this`now, this`expiring
      ensures Now() == Ticked(old(Now())) && expiring && now == old(now) + 1 && count == T.Wrap(old(count) + 1)
      ensures cur == if count == 0 then 1 - old(cur) else old(cur)
    {
      hide T.Wrap;
      count := if count == T.WRAP - 1 then 0 else count + 1;
      if count == 0 {
        cur := 1 - cur;
      }
      now := now + 1;
      expiring := true;
    }

    /** The inner loop of prvCheckDelayedList: readies whatever is due in this very tick. */
    method WakeExpired()
      requires Valid() && hand == Hand.Empty && expiring
      modifies this
      ensures Valid() && hand == Hand.Empty && !expiring && old(trace) <= trace && begin == old(begin)
      ensures NotBehind(old(Now()), Now())
      ensures now == old(now) && count == old(count)
      ensures forall i :: 0 <= i < |queues[cur]| ==> queues[cur][i].due > now
    {
      hide Inv, Leads, Waiters, Next, Enabled, Shape, OnTheWay, IsReady;
      TwoQueues(Now());
      while queues[cur] != []
        invariant Valid() && hand == Hand.Empty && expiring && old(trace) <= trace && begin == old(begin)
        invariant NotBehind(old(Now()), Now())
        invariant now == old(now) && count == old(count)
        invariant cur < |queues|
        decreases |queues[cur]|
      {
        var it := queues[cur][0];
        if count < it.value {
          break;
        }
        Interrupted();
        OneExpired();
      }
      CanExpire(Now());
      Settle();
    }

    /** The co-routine at the head of the delayed list is due. */
    method OneExpired()
      requires Valid() && hand == Hand.Empty && expiring
      requires cur < |queues| && queues[cur] != [] && queues[cur][0].value <= count
      modifies this
      ensures Valid() && hand == Hand.Empty && expiring && old(trace) <= trace && begin == old(begin)
      ensures NotBehind(old(Now()), Now())
      ensures now == old(now) && count == old(count)
      ensures cur < |queues| && cur == old(cur) && |queues[cur]| < old(|queues[cur]|)
    {
      hide Inv, Leads, Waiters, Next, Enabled, Shape, OnTheWay, IsReady;
      CanExpire(Now());
      var c := TakeExpired();
      Interrupted();
      MakeHeldReady(c);
    }

    /** The loop has found nothing more that is due. */
    ghost method Settle()
      requires Valid() && Enabled(Now(), Step.Settle)
      modifies this`expiring, this`trace
      ensures Valid() && trace == old(trace) + [Step.Settle] && !expiring && NotBehind(old(Now()), Now())
      ensures forall i :: 0 <= i < |queues[cur]| ==> queues[cur][i].due > now
    {
      hide Inv, Leads, NotBehind;
      expiring := false;
      Record(old(Now()), Step.Settle);
      NobodyOverdue(Now());
      assert cur < 2;
    }

    /** The critical section of prvCheckDelayedList: the timeout has expired, so the co-routine
        leaves its delay list and, if it also waits for an event, that list, too. */
    method TakeExpired() returns (c: nat)
      requires Valid() && Enabled(Now(), Expire)
      modifies this`generic, this`queues, this`event, this`events, this`pending, this`hand, this`wakes, this`trace
      ensures Valid() && trace == old(trace) + [Expire] && NotBehind(old(Now()), Now())
      ensures c == old(queues[cur][0].id) && hand == Held(c)
      ensures cur < |queues| && |queues[cur]| == old(|queues[cur]|) - 1
    {
      hide Inv, Leads, Shape, Enabled, Unqueue, RemoveEvent, ListedEvent, NotBehind;
      ShapeKnown(Now());
      ExpireKnown(Now());
      var it := LeaveDelayList();
      c := it.id;
      RemoveEventItem(c);
      TakeInHand(it);
      Record(old(Now()), Expire);
    }

    /** The generic item leaves the delayed list. */
    method LeaveDelayList() returns (it: Item)
      requires Shape(Now()) && queues[cur] != [] && queues[cur][0].id < |prio|
      modifies this`generic, this`queues
      ensures Now() == Unqueue(old(Now())) && it == old(queues[cur][0])
      ensures cur < |queues| && |queues[cur]| == old(|queues[cur]|) - 1
    {
      it := queues[cur][0];
      queues := queues[cur := queues[cur][1..]];
      generic := generic[it.id := Nowhere];
    }

    ghost method TakeInHand(it: Item)
      modifies this`hand, this`wakes
      ensures Now() == old(Now()).(hand := Held(it.id), wakes := old(wakes) + [Wake(it.id, it.due, now)])
    {
      hand := Held(it.id);
      wakes := wakes + [Wake(it.id, it.due, now)];
    }

    /** prvCheckDelayedList: the counter catches up with the kernel's tick count; everything whose
        time has come on the way was readied in its own tick. */
    method CheckDelayedList(tick: T.Tick)
      requires Resting()
      modifies this
      ensures Resting() && old(trace) <= trace && begin == old(begin) && NotBehind(old(Now()), Now())
      ensures count == tick && now == old(now) + T.Wrap(tick - old(count))
    {
      hide Inv, Leads, Next, Enabled, Shape, T.Wrap, OnTheWay, IsReady;
      CountIsWrapped(Now());
      CaughtUp(now, tick);
      var passed := T.Wrap(tick - last);
      CatchUp(passed);
      last := count;
    }

    /** The end of vCoRoutineSchedule: the co-routine to run is chosen. */
    method ChooseHighest() returns (ran: bool)
      requires Resting()
      modifies this`top, this`ready, this`current, this`trace
      ensures Resting() && trace == old(trace) + [Choose]
      ensures ran <==> exists c :: 0 <= c < |prio| && generic[c] == OnReady
    {
      hide Inv, Leads, Enabled, NotBehind, Shape, ChooseNext;
      CanTake(Now());
      ShapeKnown(Now());
      ChooseKnown(Now());
      ran := FindHighest();
      Record(old(Now()), Choose);
    }

    /** The search starts at the highest priority that has been ready. */
    method FindHighest() returns (ran: bool)
      requires Shape(Now())
      requires var p := HighestReady(Now(), top); ready[p].items == [] ==> p == 0
      modifies this`top, this`ready, this`current
      ensures Now() == ChooseNext(old(Now()))
      ensures ran <==> old(ready)[HighestReady(old(Now()), old(top))].items != []
    {
      hide Advance, Current;
      ghost var s := Now();
      var p := top;
      while ready[p].items == []
        invariant 0 <= p < |ready| && HighestReady(s, p) == HighestReady(s, top)
        decreases p
      {
        if p == 0 {
          top := 0;
          return false;
        }
        p := p - 1;
      }
      top := p;
      ready := ready[p := Advance(ready[p])];
      current := Current(ready[p]);
      ran := true;
    }

    /** vCoRoutineSchedule up to the call of the chosen co-routine: whoever was ready or had been
        readied by an interrupt takes part in the choice. */
    method Schedule(tick: T.Tick) returns (ran: bool)
      requires Resting()
      modifies this
      ensures Resting() && old(trace) <= trace && begin == old(begin) && count == tick
      ensures forall c: nat :: old(OnTheWay(Now(), c)) ==> IsReady(Now(), c)
      ensures ran ==> current < |prio| && generic[current] == OnReady
      ensures ran ==> forall c :: 0 <= c < |prio| && generic[c] == OnReady ==> prio[c] <= prio[current]
      ensures !ran ==> forall c :: 0 <= c < |prio| ==> generic[c] != OnReady
    {
      hide Inv, Leads, Next, Enabled, OnTheWay;
      CheckPendingReadyList();
      CheckDelayedList(tick);
      Interrupted();
      CanTake(Now());
      ChoosesHighest(Now());
      ChooseKeepsPlaces(Now());
      ghost var s, steps := Now(), trace;
      ran := ChooseHighest();
      TraceTells(begin, steps, s, Choose, Now());
    }

    /** vCoRoutineAddToDelayedList: the running co-routine waits for a time of at least one tick, and
        for an event if `ev` is the number of an event list. */
    method AddToDelayedList(ticks: T.Tick, ev: int)
      requires Resting() && Enabled(Now(), Delay(ticks, ev))
      modifies this`generic, this`ready, this`queues, this`event, this`events, this`trace
      ensures Resting() && trace == old(trace) + [Delay(ticks, ev)]
      ensures FellAsleep(old(Now()), Now(), ticks, ev)
    {
      hide FellAsleep, Inv, Leads, Shape, Enabled, ListedGeneric, RemoveGeneric, AddDelayed, AddWaiter, NotBehind;
      RunningKnown(Now(), ticks, ev);
      DelayIs(Now(), ticks, ev);
      RemoveGenericItem(current);
      EnterDelayList(current, ticks);
      EnterEventList(current, ev);
      Record(old(Now()), Delay(ticks, ev));
    }

    /** xCoRoutineCreate, once the control block has been allocated. */
    method Create(priority: nat)
      requires Resting()
      modifies this`prio, this`generic, this`event, this`ready, this`top, this`current, this`trace
      ensures Resting() && trace == old(trace) + [Step.Create(priority)] && NotBehind(old(Now()), Now())
      ensures |prio| == old(|prio|) + 1 && IsReady(Now(), old(|prio|))
      ensures prio[old(|prio|)] == if priority < |ready| then priority else |ready| - 1
    {
      hide Inv, Leads, Allocated, AddReady, NotBehind;
      CanTake(Now());
      CreateIs(Now(), priority);
      var c := |prio|;
      FillIn(priority);
      AddToReadyQueue(c);
      Record(old(Now()), Step.Create(priority));
    }

    /** The control block of a new co-routine. */
    method FillIn(priority: nat)
      requires Shape(Now())
      modifies this`prio, this`generic, this`event, this`current
      ensures Now() == Allocated(old(Now()), priority)
    {
      if |prio| == 0 {
        current := 0;
      }
      prio := prio + [if priority >= |ready| then |ready| - 1 else priority];
      generic, event := generic + [Nowhere], event + [Free];
    }
  }

  // ---- what the invariant says before a step ----

  lemma ShapeKnown(s: State)
    requires Inv(s)
    ensures Shape(s)
  {
  }

  /** The heads of the lists are co-routines. */
  lemma HeadsKnown(s: State)
    requires Inv(s)
    ensures s.pending != [] ==> s.pending[0] < |s.prio|
    ensures forall e :: 0 <= e < |s.events| && s.events[e] != [] ==> s.events[e][0] < |s.prio| && s.current < |s.prio|
  {
    assert s.pending != [] ==> s.pending[0] in s.pending;
    forall e | 0 <= e < |s.events| && s.events[e] != [] ensures s.events[e][0] < |s.prio| && s.current < |s.prio| {
      assert WaitersOk(s.event, s.events[e], OnEvent(e));
      assert s.events[e][0] in s.events[e];
    }
  }

  lemma CanTake(s: State)
    requires Inv(s) && s.hand == Hand.Empty && !s.expiring
    ensures s.pending != [] ==> Enabled(s, TakePending)
    ensures Enabled(s, Tick) && Enabled(s, Choose) && forall p :: Enabled(s, Step.Create(p))
  {
  }

  /** A co-routine in hand exists, and its generic item is in the list it names. */
  lemma InHandKnown(s: State)
    requires Inv(s) && s.hand != Hand.Empty
    ensures s.hand.id < |s.prio| && ListedGeneric(s, s.hand.id)
  {
  }

  lemma CountIsWrapped(s: State)
    requires Inv(s)
    ensures s.count == T.Wrap(s.now)
  {
  }

  lemma CaughtUp(now: nat, tick: T.Tick)
    ensures T.Wrap(now + T.Wrap(tick - T.Wrap(now))) == tick
  {
  }

  lemma TickKnown(s: State)
    requires Inv(s) && Enabled(s, Tick)
    ensures T.Wrap(s.count + 1) == T.Wrap(s.now + 1) == if s.count == T.WRAP - 1 then 0 else s.count + 1
    ensures T.Wrap(s.count + 1) == 0 ==> s.queues[s.cur] == []
  {
    NextTick(s.now);
    if Next(s, Tick).count == 0 { DelayedEmptyAtWrap(s); }
  }

  lemma TwoQueues(s: State)
    requires Inv(s)
    ensures s.cur < |s.queues| == 2
  {
  }

  lemma CanExpire(s: State)
    requires Inv(s) && s.hand == Hand.Empty && s.expiring
    ensures s.queues[s.cur] != [] && s.queues[s.cur][0].value <= s.count ==> Enabled(s, Expire)
    ensures !(s.queues[s.cur] != [] && s.queues[s.cur][0].value <= s.count) ==> Enabled(s, Step.Settle)
  {
  }

  lemma ExpireKnown(s: State)
    requires Inv(s) && Enabled(s, Expire)
    ensures s.queues[s.cur] != []
    ensures var c, u := s.queues[s.cur][0].id, Unqueue(s);
      && c < |s.prio| == |u.prio| && ListedEvent(u, c) && u.now == s.now && u.wakes == s.wakes
      && var v := RemoveEvent(u, c);
      && v.queues == u.queues && v.cur == s.cur && v.now == s.now && v.wakes == s.wakes
  {
    QueueOut(s, s.cur, 0);
    EventOut(s, s.queues[s.cur][0].id);
  }

  lemma ChooseKnown(s: State)
    requires Inv(s) && Enabled(s, Choose)
    ensures var p := HighestReady(s, s.top);
      && (s.ready[p].items == [] ==> p == 0)
      && (s.ready[p].items != [] <==> exists c :: 0 <= c < |s.prio| && s.generic[c] == OnReady)
  {
    HighestIsHighest(s, s.top);
    var p := HighestReady(s, s.top);
    assert ReadyListOk(s.prio, s.generic, s.ready[p], p);
    if s.ready[p].items != [] { assert s.ready[p].items[0] in s.ready[p].items; }
    forall c | 0 <= c < |s.prio| && s.generic[c] == OnReady ensures s.ready[p].items != [] {
      assert ReadyListOk(s.prio, s.generic, s.ready[s.prio[c]], s.prio[c]);
      assert c in s.ready[s.prio[c]].items;
    }
  }

  lemma ChooseKeepsPlaces(s: State)
    requires Inv(s) && Enabled(s, Choose)
    ensures var t := Next(s, Choose); t.prio == s.prio && t.generic == s.generic
  {
  }

  lemma RunningKnown(s: State, ticks: T.Tick, ev: int)
    requires Inv(s) && Enabled(s, Delay(ticks, ev))
    ensures s.current < |s.prio| && ListedGeneric(s, s.current) && ev < |s.events|
    ensures var u := RemoveGeneric(s, s.current);
      && u.current == s.current && |u.prio| == |s.prio| && |u.events| == |s.events|
      && var v := AddDelayed(u, s.current, ticks);
      && v.current == s.current && |v.prio| == |s.prio| && |v.events| == |s.events|
  {
    RunningOut(s, s.current);
  }
}
