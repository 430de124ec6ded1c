/** The co-routine scheduler as a state machine.  Main code and interrupts interleave: a step is
    what happens between two points at which an interrupt can come in. */
module CoroutineSpec {
  import T = TimerPlacement
  import opened CursorRing
  import opened SeqSets

  const MAX_PRIORITIES := 5

  /** A waiting co-routine: its wake time as stored and, for the record, unwrapped. */
  datatype Item = Item(id: nat, value: T.Tick, due: nat)

  /** The list that holds a co-routine's generic item. */
  datatype Generic = Nowhere | OnReady | OnQueue(q: nat)

  /** The list that holds its event item. */
  datatype Event = Free | OnEvent(e: nat) | OnPending

  /** A co-routine main code is moving between lists. */
  datatype Hand = Empty | Unblocked(id: nat) | Held(id: nat)

  /** A co-routine readied by timeout: when it was due and what time it was. */
  datatype Wake = Wake(id: nat, due: nat, at: nat)

  datatype State = State(
    prio: seq<nat>,          // uxPriority of every co-routine
    generic: seq<Generic>,   // pvContainer of the generic items
    event: seq<Event>,       // pvContainer of the event items
    ready: seq<Ring<nat>>,   // pxReadyCoRoutineLists
    queues: seq<seq<Item>>,  // xDelayedCoRoutineList1 and 2
    cur: nat,                // which of them is pxDelayedCoRoutineList
    events: seq<seq<nat>>,   // the event lists of the queues co-routines wait on
    pending: seq<nat>,       // xPendingReadyCoRoutineList
    top: nat,                // uxTopCoRoutineReadyPriority
    count: T.Tick,           // xCoRoutineTickCount
    current: nat,            // pxCurrentCoRoutine
    hand: Hand,
    expiring: bool,          // inside the loop that looks for expired timeouts
    now: nat,                // the unwrapped tick count
    wakes: seq<Wake>)        // the record of timeouts

  datatype Step =
    | Tick                          // xCoRoutineTickCount++
    | Expire                        // the head of the delayed list leaves its lists
    | Settle                        // no further timeout has expired
    | TakePending                   // the head of the pending list leaves it
    | Detach                        // its generic item leaves its list
    | MakeReady                     // prvAddCoRoutineToReadyQueue
    | Choose                        // the end of vCoRoutineSchedule
    | Delay(ticks: T.Tick, ev: int)   // vCoRoutineAddToDelayedList; ev < 0: no event list
    | Isr(e: nat)                   // xCoRoutineRemoveFromEventList
    | Create(priority: nat)         // xCoRoutineCreate

  function Ids(items: seq<Item>): (ids: seq<nat>)
    ensures |ids| == |items| && forall i :: 0 <= i < |items| ==> ids[i] == items[i].id
  {
    seq(|items|, i requires 0 <= i < |items| => items[i].id)
  }

  function Values(items: seq<Item>): (v: seq<nat>)
    ensures |v| == |items| && forall i :: 0 <= i < |items| ==> v[i] == items[i].value
  {
    seq(|items|, i requires 0 <= i < |items| => items[i].value)
  }

  /** vListInsert on a delay list. */
  function InsertItem(items: seq<Item>, x: Item): seq<Item> {
    PutAt(items, Place(Values(items), x.value), x)
  }

  /** The value of an event item, a 32-bit subtraction: event lists are in priority order. */
  function EventKey(prio: seq<nat>, c: nat): nat {
    if c < |prio| then T.Wrap(MAX_PRIORITIES - prio[c]) else 0
  }

  function EventKeys(prio: seq<nat>, ids: seq<nat>): (k: seq<nat>)
    ensures |k| == |ids| && forall i :: 0 <= i < |ids| ==> k[i] == EventKey(prio, ids[i])
  {
    seq(|ids|, i requires 0 <= i < |ids| => EventKey(prio, ids[i]))
  }

  /** vListInsert on an event list. */
  function InsertWaiter(prio: seq<nat>, ids: seq<nat>, c: nat): seq<nat> {
    PutAt(ids, Place(EventKeys(prio, ids), EventKey(prio, c)), c)
  }

  // ---- when a step can happen ----

  /** The shape that the steps need in order to be defined. */
  predicate Shape(s: State) {
    && |s.generic| == |s.event| == |s.prio|
    && |s.queues| == 2 && s.cur < 2
    && |s.ready| > 0 && s.top < |s.ready|
    && (forall p :: 0 <= p < |s.ready| ==> s.ready[p].at <= |s.ready[p].items|)
    && (forall c :: 0 <= c < |s.prio| ==> s.prio[c] < |s.ready|)
  }

  /** What the code checks, or its callers see to, before the step. */
  predicate Enabled(s: State, st: Step)
    requires Shape(s)
  {
    match st
    case Tick => s.hand == Empty && !s.expiring
    case Expire => s.hand == Empty && s.expiring && s.queues[s.cur] != [] && s.queues[s.cur][0].value <= s.count
    case Settle => s.hand == Empty && s.expiring && (s.queues[s.cur] == [] || s.count < s.queues[s.cur][0].value)
    case TakePending => s.hand == Empty && !s.expiring && s.pending != []
    case Detach => s.hand.Unblocked?
    case MakeReady => s.hand.Held?
    case Choose => s.hand == Empty && !s.expiring
    case Delay(ticks, ev) => s.hand == Empty && !s.expiring && s.current < |s.prio| && s.generic[s.current] == OnReady
                             && 1 <= ticks && ev < |s.events|
    case Isr(e) => e < |s.events| && s.events[e] != []
    case Create(priority) => s.hand == Empty && !s.expiring
  }

  /** The list that a co-routine's generic item says it is in does hold it. */
  predicate ListedGeneric(s: State, c: nat)
    requires Shape(s) && c < |s.prio|
  {
    match s.generic[c]
    case Nowhere => true
    case OnReady => c in s.ready[s.prio[c]].items
    case OnQueue(q) => q < 2 && c in Ids(s.queues[q])
  }

  /** The same for the event item. */
  predicate ListedEvent(s: State, c: nat)
    requires Shape(s) && c < |s.prio|
  {
    match s.event[c]
    case Free => true
    case OnEvent(e) => e < |s.events| && c in s.events[e]
    case OnPending => c in s.pending
  }

  // ---- what a step does ----

  function SetGeneric(s: State, c: nat, g: Generic): (s': State)
    requires Shape(s)
    ensures Shape(s') && s'.now == s.now && s'.wakes == s.wakes
  {
    if c < |s.prio| then s.(generic := s.generic[c := g]) else s
  }

  function SetEvent(s: State, c: nat, ev: Event): (s': State)
    requires Shape(s)
    ensures Shape(s') && s'.now == s.now && s'.wakes == s.wakes
  {
    if c < |s.prio| then s.(event := s.event[c := ev]) else s
  }

  /** vListRemove of a generic item. */
  function RemoveGeneric(s: State, c: nat): (s': State)
    requires Shape(s)
    ensures Shape(s') && s'.now == s.now && s'.wakes == s.wakes
  {
    if c >= |s.prio| || !ListedGeneric(s, c) then s
    else
      var u := SetGeneric(s, c, Nowhere);
      match s.generic[c]
      case Nowhere => s
      case OnReady =>
        var p := s.prio[c];
        u.(ready := s.ready[p := RemoveAt(s.ready[p], Index(s.ready[p].items, c))])
      case OnQueue(q) =>
        u.(queues := s.queues[q := DropAt(s.queues[q], Index(Ids(s.queues[q]), c))])
  }

  /** vListRemove of an event item, if it is in a list. */
  function RemoveEvent(s: State, c: nat): (s': State)
    requires Shape(s)
    ensures Shape(s') && s'.now == s.now && s'.wakes == s.wakes
  {
    if c >= |s.prio| || !ListedEvent(s, c) then s
    else
      var u := SetEvent(s, c, Free);
      match s.event[c]
      case Free => s
      case OnEvent(e) => u.(events := s.events[e := DropAt(s.events[e], Index(s.events[e], c))])
      case OnPending => u.(pending := DropAt(s.pending, Index(s.pending, c)))
  }

  /** prvAddCoRoutineToReadyQueue */
  function AddReady(s: State, c: nat): (s': State)
    requires Shape(s)
    ensures Shape(s') && s'.now == s.now && s'.wakes == s.wakes
  {
    if c >= |s.prio| then s
    else
      var p := s.prio[c];
      SetGeneric(s, c, OnReady).(ready := s.ready[p := InsertEnd(s.ready[p], c)], top := if p > s.top then p else s.top)
  }

  /** The delay list for a wake time: the overflow list if the sum has wrapped. */
  function DelayQueue(s: State, wake: T.Tick): nat
    requires Shape(s)
  {
    if wake < s.count then 1 - s.cur else s.cur
  }

  function AddDelayed(s: State, c: nat, ticks: T.Tick): (s': State)
    requires Shape(s)
    ensures Shape(s') && s'.now == s.now && s'.wakes == s.wakes
  {
    var due := s.now + ticks;
    var wake := T.Wrap(s.count + ticks);
    var q := DelayQueue(s, wake);
    SetGeneric(s, c, OnQueue(q)).(queues := s.queues[q := InsertItem(s.queues[q], Item(c, wake, due))])
  }

  function AddWaiter(s: State, c: nat, ev: int): (s': State)
    requires Shape(s) && ev < |s.events|
    ensures Shape(s') && s'.now == s.now && s'.wakes == s.wakes
  {
    if ev < 0 then s
    else SetEvent(s, c, OnEvent(ev)).(events := s.events[ev := InsertWaiter(s.prio, s.events[ev], c)])
  }

  /** The highest priority not above `top` with a ready co-routine; 0 if there is none. */
  function HighestReady(s: State, top: nat): (p: nat)
    requires Shape(s) && top < |s.ready|
    ensures p <= top
  {
    if s.ready[top].items != [] || top == 0 then top else HighestReady(s, top - 1)
  }

  function ChooseNext(s: State): (s': State)
    requires Shape(s)
    ensures Shape(s')
  {
    var p := HighestReady(s, s.top);
    if s.ready[p].items == [] then s.(top := p)
    else s.(top := p, ready := s.ready[p := Advance(s.ready[p])], current := Current(Advance(s.ready[p])))
  }

  /** The counter advances; when it wraps to 0 the two delay lists change roles. */
  function Ticked(s: State): (s': State)
    requires Shape(s)
    ensures Shape(s')
  {
    var count := T.Wrap(s.count + 1);
    s.(count := count, now := s.now + 1, expiring := true, cur := if count == 0 then 1 - s.cur else s.cur)
  }

  /** The head of the delayed list leaves it. */
  function Unqueue(s: State): (s': State)
    requires Shape(s) && s.queues[s.cur] != []
    ensures Shape(s')
  {
    SetGeneric(s, s.queues[s.cur][0].id, Nowhere).(queues := s.queues[s.cur := s.queues[s.cur][1..]])
  }

  /** The head of the delayed list has expired: it leaves its event list, too. */
  function Expired(s: State): (s': State)
    requires Shape(s) && s.queues[s.cur] != []
    ensures Shape(s')
  {
    var it := s.queues[s.cur][0];
    RemoveEvent(Unqueue(s), it.id).(hand := Held(it.id), wakes := s.wakes + [Wake(it.id, it.due, s.now)])
  }

  /** The head of the pending list leaves it. */
  function Unpended(s: State): (s': State)
    requires Shape(s) && s.pending != []
    ensures Shape(s')
  {
    SetEvent(s, s.pending[0], Free).(pending := s.pending[1..], hand := Unblocked(s.pending[0]))
  }

  /** The head of an event list moves to the pending list. */
  function Signalled(s: State, e: nat): (s': State)
    requires Shape(s) && e < |s.events| && s.events[e] != []
    ensures Shape(s')
  {
    var c := s.events[e][0];
    SetEvent(s, c, OnPending).(events := s.events[e := s.events[e][1..]], pending := s.pending + [c])
  }

  /** The running co-routine moves to a delay list and, if `ev` is one, to an event list. */
  function Delayed(s: State, ticks: T.Tick, ev: int): (s': State)
    requires Shape(s) && ev < |s.events|
    ensures Shape(s')
  {
    AddWaiter(AddDelayed(RemoveGeneric(s, s.current), s.current, ticks), s.current, ev)
  }

  /** A new control block, which is in no list yet; its priority is cut down to the highest there
      is. */
  function Allocated(s: State, priority: nat): (s': State)
    requires Shape(s)
    ensures Shape(s') && |s'.prio| == |s.prio| + 1
  {
    s.(prio := s.prio + [if priority >= |s.ready| then |s.ready| - 1 else priority],
       generic := s.generic + [Nowhere], event := s.event + [Free],
       current := if |s.prio| == 0 then 0 else s.current)
  }

  function Next(s: State, st: Step): (s': State)
    requires Shape(s) && Enabled(s, st)
    ensures Shape(s')
  {
    match st
    case Tick => Ticked(s)
    case Expire => Expired(s)
    case Settle => s.(expiring := false)
    case TakePending => Unpended(s)
    case Detach => RemoveGeneric(s, s.hand.id).(hand := Held(s.hand.id))
    case MakeReady => AddReady(s, s.hand.id).(hand := Empty)
    case Choose => ChooseNext(s)
    case Delay(ticks, ev) => Delayed(s, ticks, ev)
    case Isr(e) => Signalled(s, e)
    case Create(priority) => AddReady(Allocated(s, priority), |s.prio|)
  }

  // ---- runs ----

  predicate EnabledRun(s: State, steps: seq<Step>)
    requires Shape(s)
    decreases |steps|
  {
    steps == [] || (Enabled(s, steps[0]) && EnabledRun(Next(s, steps[0]), steps[1..]))
  }

  function AfterRun(s: State, steps: seq<Step>): (s': State)
    requires Shape(s) && EnabledRun(s, steps)
    ensures Shape(s')
    decreases |steps|
  {
    if steps == [] then s else AfterRun(Next(s, steps[0]), steps[1..])
  }

  /** After prvInitialiseCoRoutineLists. */
  function Start(priorities: nat, eventLists: nat): (s: State)
    requires priorities > 0
    ensures Shape(s)
  {
    State([], [], [], seq(priorities, _ => Ring([], 0)), [[], []], 0, seq(eventLists, _ => []), [], 0, 0, 0,
          Empty, false, 0, [])
  }
}
