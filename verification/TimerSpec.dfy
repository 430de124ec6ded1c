/** The timer service task as functions on its state.  The task in TimerTask is proved to compute
    these; TimerSafety proves what they mean over whole runs. */
module TimerSpec {
  import opened TimerPlacement

  datatype Config = Config(period: Tick, reload: bool)

  /** A list item.  The code orders items by `value`; `due` is the unwrapped time it stands for. */
  datatype Item = Item(timer: nat, value: Tick, due: nat)

  /** A command.  The code reads `value`, the tick count of the command; `at` is its unwrapped
      time. */
  datatype Msg =
    | Start(timer: nat, value: Tick, at: nat)
    | Stop(timer: nat)
    | ChangePeriod(timer: nat, period: Tick)
    | Delete(timer: nat)

  /** A callback made at unwrapped time `at` for the expiry at `due`. */
  datatype Fire = Fire(timer: nat, due: nat, at: nat)

  /** `last` is the unwrapped time of the latest sample (the code keeps Wrap(last) in xLastTime);
      `fired` is the history of callbacks. */
  datatype Daemon = Daemon(
    timers: map<nat, Config>,
    current: seq<Item>,
    overflow: seq<Item>,
    queue: seq<Msg>,
    last: nat,
    fired: seq<Fire>)

  // ---- sorted lists ----

  /** Number of leading items with a value of at most `v`: vListInsert puts a new item behind
      them. */
  function Position(list: seq<Item>, v: Tick): (p: nat)
    ensures p <= |list|
    ensures forall i :: 0 <= i < p ==> list[i].value <= v
    ensures p < |list| ==> list[p].value > v
  {
    if list == [] || list[0].value > v then 0 else 1 + Position(list[1..], v)
  }

  function Insert(list: seq<Item>, item: Item): seq<Item> {
    var p := Position(list, item.value);
    list[..p] + [item] + list[p..]
  }

  lemma InsertMembers(list: seq<Item>, item: Item)
    ensures forall x :: x in Insert(list, item) <==> x == item || x in list
  {
    var p := Position(list, item.value);
    assert list == list[..p] + list[p..];
  }

  predicate Absent(list: seq<Item>, t: nat) {
    forall x :: x in list ==> x.timer != t
  }

  /** The list without the items of timer `t`. */
  function Without(list: seq<Item>, t: nat): (r: seq<Item>)
    ensures Absent(r, t)
  {
    if list == [] then []
    else if list[0].timer == t then Without(list[1..], t)
    else [list[0]] + Without(list[1..], t)
  }

  // ---- the steps ----

  /** Put timer `t`, due one period after the command whose tick count is `value` (and whose
      unwrapped time is `cmd`), where the code puts it when the sampled time is `d.last`.  The flag
      is pdTRUE: process the timer now. */
  function InsertTimer(d: Daemon, t: nat, value: Tick, cmd: nat): (Daemon, bool)
    requires t in d.timers
  {
    var p := d.timers[t].period;
    var next := Wrap(value + p);
    var item := Item(t, next, cmd + p);
    match InsertPlace(next, Wrap(d.last), value, p)
    case Expired => (d, true)
    case Overflow => (d.(overflow := Insert(d.overflow, item)), false)
    case Current => (d.(current := Insert(d.current, item)), false)
  }

  /** Put an expired timer back for its next expiry, by a command if that has passed too. */
  function Reload(d: Daemon, h: Item): Daemon
    requires h.timer in d.timers
  {
    var (d', now) := InsertTimer(d, h.timer, h.value, h.due);
    if now then d'.(queue := d'.queue + [Start(h.timer, h.value, h.due)]) else d'
  }

  /** A new period counts from now. */
  function SetPeriod(d: Daemon, t: nat, p: Tick): Daemon
    requires t in d.timers
  {
    var d1 := d.(timers := d.timers[t := d.timers[t].(period := p)]);
    InsertTimer(d1, t, Wrap(d.last), d.last).0
  }

  /** The timer at the head of the current list has expired (prvProcessExpiredTimer). */
  function ExpireHead(d: Daemon): Daemon
    requires d.current != [] && d.current[0].timer in d.timers
  {
    var h := d.current[0];
    var d1 := d.(current := d.current[1..]);
    var d2 := if d.timers[h.timer].reload then Reload(d1, h) else d1;
    d2.(fired := d2.fired + [Fire(h.timer, h.due, d.last)])
  }

  /** One turn of the loop in prvSwitchTimerLists: the head has expired. */
  function FlushHead(d: Daemon): Daemon
    requires d.current != [] && d.current[0].timer in d.timers
  {
    var h := d.current[0];
    var d1 := d.(current := d.current[1..], fired := d.fired + [Fire(h.timer, h.due, d.last)]);
    if !d.timers[h.timer].reload then d1
    else
      var p := d.timers[h.timer].period;
      var again := Wrap(h.value + p);
      if again > h.value then d1.(current := Insert(d1.current, Item(h.timer, again, h.due + p)))
      else d1.(queue := d1.queue + [Start(h.timer, h.value, h.due)])
  }

  /** What is left to process before the current list is empty. */
  function Remaining(list: seq<Item>): nat {
    if list == [] then 0 else (WRAP - list[0].value) + Remaining(list[1..])
  }

  lemma {:induction false} RemainingConcat(a: seq<Item>, b: seq<Item>)
    ensures Remaining(a + b) == Remaining(a) + Remaining(b)
  {
    if a == [] {
      assert a + b == b;
    } else {
      assert (a + b)[1..] == a[1..] + b;
      RemainingConcat(a[1..], b);
    }
  }

  lemma RemainingInsert(list: seq<Item>, item: Item)
    ensures Remaining(Insert(list, item)) == Remaining(list) + (WRAP - item.value)
  {
    var p := Position(list, item.value);
    assert list == list[..p] + list[p..];
    RemainingConcat(list[..p], list[p..]);
    RemainingConcat(list[..p], [item] + list[p..]);
    assert ([item] + list[p..])[1..] == list[p..];
    assert list[..p] + [item] + list[p..] == list[..p] + ([item] + list[p..]);
  }

  /** Every turn leaves strictly less to process: the timer leaves the list or comes back with a
      strictly larger value. */
  lemma FlushHeadDecreases(d: Daemon)
    requires d.current != [] && d.current[0].timer in d.timers
    ensures Remaining(FlushHead(d).current) < Remaining(d.current)
  {
    var h := d.current[0];
    var p := d.timers[h.timer].period;
    RemainingInsert(d.current[1..], Item(h.timer, Wrap(h.value + p), h.due + p));
  }

  predicate KnownTimers(d: Daemon) {
    forall x :: x in d.current ==> x.timer in d.timers
  }

  lemma KnownAfterFlush(d: Daemon)
    requires d.current != [] && KnownTimers(d)
    ensures KnownTimers(FlushHead(d)) && FlushHead(d).timers == d.timers
  {
    var h := d.current[0];
    var item := Item(h.timer, Wrap(h.value + d.timers[h.timer].period), h.due + d.timers[h.timer].period);
    InsertMembers(d.current[1..], item);
  }

  /** prvSwitchTimerLists: process what is left, then swap the lists. */
  function SwitchLists(d: Daemon): Daemon
    requires KnownTimers(d)
    decreases Remaining(d.current)
  {
    if d.current == [] then d.(current := d.overflow, overflow := [])
    else
      FlushHeadDecreases(d);
      KnownAfterFlush(d);
      SwitchLists(FlushHead(d))
  }

  /** prvSampleTimeNow at unwrapped time `now`. */
  function Sample(d: Daemon, now: nat): Daemon
    requires KnownTimers(d)
  {
    if Wrap(now) < Wrap(d.last) then SwitchLists(d.(last := now)) else d.(last := now)
  }

  /** A start command; if the timer has expired in the meantime it is called at once. */
  function StartTimer(d: Daemon, t: nat, value: Tick, at: nat): Daemon
    requires t in d.timers
  {
    var p := d.timers[t].period;
    var (d1, now) := InsertTimer(d, t, value, at);
    if !now then d1
    else
      var d2 := d1.(fired := d1.fired + [Fire(t, at + p, d.last)]);
      if d.timers[t].reload then d2.(queue := d2.queue + [Start(t, Wrap(value + p), at + p)]) else d2
  }

  /** One turn of the loop in prvProcessReceivedCommands. */
  function Receive(d: Daemon): Daemon
    requires d.queue != [] && d.queue[0].timer in d.timers
  {
    var m := d.queue[0];
    var t := m.timer;
    var d1 := d.(queue := d.queue[1..], current := Without(d.current, t), overflow := Without(d.overflow, t));
    match m
    case Start(_, value, at) => StartTimer(d1, t, value, at)
    case Stop(_) => d1
    case ChangePeriod(_, p) =>
      SetPeriod(d1, t, p)
    case Delete(_) => d1.(timers := d1.timers - {t})
  }

  /** A client sends a command. */
  function Send(d: Daemon, m: Msg): Daemon {
    d.(queue := d.queue + [m])
  }
}
