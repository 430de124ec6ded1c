/** Timers never fire early and never drift, over whole runs of the timer service task. */
module TimerSafety {
  import opened TimerPlacement
  import opened TimerSpec

  // ---- lists ----

  predicate Sorted(list: seq<Item>) {
    forall i, j :: 0 <= i < j < |list| ==> list[i].value <= list[j].value
  }

  predicate Distinct(list: seq<Item>) {
    forall i, j :: 0 <= i < j < |list| ==> list[i].timer != list[j].timer
  }

  predicate Disjoint(a: seq<Item>, b: seq<Item>) {
    forall x, y :: x in a && y in b ==> x.timer != y.timer
  }

  predicate Known(list: seq<Item>, timers: map<nat, Config>) {
    forall x :: x in list ==> x.timer in timers
  }

  /** All items stand for unwrapped times in one epoch. */
  predicate InEpoch(list: seq<Item>, e: int) {
    forall x :: x in list ==> x.value == Wrap(x.due) && Epoch(x.due) == e
  }

  lemma InsertAt(list: seq<Item>, item: Item)
    ensures var p, r := Position(list, item.value), Insert(list, item);
      && |r| == |list| + 1
      && (forall i :: 0 <= i < |r| ==>
           r[i] == if i < p then list[i] else if i == p then item else list[i - 1])
  {
  }

  lemma InsertSorted(list: seq<Item>, item: Item)
    requires Sorted(list)
    ensures Sorted(Insert(list, item))
  {
    var p, r := Position(list, item.value), Insert(list, item);
    InsertAt(list, item);
    assert forall i :: p <= i < |list| ==> list[p].value <= list[i].value;
    hide Insert, Position;
  }

  lemma InsertDistinct(list: seq<Item>, item: Item)
    requires Distinct(list) && Absent(list, item.timer)
    ensures Distinct(Insert(list, item))
  {
    InsertAt(list, item);
    assert forall i :: 0 <= i < |list| ==> list[i] in list;
    hide Insert, Position;
  }

  lemma {:induction false} WithoutMembers(list: seq<Item>, t: nat)
    ensures forall x :: x in Without(list, t) <==> x in list && x.timer != t
  {
    if list == [] {
    } else {
      WithoutMembers(list[1..], t);
      assert list == [list[0]] + list[1..];
    }
  }

  lemma {:induction false} WithoutSorted(list: seq<Item>, t: nat)
    requires Sorted(list)
    ensures Sorted(Without(list, t))
  {
    if list == [] {
    } else {
      WithoutSorted(list[1..], t);
      WithoutMembers(list[1..], t);
      var r := Without(list[1..], t);
      forall i | 0 <= i < |r| ensures list[0].value <= r[i].value {
        assert r[i] in list[1..];
      }
    }
  }

  lemma {:induction false} WithoutDistinct(list: seq<Item>, t: nat)
    requires Distinct(list)
    ensures Distinct(Without(list, t))
  {
    if list == [] {
    } else {
      WithoutDistinct(list[1..], t);
      WithoutMembers(list[1..], t);
      var r := Without(list[1..], t);
      forall i | 0 <= i < |r| ensures list[0].timer != r[i].timer {
        assert r[i] in list[1..];
      }
    }
  }

  lemma TailKeeps(list: seq<Item>)
    requires list != []
    ensures forall x :: x in list[1..] ==> x in list
    ensures forall x :: x in list ==> x == list[0] || x in list[1..]
    ensures Sorted(list) ==> Sorted(list[1..])
    ensures Distinct(list) ==> Distinct(list[1..]) && Absent(list[1..], list[0].timer)
  {
    assert list == [list[0]] + list[1..];
  }

  // ---- the invariant ----

  predicate GoodTimers(timers: map<nat, Config>) {
    forall t :: t in timers ==> 1 <= timers[t].period
  }

  predicate GoodMsg(m: Msg) {
    && (m.Start? ==> m.value == Wrap(m.at))
    && (m.ChangePeriod? ==> 1 <= m.period)
  }

  /** No callback has been made before the time it stands for. */
  predicate NeverEarly(d: Daemon) {
    forall i :: 0 <= i < |d.fired| ==> d.fired[i].due <= d.fired[i].at <= d.last
  }

  /** Everything but the epochs of the two lists. */
  predicate Frame(d: Daemon) {
    && GoodTimers(d.timers)
    && Known(d.current, d.timers) && Known(d.overflow, d.timers)
    && Sorted(d.current) && Sorted(d.overflow)
    && Distinct(d.current) && Distinct(d.overflow) && Disjoint(d.current, d.overflow)
    && (forall m :: m in d.queue ==> GoodMsg(m))
    && NeverEarly(d)
  }

  /** Current-list timers fall due in the current epoch, overflow-list timers in the next one. */
  predicate Inv(d: Daemon) {
    Frame(d) && InEpoch(d.current, Epoch(d.last)) && InEpoch(d.overflow, Epoch(d.last) + 1)
  }

  /** The counter has wrapped since the lists were last switched. */
  predicate Wrapped(d: Daemon) {
    Frame(d) && InEpoch(d.current, Epoch(d.last) - 1) && InEpoch(d.overflow, Epoch(d.last))
  }

  datatype Step =
    | Arrive(msg: Msg)
    | Clock(now: nat)
    | Expire
    | Take

  /** A command is processed with a sample that is not before it and less than 2^32 ticks after
      it; PlacementIff shows that the first half cannot be dropped. */
  predicate Timely(m: Msg, now: nat) {
    m.Start? ==> m.at <= now < m.at + WRAP
  }

  predicate Enabled(d: Daemon, s: Step) {
    match s
    case Arrive(m) => m.timer in d.timers && GoodMsg(m)
    case Clock(now) => d.last <= now < d.last + WRAP
    case Expire => d.current != [] && d.current[0].value <= Wrap(d.last)
    case Take => d.queue != [] && d.queue[0].timer in d.timers && Timely(d.queue[0], d.last)
  }

  function Next(d: Daemon, s: Step): Daemon
    requires Inv(d) && Enabled(d, s)
  {
    assert d.current != [] ==> d.current[0] in d.current;
    match s
    case Arrive(m) => Send(d, m)
    case Clock(now) => Sample(d, now)
    case Expire => ExpireHead(d)
    case Take => Receive(d)
  }

  // ---- placement keeps the invariant ----

  lemma InsertTimerKeeps(d: Daemon, t: nat, value: Tick, cmd: nat)
    requires Inv(d) && t in d.timers && value == Wrap(cmd) && cmd <= d.last < cmd + WRAP
    requires Absent(d.current, t) && Absent(d.overflow, t)
    ensures var (d', now) := InsertTimer(d, t, value, cmd);
      var due := cmd + d.timers[t].period;
      && Inv(d') && d' == d.(current := d'.current, overflow := d'.overflow)
      && (now <==> due <= d.last)
      && (now ==> d' == d)
      && (!now ==>
           var item := Item(t, Wrap(due), due);
           && (item in d'.current || item in d'.overflow)
           && (forall x :: x in d'.current ==> x in d.current || x == item)
           && (forall x :: x in d'.overflow ==> x in d.overflow || x == item)
           && (forall x :: x in d.current ==> x in d'.current)
           && (forall x :: x in d.overflow ==> x in d'.overflow))
  {
    hide Insert, Position, InsertPlace, Sorted, Distinct;
    var p := d.timers[t].period;
    PlacementIff(cmd, d.last, p);
    WrapAdd(cmd, p);
    var item := Item(t, Wrap(cmd + p), cmd + p);
    InsertMembers(d.current, item);
    InsertMembers(d.overflow, item);
    InsertSorted(d.current, item);
    InsertSorted(d.overflow, item);
    InsertDistinct(d.current, item);
    InsertDistinct(d.overflow, item);
  }

  lemma WrapAdd(a: nat, p: nat)
    ensures Wrap(Wrap(a) + p) == Wrap(a + p)
  {
    assert a == WRAP * Epoch(a) + Wrap(a);
    var s := Wrap(a) + p;
    assert s == WRAP * (s / WRAP) + s % WRAP;
    assert a + p == WRAP * (Epoch(a) + s / WRAP) + s % WRAP;
    DivModUnique(a + p, Epoch(a) + s / WRAP, s % WRAP);
  }

  lemma DivModUnique(x: int, q: int, r: int)
    requires x == WRAP * q + r && 0 <= r < WRAP
    ensures x / WRAP == q && x % WRAP == r
  {
  }

  // ---- every step keeps the invariant ----

  lemma DropHead(d: Daemon)
    requires Frame(d) && d.current != []
    ensures var d' := d.(current := d.current[1..]);
      && Frame(d')
      && Absent(d'.current, d.current[0].timer) && Absent(d'.overflow, d.current[0].timer)
      && d.current[0].timer in d.timers
      && (forall x :: x in d'.current ==> x in d.current)
      && (forall x :: x in d.current ==> x == d.current[0] || x in d'.current)
  {
    TailKeeps(d.current);
    assert d.current[0] in d.current;
  }

  lemma SameEpoch(due: nat, last: nat)
    requires Epoch(due) == Epoch(last)
    ensures Wrap(due) <= Wrap(last) <==> due <= last
    ensures -WRAP < last - due < WRAP
  {
  }

  lemma EarlierEpoch(due: nat, last: nat)
    requires Epoch(due) < Epoch(last)
    ensures due < last
  {
  }

  /** What an expired head leaves behind. */
  lemma ExpireKeeps(d: Daemon)
    requires Inv(d) && Enabled(d, Expire)
    ensures Inv(ExpireHead(d))
    ensures var h := d.current[0];
      && h.timer in d.timers && h.value == Wrap(h.due) && h.due <= d.last < h.due + WRAP
      && Absent(d.current[1..], h.timer) && Absent(d.overflow, h.timer)
      && Inv(d.(current := d.current[1..]))
  {
    hide Sorted, Distinct, Insert, InsertPlace, InsertTimer;
    var h := d.current[0];
    assert h in d.current;
    DropHead(d);
    SameEpoch(h.due, d.last);
    var d1 := d.(current := d.current[1..]);
    if d.timers[h.timer].reload {
      InsertTimerKeeps(d1, h.timer, h.value, h.due);
    }
  }

  /** The expired head comes back one period later in the same list, or as a command. */
  lemma FlushKeeps(d: Daemon)
    requires Wrapped(d) && d.current != []
    ensures Wrapped(FlushHead(d))
    ensures d.current[0].timer in d.timers && d.current[0].due <= d.last
    ensures var h, p := d.current[0], d.timers[d.current[0].timer].period;
      var again := Wrap(h.value + p);
      again > h.value ==>
        again == Wrap(h.due + p) && Epoch(h.due + p) == Epoch(h.due)
  {
    hide Sorted, Distinct, Insert, Wrap, Epoch;
    var h := d.current[0];
    assert h in d.current;
    DropHead(d);
    EarlierEpoch(h.due, d.last);
    var p := d.timers[h.timer].period;
    var item := Item(h.timer, Wrap(h.value + p), h.due + p);
    InsertMembers(d.current[1..], item);
    InsertSorted(d.current[1..], item);
    InsertDistinct(d.current[1..], item);
    SameListAgain(h.due, p);
  }

  /** What one turn of the loop changes. */
  lemma FlushChanges(d: Daemon)
    requires d.current != [] && d.current[0].timer in d.timers
    ensures var d', h := FlushHead(d), d.current[0];
      && d' == d.(current := d'.current, queue := d'.queue, fired := d.fired + [Fire(h.timer, h.due, d.last)])
      && (d'.queue == d.queue ||
           (d.timers[h.timer].reload && d'.queue == d.queue + [Start(h.timer, h.value, h.due)]))
      && (forall x :: x in d.current[1..] ==> x in d'.current)
      && (forall x :: x in d'.current ==>
           x in d.current[1..] || x == Item(h.timer, x.value, h.due + d.timers[h.timer].period))
  {
    hide Insert;
    var h := d.current[0];
    var p := d.timers[h.timer].period;
    InsertMembers(d.current[1..], Item(h.timer, Wrap(h.value + p), h.due + p));
  }

  lemma SameListAgain(due: nat, p: Tick)
    ensures Wrap(Wrap(due) + p) == Wrap(due + p)
    ensures Wrap(due + p) > Wrap(due) ==> Epoch(due + p) == Epoch(due)
  {
    WrapAdd(due, p);
    assert due == WRAP * Epoch(due) + Wrap(due);
    if Wrap(due) + p < WRAP {
      DivModUnique(due + p, Epoch(due), Wrap(due) + p);
    } else {
      DivModUnique(due + p, Epoch(due) + 1, Wrap(due) + p - WRAP);
    }
  }

  lemma {:induction false} SwitchKeeps(d: Daemon)
    requires Wrapped(d)
    ensures KnownTimers(d) && Inv(SwitchLists(d))
    decreases Remaining(d.current)
  {
    hide Sorted, Distinct;
    if d.current == [] {
    } else {
      FlushHeadDecreases(d);
      KnownAfterFlush(d);
      FlushKeeps(d);
      SwitchKeeps(FlushHead(d));
    }
  }

  lemma ClockEpoch(last: nat, now: nat)
    requires last <= now < last + WRAP
    ensures Wrap(now) < Wrap(last) ==> Epoch(now) == Epoch(last) + 1
    ensures Wrap(now) >= Wrap(last) ==> Epoch(now) == Epoch(last)
  {
  }

  lemma SampleKeeps(d: Daemon, now: nat)
    requires Inv(d) && Enabled(d, Clock(now))
    ensures KnownTimers(d) && Inv(Sample(d, now))
    ensures Wrap(now) < Wrap(d.last) ==> Wrapped(d.(last := now))
  {
    ClockEpoch(d.last, now);
    if Wrap(now) < Wrap(d.last) { SwitchKeeps(d.(last := now)); }
  }

  /** The lists without the timer of the command. */
  function Unlisted(d: Daemon): Daemon
    requires d.queue != []
  {
    var t := d.queue[0].timer;
    d.(queue := d.queue[1..], current := Without(d.current, t), overflow := Without(d.overflow, t))
  }

  lemma UnlistKeeps(d: Daemon)
    requires Inv(d) && d.queue != []
    ensures Inv(Unlisted(d)) && GoodMsg(d.queue[0])
    ensures Absent(Unlisted(d).current, d.queue[0].timer) && Absent(Unlisted(d).overflow, d.queue[0].timer)
    ensures forall x :: x in Unlisted(d).current <==> x in d.current && x.timer != d.queue[0].timer
    ensures forall x :: x in Unlisted(d).overflow <==> x in d.overflow && x.timer != d.queue[0].timer
  {
    var t := d.queue[0].timer;
    WithoutMembers(d.current, t);
    WithoutMembers(d.overflow, t);
    WithoutSorted(d.current, t);
    WithoutSorted(d.overflow, t);
    WithoutDistinct(d.current, t);
    WithoutDistinct(d.overflow, t);
    assert d.queue[0] in d.queue;
    assert forall m :: m in d.queue[1..] ==> m in d.queue;
  }

  lemma StartKeeps(d: Daemon, t: nat, at: nat)
    requires Inv(d) && t in d.timers && at <= d.last < at + WRAP
    requires Absent(d.current, t) && Absent(d.overflow, t)
    ensures Inv(StartTimer(d, t, Wrap(at), at))
  {
    hide Sorted, Distinct, InsertTimer;
    InsertTimerKeeps(d, t, Wrap(at), at);
    WrapAdd(at, d.timers[t].period);
  }

  lemma SetPeriodKeeps(d: Daemon, t: nat, p: Tick)
    requires Inv(d) && t in d.timers && 1 <= p && Absent(d.current, t) && Absent(d.overflow, t)
    ensures Inv(SetPeriod(d, t, p))
  {
    hide Sorted, Distinct, InsertTimer;
    var d1 := d.(timers := d.timers[t := d.timers[t].(period := p)]);
    InsertTimerKeeps(d1, t, Wrap(d1.last), d1.last);
  }

  lemma TakeKeeps(d: Daemon)
    requires Inv(d) && Enabled(d, Take)
    ensures Inv(Receive(d))
  {
    hide Sorted, Distinct, StartTimer, SetPeriod, Without;
    UnlistKeeps(d);
    match d.queue[0]
    case Start(t, _, at) => StartKeeps(Unlisted(d), t, at);
    case Stop(_) =>
    case ChangePeriod(t, p) => SetPeriodKeeps(Unlisted(d), t, p);
    case Delete(_) =>
  }

  /** Every step keeps the invariant; in particular no callback is ever early. */
  lemma StepKeeps(d: Daemon, s: Step)
    requires Inv(d) && Enabled(d, s)
    ensures Inv(Next(d, s))
  {
    hide Sorted, Distinct;
    match s
    case Arrive(m) =>
    case Clock(now) => SampleKeeps(d, now);
    case Expire => ExpireKeeps(d);
    case Take => TakeKeeps(d);
  }

  // ---- the boundary ----

  /** A start command makes an early callback exactly if it was issued after the sample it is
      processed with: the code takes the timer to have expired and calls it before it is due. */
  lemma EarlyIffAfterSample(d: Daemon)
    requires Inv(d) && d.queue != [] && d.queue[0].Start? && d.queue[0].timer in d.timers
    requires var m := d.queue[0]; m.at < d.last + WRAP && d.last < m.at + WRAP
    requires d.queue[0].at + d.timers[d.queue[0].timer].period <= d.last + WRAP
    ensures NeverEarly(Receive(d)) <==> d.queue[0].at <= d.last
  {
    hide Sorted, Distinct, Without, InsertTimer;
    var m := d.queue[0];
    if m.at <= d.last {
      TakeKeeps(d);
    } else {
      LateCommandFires(d);
      var fired := Receive(d).fired;
      assert fired[|fired| - 1].due > fired[|fired| - 1].at;
    }
  }

  lemma LateCommandFires(d: Daemon)
    requires Inv(d) && d.queue != [] && d.queue[0].Start? && d.queue[0].timer in d.timers
    requires d.last < d.queue[0].at && d.queue[0].at + d.timers[d.queue[0].timer].period <= d.last + WRAP
    ensures var m := d.queue[0];
      Receive(d).fired == d.fired + [Fire(m.timer, m.at + d.timers[m.timer].period, d.last)]
  {
    hide Sorted, Distinct, Without, InsertPlace;
    var m := d.queue[0];
    UnlistKeeps(d);
    WrapAdd(m.at, d.timers[m.timer].period);
    LateLooksExpired(m.at, d.last, d.timers[m.timer].period);
  }
}
