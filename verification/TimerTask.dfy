/** The timer service task as it runs: static lists and a command queue, updated in place. */
module TimerTask {
  import opened TimerPlacement
  import opened TimerSpec
  import opened TimerSafety
  import opened TimerRuns

  /** A queue that can be drained: its timers exist, its start commands are processed in time, and
      no other command is waiting for a timer that is to be deleted.  SampleKeepsOrderIff says
      what clients owe for that. */
  predicate QueueInOrder(queue: seq<Msg>, timers: map<nat, Config>, now: nat) {
    && (forall i :: 0 <= i < |queue| ==> queue[i].timer in timers && Timely(queue[i], now))
    && (forall i, j :: 0 <= i < |queue| && 0 <= j < |queue| && i != j && queue[i].Delete? ==>
         queue[j].timer != queue[i].timer)
  }

  /** How much draining a queue can still take: an expired auto-reload timer sends itself a command
      that is one period later. */
  function Work(queue: seq<Msg>, now: nat): nat {
    if queue == [] then 0
    else 1 + (if queue[0].Start? && queue[0].at <= now then now - queue[0].at else 0) + Work(queue[1..], now)
  }

  lemma {:induction false} WorkSnoc(queue: seq<Msg>, m: Msg, now: nat)
    ensures Work(queue + [m], now) ==
      Work(queue, now) + 1 + if m.Start? && m.at <= now then now - m.at else 0
  {
    if queue == [] {
      assert [] + [m] == [m] && [m][1..] == [];
    } else {
      assert (queue + [m])[1..] == queue[1..] + [m];
      WorkSnoc(queue[1..], m, now);
    }
  }

  lemma ReceiveProgress(d: Daemon)
    requires Inv(d) && d.queue != [] && QueueInOrder(d.queue, d.timers, d.last)
    ensures Enabled(d, Take) && QueueInOrder(Receive(d).queue, Receive(d).timers, d.last)
    ensures Work(Receive(d).queue, d.last) < Work(d.queue, d.last)
    ensures Receive(d).last == d.last
  {
    hide Frame, InEpoch, Without, InsertTimer, StartTimer, SetPeriod, Work, QueueInOrder;
    UnlistKeeps(d);
    HeadInOrder(d.queue, d.timers, d.last);
    ReceiveIs(d);
    var m, u := d.queue[0], Unlisted(d);
    match m
    case Start(t, value, at) => StartProgress(d, t, value, at);
    case Stop(_) =>
    case ChangePeriod(t, p) =>
      SetPeriodFrame(u, t, p);
      OrderKept(d.queue[1..], d.timers, Receive(d).timers, d.last);
    case Delete(t) =>
      OrderAfterDelete(d.queue, d.timers, d.last);
  }

  lemma HeadInOrder(queue: seq<Msg>, timers: map<nat, Config>, now: nat)
    requires queue != [] && QueueInOrder(queue, timers, now)
    ensures queue[0].timer in timers && Timely(queue[0], now)
    ensures QueueInOrder(queue[1..], timers, now) && Work(queue[1..], now) < Work(queue, now)
  {
  }

  lemma OrderKept(queue: seq<Msg>, timers: map<nat, Config>, timers': map<nat, Config>, now: nat)
    requires QueueInOrder(queue, timers, now) && forall t :: t in timers ==> t in timers'
    ensures QueueInOrder(queue, timers', now)
  {
  }

  lemma OrderAfterDelete(queue: seq<Msg>, timers: map<nat, Config>, now: nat)
    requires queue != [] && queue[0].Delete? && QueueInOrder(queue, timers, now)
    ensures QueueInOrder(queue[1..], timers - {queue[0].timer}, now)
  {
  }

  lemma SetPeriodFrame(d: Daemon, t: nat, p: Tick)
    requires t in d.timers
    ensures var d' := SetPeriod(d, t, p);
      d'.queue == d.queue && d'.last == d.last && forall x :: x in d.timers ==> x in d'.timers
  {
    hide Insert, InsertPlace;
  }

  /** If the timer has expired already, the command it sends itself is a period later. */
  lemma StartProgress(d: Daemon, t: nat, value: Tick, at: nat)
    requires Inv(d) && d.queue != [] && d.queue[0] == Start(t, value, at) && QueueInOrder(d.queue, d.timers, d.last)
    requires t in d.timers
    ensures var d' := StartTimer(Unlisted(d), t, value, at);
      && d'.last == d.last && d'.timers == d.timers && QueueInOrder(d'.queue, d'.timers, d.last)
      && Work(d'.queue, d.last) < Work(d.queue, d.last)
  {
    hide Frame, InEpoch, Without, InsertTimer;
    UnlistKeeps(d);
    InsertTimerKeeps(Unlisted(d), t, value, at);
    var p := d.timers[t].period;
    PeriodIsPositive(d, t);
    WorkSnoc(d.queue[1..], Start(t, Wrap(value + p), at + p), d.last);
  }

  /** What a command does once its timer has been taken out of the lists. */
  lemma ReceiveIs(d: Daemon)
    requires d.queue != [] && d.queue[0].timer in d.timers
    ensures var u, t := Unlisted(d), d.queue[0].timer;
      Receive(d) == match d.queue[0]
        case Start(_, value, at) => StartTimer(u, t, value, at)
        case Stop(_) => u
        case ChangePeriod(_, p) => SetPeriod(u, t, p)
        case Delete(_) => u.(timers := u.timers - {t})
  {
  }

  lemma PeriodIsPositive(d: Daemon, t: nat)
    requires Frame(d) && t in d.timers
    ensures 1 <= d.timers[t].period
  {
  }

  /** The queue drained: commands are taken until none is left. */
  function Drain(d: Daemon): Daemon
    requires Inv(d) && QueueInOrder(d.queue, d.timers, d.last)
    decreases Work(d.queue, d.last)
  {
    if d.queue == [] then d
    else
      ReceiveProgress(d);
      TakeKeeps(d);
      Drain(Receive(d))
  }

  lemma {:induction false} DrainKeeps(d: Daemon)
    requires Inv(d) && QueueInOrder(d.queue, d.timers, d.last)
    ensures Inv(Drain(d)) && Drain(d).queue == []
    decreases Work(d.queue, d.last)
  {
    hide Frame, InEpoch, Receive;
    if d.queue == [] {
    } else {
      ReceiveProgress(d);
      TakeKeeps(d);
      DrainKeeps(Receive(d));
    }
  }

  /** Draining is a run of single commands, so everything proved of runs holds of it. */
  lemma {:induction false} DrainIsARun(d: Daemon) returns (steps: seq<Step>)
    requires Inv(d) && QueueInOrder(d.queue, d.timers, d.last)
    ensures EnabledRun(d, steps) && AfterRun(d, steps) == Drain(d)
    ensures forall i :: 0 <= i < |steps| ==> steps[i] == Take
    decreases Work(d.queue, d.last)
  {
    hide Frame, InEpoch, Receive, QueueInOrder;
    if d.queue == [] {
      steps := [];
    } else {
      ReceiveProgress(d);
      TakeKeeps(d);
      var rest := DrainIsARun(Receive(d));
      steps := [Take] + rest;
      assert steps[1..] == rest && Next(d, Take) == Receive(d);
    }
  }

  class TimerService {
    var timers: map<nat, Config>
    var currentList: seq<Item>
    var overflowList: seq<Item>
    var queue: seq<Msg>
    var lastTime: Tick
    ghost var last: nat
    ghost var fired: seq<Fire>

    ghost function State(): Daemon
      reads this
    {
      Daemon(timers, currentList, overflowList, queue, last, fired)
    }

    ghost predicate Valid()
      reads this
    {
      Inv(State()) && lastTime == Wrap(last)
    }

    constructor (timers: map<nat, Config>)
      requires GoodTimers(timers)
      ensures Valid() && State() == Daemon(timers, [], [], [], 0, [])
    {
      this.timers := timers;
      currentList, overflowList, queue := [], [], [];
      lastTime := 0;
      last, fired := 0, [];
    }

    method GenericCommand(m: Msg)
      modifies this`queue
      ensures queue == old(queue) + [m]
    {
      queue := queue + [m];
    }

    /** `at` is the unwrapped time of the command. */
    method InsertTimerInActiveList(t: nat, nextExpiry: Tick, timeNow: Tick, commandTime: Tick, at: nat)
      returns (processNow: bool)
      requires t in timers && timeNow == Wrap(last)
      requires nextExpiry == Wrap(commandTime + timers[t].period)
      modifies this`currentList, this`overflowList
      ensures (State(), processNow) == InsertTimer(old(State()), t, commandTime, at)
    {
      processNow := false;
      var item := Item(t, nextExpiry, at + timers[t].period);
      if nextExpiry <= timeNow {
        // The subtraction is done in 32 bits.
        if (timeNow - commandTime) % WRAP >= timers[t].period {
          processNow := true;
        } else {
          overflowList := Insert(overflowList, item);
        }
      } else {
        if timeNow < commandTime && nextExpiry >= commandTime {
          processNow := true;
        } else {
          currentList := Insert(currentList, item);
        }
      }
    }

    method ReloadTimer(h: Item, nextExpireTime: Tick, timeNow: Tick)
      requires h.timer in timers && timeNow == Wrap(last) && nextExpireTime == h.value
      modifies this`currentList, this`overflowList, this`queue
      ensures State() == Reload(old(State()), h)
    {
      hide InsertTimer;
      var p := timers[h.timer].period;
      var now := InsertTimerInActiveList(h.timer, (nextExpireTime + p) % WRAP, timeNow, nextExpireTime, h.due);
      if now {
        GenericCommand(Start(h.timer, nextExpireTime, h.due));
      }
    }

    /** The head of the current list has expired. */
    method ProcessExpiredTimer(nextExpireTime: Tick, timeNow: Tick)
      requires Valid() && currentList != [] && timeNow == lastTime
      requires nextExpireTime == currentList[0].value && nextExpireTime <= timeNow
      modifies this`currentList, this`overflowList, this`queue, this`fired
      ensures Valid()
      ensures old(currentList)[0].timer in timers && State() == ExpireHead(old(State()))
    {
      ExpireKeeps(State());
      hide Inv, Reload;
      var h := currentList[0];
      currentList := currentList[1..];
      if timers[h.timer].reload {
        ReloadTimer(h, nextExpireTime, timeNow);
      }
      fired := fired + [Fire(h.timer, h.due, last)];
    }

    /** The tick count has wrapped: process what the current list still holds, then swap. */
    method SwitchTimerLists()
      requires Wrapped(State())
      modifies this`currentList, this`overflowList, this`queue, this`fired
      ensures KnownTimers(old(State())) && State() == SwitchLists(old(State()))
    {
      hide Frame, InEpoch, Insert, FlushHead;
      ghost var start := State();
      SwitchKeeps(start);
      while currentList != []
        invariant Wrapped(State()) && KnownTimers(State()) && timers == old(timers)
        invariant SwitchLists(State()) == SwitchLists(start)
        decreases Remaining(currentList)
      {
        ghost var d := State();
        FlushHeadDecreases(d);
        KnownAfterFlush(d);
        FlushKeeps(d);
        FlushOnce();
        assert State() == FlushHead(d);
      }
      currentList, overflowList := overflowList, currentList;
    }

    /** One turn of the loop. */
    method FlushOnce()
      requires KnownTimers(State()) && currentList != []
      modifies this`currentList, this`queue, this`fired
      ensures old(currentList)[0].timer in timers && State() == FlushHead(old(State()))
    {
      hide Insert;
      var h := currentList[0];
      assert h in currentList;
      currentList := currentList[1..];
      fired := fired + [Fire(h.timer, h.due, last)];
      if timers[h.timer].reload {
        var reloadTime := (h.value + timers[h.timer].period) % WRAP;
        if reloadTime > h.value {
          currentList := Insert(currentList, Item(h.timer, reloadTime, h.due + timers[h.timer].period));
        } else {
          GenericCommand(Start(h.timer, h.value, h.due));
        }
      }
    }

    /** Samples the tick counter at unwrapped time `now`; only its low 32 bits are looked at. */
    method SampleTimeNow(now: nat) returns (timeNow: Tick, switched: bool)
      requires Valid() && Enabled(State(), Clock(now))
      modifies this
      ensures Valid() && timeNow == lastTime == Wrap(now)
      ensures KnownTimers(old(State())) && State() == Sample(old(State()), now)
      ensures switched <==> Wrap(now) < Wrap(old(last))
    {
      hide Inv, Wrapped, SwitchLists;
      SampleKeeps(State(), now);
      timeNow := now % WRAP;
      switched := timeNow < lastTime;
      last := now;
      if switched {
        SwitchTimerLists();
      }
      lastTime := timeNow;
    }

    method GetNextExpireTime() returns (next: Tick, listWasEmpty: bool)
      ensures listWasEmpty <==> currentList == []
      ensures next == if currentList == [] then 0 else currentList[0].value
    {
      listWasEmpty := currentList == [];
      if listWasEmpty { next := 0; } else { next := currentList[0].value; }
    }

    /** Process the timer that expires next, if it has expired. */
    method ProcessTimerOrBlockTask(next: Tick, listWasEmpty: bool, now: nat)
      requires Valid() && Enabled(State(), Clock(now))
      requires listWasEmpty <==> currentList == []
      requires currentList != [] ==> next == currentList[0].value
      modifies this
      ensures Valid() && KnownTimers(old(State())) && last == now
      ensures var d := Sample(old(State()), now);
        && Inv(d)
        && State() == if Wrap(now) >= Wrap(old(last)) && Enabled(d, Expire) then Next(d, Expire) else d
    {
      hide Frame, InEpoch, ExpireHead, SwitchLists;
      SampleKeeps(State(), now);
      SampleTime(State(), now);
      var timeNow, switched := SampleTimeNow(now);
      if !switched {
        if !listWasEmpty && next <= timeNow {
          ExpireKeeps(State());
          ProcessExpiredTimer(next, timeNow);
        }
      }
    }

    /** Removes a timer from whichever list it is in. */
    method RemoveFromLists(t: nat)
      modifies this`currentList, this`overflowList
      ensures currentList == Without(old(currentList), t) && overflowList == Without(old(overflowList), t)
    {
      currentList := Without(currentList, t);
      overflowList := Without(overflowList, t);
    }

    method StartOne(t: nat, value: Tick, at: nat, timeNow: Tick)
      requires t in timers && timeNow == Wrap(last)
      modifies this`currentList, this`overflowList, this`queue, this`fired
      ensures State() == StartTimer(old(State()), t, value, at)
    {
      hide InsertTimer;
      var p := timers[t].period;
      var expired := InsertTimerInActiveList(t, (value + p) % WRAP, timeNow, value, at);
      if expired {
        fired := fired + [Fire(t, at + p, last)];
        if timers[t].reload {
          GenericCommand(Start(t, (value + p) % WRAP, at + p));
        }
      }
    }

    method ChangeOne(t: nat, p: Tick, timeNow: Tick, now: nat)
      requires t in timers && timeNow == Wrap(last) && now == last
      modifies this`timers, this`currentList, this`overflowList
      ensures State() == SetPeriod(old(State()), t, p)
    {
      hide InsertTimer;
      timers := timers[t := timers[t].(period := p)];
      var _ := InsertTimerInActiveList(t, (timeNow + p) % WRAP, timeNow, timeNow, now);
    }

    /** One command. */
    method ReceiveOne(timeNow: Tick, now: nat)
      requires Valid() && Enabled(State(), Take) && timeNow == lastTime && now == last
      modifies this`timers, this`currentList, this`overflowList, this`queue, this`fired
      ensures Valid()
      ensures State() == Receive(old(State()))
    {
      hide Inv, Receive, SetPeriod, StartTimer, Without, Wrap, InsertTimer;
      ghost var d := State();
      TakeKeeps(d);
      ReceiveIs(d);
      var m := queue[0];
      var t := m.timer;
      queue := queue[1..];
      RemoveFromLists(t);
      assert State() == Unlisted(d);
      match m {
        case Start(_, value, at) =>
          StartOne(t, value, at, timeNow);
        case Stop(_) =>
        case ChangePeriod(_, p) =>
          ChangeOne(t, p, timeNow, now);
        case Delete(_) =>
          timers := timers - {t};
      }
    }

    /** Samples the time once and drains the queue. */
    method ProcessReceivedCommands(now: nat)
      requires Valid() && Enabled(State(), Clock(now))
      requires KnownTimers(State()) && QueueInOrder(Sample(State(), now).queue, Sample(State(), now).timers, now)
      modifies this
      ensures Valid() && queue == [] && last == now
      ensures Inv(Sample(old(State()), now)) && Sample(old(State()), now).last == now
      ensures State() == Drain(Sample(old(State()), now))
    {
      hide Frame, InEpoch, Receive, SwitchLists, QueueInOrder;
      SampleKeeps(State(), now);
      SampleTime(State(), now);
      ghost var d0 := Sample(State(), now);
      var timeNow, _ := SampleTimeNow(now);
      while queue != []
        invariant Valid() && timeNow == lastTime && last == now
        invariant QueueInOrder(queue, timers, now)
        invariant Drain(State()) == Drain(d0)
        decreases Work(queue, now)
      {
        ReceiveProgress(State());
        TakeKeeps(State());
        ReceiveOne(timeNow, now);
      }
    }
  }

  // ---- what clients owe ----

  /** The list switch sends commands of its own.  If nothing was overdue at the previous sample they
      are in time, and the queue can be drained if and only if no waiting command deletes an
      auto-reload timer that is still in the list being switched away. */
  lemma SampleKeepsOrderIff(d: Daemon, now: nat)
    requires Inv(d) && Enabled(d, Clock(now)) && !Enabled(d, Expire)
    requires QueueInOrder(d.queue, d.timers, now)
    ensures KnownTimers(d) && (QueueInOrder(Sample(d, now).queue, Sample(d, now).timers, now) <==>
      Wrap(now) >= Wrap(d.last) || forall m :: m in d.queue && m.Delete? ==> NoRestart(d, m.timer))
  {
    SampleKeeps(d, now);
    if Wrap(now) < Wrap(d.last) {
      var d1 := d.(last := now);
      forall x | x in d1.current ensures now < x.due + WRAP {
        NothingOverdue(d, x);
      }
      if Recent(d1) {
        SwitchKeepsOrder(d1);
      } else {
        var m, x :| m in d1.queue && m.Delete? && x in d1.current && x.timer == m.timer && Reloads(d1, x.timer);
        SwitchRestarts(d1, x);
        var q := SwitchLists(d1).queue;
        var start :| start in q && start.Start? && start.timer == x.timer;
        OutOfOrder(q, SwitchLists(d1).timers, now, m, start);
      }
    }
  }

  predicate Reloads(d: Daemon, t: nat) {
    t in d.timers && d.timers[t].reload
  }

  /** The switch does not restart the timer. */
  ghost predicate NoRestart(d: Daemon, t: nat) {
    forall x :: x in d.current && x.timer == t ==> !Reloads(d, x.timer)
  }

  lemma OutOfOrder(queue: seq<Msg>, timers: map<nat, Config>, now: nat, delete: Msg, start: Msg)
    requires delete in queue && delete.Delete? && start in queue && start.Start? && start.timer == delete.timer
    ensures !QueueInOrder(queue, timers, now)
  {
    var i :| 0 <= i < |queue| && queue[i] == delete;
    var j :| 0 <= j < |queue| && queue[j] == start;
  }

  lemma NothingOverdue(d: Daemon, x: Item)
    requires Inv(d) && !Enabled(d, Expire) && x in d.current
    ensures x.due > d.last
  {
    var i :| 0 <= i < |d.current| && d.current[i] == x;
    assert d.current[0].value <= x.value;
    SameEpoch(x.due, d.last);
  }

  /** All that is left in the list fell due less than a turn of the counter ago, and what is to be
      deleted will not be restarted. */
  ghost predicate Recent(d: Daemon) {
    && (forall x :: x in d.current ==> d.last < x.due + WRAP)
    && (forall m :: m in d.queue && m.Delete? ==> NoRestart(d, m.timer))
  }

  lemma FlushKeepsOrder(d: Daemon)
    requires Wrapped(d) && d.current != [] && Recent(d) && QueueInOrder(d.queue, d.timers, d.last)
    ensures d.current[0].timer in d.timers
    ensures var d' := FlushHead(d);
      && d'.timers == d.timers && d'.last == d.last && Recent(d') && QueueInOrder(d'.queue, d'.timers, d.last)
  {
    hide Frame, InEpoch, FlushHead, QueueInOrder;
    FlushKeeps(d);
    FlushChanges(d);
    var h := d.current[0];
    assert h in d.current;
    TailKeeps(d.current);
    if Reloads(d, h.timer) {
      RestartInOrder(d.queue, d.timers, d.last, Start(h.timer, h.value, h.due));
    }
  }

  lemma RestartInOrder(queue: seq<Msg>, timers: map<nat, Config>, now: nat, m: Msg)
    requires QueueInOrder(queue, timers, now) && m.Start? && m.timer in timers && Timely(m, now)
    requires forall x :: x in queue && x.Delete? ==> x.timer != m.timer
    ensures QueueInOrder(queue + [m], timers, now)
  {
    assert forall i :: 0 <= i < |queue| ==> queue[i] in queue;
  }

  lemma {:induction false} SwitchKeepsOrder(d: Daemon)
    requires Wrapped(d) && Recent(d) && QueueInOrder(d.queue, d.timers, d.last)
    ensures KnownTimers(d) && QueueInOrder(SwitchLists(d).queue, SwitchLists(d).timers, d.last)
    decreases Remaining(d.current)
  {
    hide Frame, InEpoch, Recent, QueueInOrder, FlushHead;
    SwitchKeeps(d);
    if d.current == [] {
      assert SwitchLists(d).queue == d.queue;
    } else {
      FlushHeadDecreases(d);
      KnownAfterFlush(d);
      FlushKeeps(d);
      FlushKeepsOrder(d);
      SwitchKeepsOrder(FlushHead(d));
    }
  }

  /** Every auto-reload timer in the list is sent a restart command. */
  lemma {:induction false} SwitchRestarts(d: Daemon, x: Item)
    requires Wrapped(d) && x in d.current && Reloads(d, x.timer)
    ensures KnownTimers(d) && exists m :: m in SwitchLists(d).queue && m.Start? && m.timer == x.timer
    ensures forall m :: m in d.queue ==> m in SwitchLists(d).queue
    decreases Remaining(d.current)
  {
    hide Frame, InEpoch, FlushHead;
    SwitchKeeps(d);
    FlushHeadDecreases(d);
    KnownAfterFlush(d);
    FlushKeeps(d);
    FlushChanges(d);
    var d', h := FlushHead(d), d.current[0];
    if x == h {
      HeadRestarts(d);
      if Start(h.timer, h.value, h.due) in d'.queue {
        SwitchKeepsQueue(d');
      } else {
        var y :| y in d'.current && y.timer == h.timer;
        SwitchRestarts(d', y);
      }
    } else {
      assert x in d.current[1..] by { TailKeeps(d.current); }
      SwitchRestarts(d', x);
    }
  }

  lemma HeadRestarts(d: Daemon)
    requires d.current != [] && Reloads(d, d.current[0].timer)
    ensures var d', h := FlushHead(d), d.current[0];
      Start(h.timer, h.value, h.due) in d'.queue || exists y :: y in d'.current && y.timer == h.timer
  {
    hide Insert;
    var h := d.current[0];
    var p := d.timers[h.timer].period;
    var item := Item(h.timer, Wrap(h.value + p), h.due + p);
    InsertMembers(d.current[1..], item);
    assert item.timer == h.timer;
  }

  lemma {:induction false} SwitchKeepsQueue(d: Daemon)
    requires KnownTimers(d)
    ensures forall m :: m in d.queue ==> m in SwitchLists(d).queue
    decreases Remaining(d.current)
  {
    hide FlushHead;
    if d.current == [] {
      assert SwitchLists(d).queue == d.queue;
    } else {
      FlushHeadDecreases(d);
      KnownAfterFlush(d);
      FlushChanges(d);
      SwitchKeepsQueue(FlushHead(d));
    }
  }

  /** Otherwise the restart is processed for a timer that is gone. */
  lemma DeletedTimerIsRestarted(d: Daemon, now: nat, h: Item)
    requires Inv(d) && Enabled(d, Clock(now)) && Wrap(now) < Wrap(d.last)
    requires d.current == [h] && d.queue == [Delete(h.timer)] && h.timer in d.timers
    requires var c := d.timers[h.timer]; c.reload && Wrap(h.value + c.period) <= h.value
    ensures KnownTimers(d) && var s := Sample(d, now);
      && s.queue == [Delete(h.timer), Start(h.timer, h.value, h.due)] && h.timer in s.timers
      && Receive(s).queue == [Start(h.timer, h.value, h.due)] && h.timer !in Receive(s).timers
  {
    hide Insert, Frame, InEpoch, Without;
    var d1 := d.(last := now);
    assert d.current[1..] == [];
    var d2 := FlushHead(d1);
    assert d2.current == [] && d2.queue == [Delete(h.timer), Start(h.timer, h.value, h.due)];
    assert SwitchLists(d1) == SwitchLists(d2) == d2.(current := d2.overflow, overflow := []);
  }

  lemma {:induction false} SwitchTime(d: Daemon)
    requires KnownTimers(d)
    ensures SwitchLists(d).last == d.last && SwitchLists(d).timers == d.timers
    decreases Remaining(d.current)
  {
    if d.current == [] {
    } else {
      FlushHeadDecreases(d);
      KnownAfterFlush(d);
      SwitchTime(FlushHead(d));
    }
  }

  lemma SampleTime(d: Daemon, now: nat)
    requires KnownTimers(d)
    ensures Sample(d, now).last == now && Sample(d, now).timers == d.timers
  {
    SwitchTime(d.(last := now));
  }
}
