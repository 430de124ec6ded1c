/** Whole runs: the callbacks of an undisturbed timer stand for C + P, C + 2P, ... */
module TimerRuns {
  import opened TimerPlacement
  import opened TimerSpec
  import opened TimerSafety

  /** The expiries for which timer `t` has been called, in order. */
  function Dues(fired: seq<Fire>, t: nat): seq<nat> {
    if fired == [] then []
    else
      var f := fired[|fired| - 1];
      Dues(fired[..|fired| - 1], t) + if f.timer == t then [f.due] else []
  }

  lemma DuesSnoc(fired: seq<Fire>, f: Fire, t: nat)
    ensures Dues(fired + [f], t) == Dues(fired, t) + if f.timer == t then [f.due] else []
  {
    assert (fired + [f])[..|fired|] == fired;
  }

  /** The commands for timer `t` that are waiting, in order. */
  function MsgsOf(queue: seq<Msg>, t: nat): seq<Msg> {
    if queue == [] then []
    else (if queue[0].timer == t then [queue[0]] else []) + MsgsOf(queue[1..], t)
  }

  lemma {:induction false} MsgsSnoc(queue: seq<Msg>, m: Msg, t: nat)
    ensures MsgsOf(queue + [m], t) == MsgsOf(queue, t) + if m.timer == t then [m] else []
  {
    if queue == [] {
      assert [] + [m] == [m] && [m][1..] == [];
    } else {
      MsgsSnoc(queue[1..], m, t);
      MsgsCons(queue, t);
      MsgsCons(queue + [m], t);
      assert (queue + [m])[1..] == queue[1..] + [m];
      hide MsgsOf;
      var first := if queue[0].timer == t then [queue[0]] else [];
      var last := if m.timer == t then [m] else [];
      assert (first + MsgsOf(queue[1..], t)) + last == first + (MsgsOf(queue[1..], t) + last);
    }
  }

  lemma MsgsCons(queue: seq<Msg>, t: nat)
    requires queue != []
    ensures MsgsOf(queue, t) == (if queue[0].timer == t then [queue[0]] else []) + MsgsOf(queue[1..], t)
  {
  }

  /** The k-th expiry of a timer started at `c` with period `p`. */
  function Stamp(c: nat, p: nat, k: nat): nat {
    if k == 0 then c else Stamp(c, p, k - 1) + p
  }

  lemma {:induction false} StampIs(c: nat, p: nat, k: nat)
    ensures Stamp(c, p, k) == c + k * p
  {
    if k == 0 {
    } else {
      StampIs(c, p, k - 1);
    }
  }

  lemma StampNext(c: nat, p: nat, k: nat)
    ensures Stamp(c, p, k + 1) == Stamp(c, p, k) + p
  {
  }

  /** The first `k` expiries. */
  function Stamps(c: nat, p: nat, k: nat): seq<nat> {
    seq(k, i requires 0 <= i => Stamp(c, p, i + 1))
  }

  lemma StampsNext(c: nat, p: nat, k: nat)
    ensures Stamps(c, p, k + 1) == Stamps(c, p, k) + [Stamp(c, p, k + 1)]
  {
  }

  /** Timer `t` was started at `c`; before that its callbacks were `base`. */
  datatype Story = Story(t: nat, c: nat, cfg: Config, base: seq<nat>)

  /** The timer is in one of the lists, due at `due`. */
  predicate Waiting(d: Daemon, t: nat, due: nat) {
    var item := Item(t, Wrap(due), due);
    (item in d.current || item in d.overflow) && MsgsOf(d.queue, t) == []
  }

  /** The timer is in no list and one start command for it waits. */
  predicate Pending(d: Daemon, t: nat, at: nat) {
    Absent(d.current, t) && Absent(d.overflow, t) && MsgsOf(d.queue, t) == [Start(t, Wrap(at), at)]
  }

  predicate Idle(d: Daemon, t: nat) {
    Absent(d.current, t) && Absent(d.overflow, t) && MsgsOf(d.queue, t) == []
  }

  /** The timer has been called for exactly its first `k` expiries, and is on its way to the next
      one; a one-shot timer stops after the first. */
  predicate Chain(d: Daemon, s: Story, k: nat) {
    var p := s.cfg.period;
    && s.t in d.timers && d.timers[s.t] == s.cfg
    && Dues(d.fired, s.t) == s.base + Stamps(s.c, p, k)
    && Stamp(s.c, p, k) <= d.last
    && (if s.cfg.reload || k == 0
        then Waiting(d, s.t, Stamp(s.c, p, k + 1)) || Pending(d, s.t, Stamp(s.c, p, k))
        else k == 1 && Idle(d, s.t))
  }

  /** The step is no command of a client for timer `t`. */
  predicate LeavesAlone(st: Step, t: nat) {
    st.Arrive? ==> st.msg.timer != t
  }

  // ---- steps that do not concern the timer ----

  /** Nothing about timer `t` has changed. */
  ghost predicate SameFor(d: Daemon, d': Daemon, t: nat) {
    && (t in d.timers ==> t in d'.timers && d'.timers[t] == d.timers[t])
    && (forall x: Item :: x.timer == t ==> (x in d'.current <==> x in d.current))
    && (forall x: Item :: x.timer == t ==> (x in d'.overflow <==> x in d.overflow))
    && MsgsOf(d'.queue, t) == MsgsOf(d.queue, t)
    && Dues(d'.fired, t) == Dues(d.fired, t)
    && d.last <= d'.last
  }

  lemma SameKeepsChain(d: Daemon, d': Daemon, s: Story, k: nat)
    requires SameFor(d, d', s.t) && Chain(d, s, k)
    ensures Chain(d', s, k)
  {
  }

  lemma InsertTimerSame(d: Daemon, o: nat, value: Tick, cmd: nat, t: nat)
    requires o in d.timers && o != t
    ensures SameFor(d, InsertTimer(d, o, value, cmd).0, t)
  {
    var p := d.timers[o].period;
    var item := Item(o, Wrap(value + p), cmd + p);
    InsertMembers(d.current, item);
    InsertMembers(d.overflow, item);
  }

  lemma ExpireOther(d: Daemon, t: nat)
    requires Inv(d) && Enabled(d, Expire) && d.current[0].timer != t
    ensures d.current[0].timer in d.timers && SameFor(d, ExpireHead(d), t)
  {
    hide Frame, InEpoch, Insert, InsertPlace, InsertTimer;
    ExpireKeeps(d);
    var h := d.current[0];
    var d1 := d.(current := d.current[1..]);
    assert forall x :: x in d.current <==> x == h || x in d1.current by { TailKeeps(d.current); }
    assert SameFor(d, d1, t);
    var (d', now) := if d.timers[h.timer].reload then InsertTimer(d1, h.timer, h.value, h.due) else (d1, false);
    if d.timers[h.timer].reload {
      InsertTimerSame(d1, h.timer, h.value, h.due, t);
      InsertTimerKeeps(d1, h.timer, h.value, h.due);
    }
    MsgsSnoc(d'.queue, Start(h.timer, h.value, h.due), t);
    DuesSnoc(d.fired, Fire(h.timer, h.due, d.last), t);
  }

  lemma FlushOther(d: Daemon, t: nat)
    requires Wrapped(d) && d.current != [] && d.current[0].timer != t
    ensures d.current[0].timer in d.timers && SameFor(d, FlushHead(d), t)
  {
    hide Insert, Frame, InEpoch, FlushHead, Dues, MsgsOf;
    FlushKeeps(d);
    FlushChanges(d);
    var h := d.current[0];
    assert forall x :: x in d.current <==> x == h || x in d.current[1..] by { TailKeeps(d.current); }
    MsgsSnoc(d.queue, Start(h.timer, h.value, h.due), t);
    DuesSnoc(d.fired, Fire(h.timer, h.due, d.last), t);
  }

  lemma TakeOther(d: Daemon, t: nat)
    requires Inv(d) && Enabled(d, Take) && d.queue[0].timer != t
    ensures SameFor(d, Receive(d), t)
  {
    hide Frame, InEpoch, Insert, InsertPlace, Without, InsertTimer, Dues;
    var m := d.queue[0];
    var o := m.timer;
    UnlistKeeps(d);
    var d1 := Unlisted(d);
    assert SameFor(d, d1, t);
    match m
    case Start(_, value, at) =>
      InsertTimerSame(d1, o, value, at, t);
      InsertTimerKeeps(d1, o, value, at);
      var p := d.timers[o].period;
      MsgsSnoc(d1.queue, Start(o, Wrap(value + p), at + p), t);
      DuesSnoc(d1.fired, Fire(o, at + p, d.last), t);
    case Stop(_) =>
    case ChangePeriod(_, p) =>
      var d2 := d1.(timers := d1.timers[o := d1.timers[o].(period := p)]);
      InsertTimerSame(d2, o, Wrap(d2.last), d2.last, t);
    case Delete(_) =>
  }

  // ---- steps that concern the timer ----

  /** A timer with an item in the current list and one at its head: it is the same item. */
  lemma HeadIsIt(d: Daemon, x: Item)
    requires Frame(d) && d.current != [] && d.current[0].timer == x.timer
    requires x in d.current || x in d.overflow
    ensures x == d.current[0]
  {
    assert d.current[0] in d.current;
    TailKeeps(d.current);
  }

  lemma ExpireMine(d: Daemon, s: Story, k: nat)
    requires Inv(d) && Enabled(d, Expire) && d.current[0].timer == s.t && Chain(d, s, k)
    ensures d.current[0].timer in d.timers && Chain(ExpireHead(d), s, k + 1)
  {
    hide Frame, InEpoch, Insert, InsertPlace, InsertTimer, Stamps, Stamp, Dues, MsgsOf;
    var h := d.current[0];
    assert h in d.current;
    var p := s.cfg.period;
    var due := Stamp(s.c, p, k + 1);
    HeadIsIt(d, Item(s.t, Wrap(due), due));
    ExpireKeeps(d);
    StampNext(s.c, p, k + 1);
    StampsNext(s.c, p, k);
    DuesSnoc(d.fired, Fire(s.t, due, d.last), s.t);
    MsgsSnoc(d.queue, Start(s.t, h.value, due), s.t);
    assert s.base + Stamps(s.c, p, k) + [due] == s.base + (Stamps(s.c, p, k) + [due]);
    if s.cfg.reload {
      InsertTimerKeeps(d.(current := d.current[1..]), h.timer, h.value, h.due);
    }
  }

  lemma FlushMine(d: Daemon, s: Story, k: nat)
    requires Wrapped(d) && d.current != [] && d.current[0].timer == s.t && Chain(d, s, k)
    ensures d.current[0].timer in d.timers && Chain(FlushHead(d), s, k + 1)
  {
    hide Sorted, Distinct, Insert, Disjoint, Known, NeverEarly, GoodTimers, Stamps, Stamp, Dues, MsgsOf;
    var h := d.current[0];
    assert h in d.current;
    var p := s.cfg.period;
    var due := Stamp(s.c, p, k + 1);
    HeadIsIt(d, Item(s.t, Wrap(due), due));
    FlushKeeps(d);
    DropHead(d);
    StampNext(s.c, p, k + 1);
    StampsNext(s.c, p, k);
    DuesSnoc(d.fired, Fire(s.t, due, d.last), s.t);
    MsgsSnoc(d.queue, Start(s.t, h.value, due), s.t);
    assert s.base + Stamps(s.c, p, k) + [due] == s.base + (Stamps(s.c, p, k) + [due]);
    InsertMembers(d.current[1..], Item(h.timer, Wrap(h.value + p), h.due + p));
  }

  lemma {:induction false} SwitchChain(d: Daemon, s: Story, k: nat) returns (k': nat)
    requires Wrapped(d) && Chain(d, s, k)
    ensures KnownTimers(d) && k <= k' && Chain(SwitchLists(d), s, k')
    decreases Remaining(d.current)
  {
    hide Sorted, Distinct, FlushHead, Chain;
    if d.current == [] {
      k' := k;
      SwapKeepsChain(d, s, k);
    } else {
      FlushHeadDecreases(d);
      KnownAfterFlush(d);
      FlushKeeps(d);
      if d.current[0].timer == s.t {
        FlushMine(d, s, k);
        k' := SwitchChain(FlushHead(d), s, k + 1);
      } else {
        FlushOther(d, s.t);
        SameKeepsChain(d, FlushHead(d), s, k);
        k' := SwitchChain(FlushHead(d), s, k);
      }
    }
  }

  lemma SwapKeepsChain(d: Daemon, s: Story, k: nat)
    requires Chain(d, s, k) && d.current == []
    ensures Chain(d.(current := d.overflow, overflow := []), s, k)
  {
  }

  /** The start command of the timer itself is taken. */
  lemma TakeMine(d: Daemon, s: Story, k: nat)
    requires Inv(d) && Enabled(d, Take) && s.t in d.timers && d.timers[s.t] == s.cfg
    requires var at := Stamp(s.c, s.cfg.period, k);
      && d.queue[0] == Start(s.t, Wrap(at), at) && MsgsOf(d.queue[1..], s.t) == []
    requires Dues(d.fired, s.t) == s.base + Stamps(s.c, s.cfg.period, k)
    requires s.cfg.reload || k == 0
    ensures Chain(Receive(d), s, k) || Chain(Receive(d), s, k + 1)
  {
    hide Frame, InEpoch, Insert, InsertPlace, InsertTimer, Without, Stamps, Stamp, Dues, MsgsOf;
    UnlistKeeps(d);
    var d1 := Unlisted(d);
    var p := s.cfg.period;
    var at := Stamp(s.c, p, k);
    InsertTimerKeeps(d1, s.t, Wrap(at), at);
    WrapAdd(at, p);
    StampNext(s.c, p, k);
    StampsNext(s.c, p, k);
    DuesSnoc(d1.fired, Fire(s.t, at + p, d.last), s.t);
    MsgsSnoc(d1.queue, Start(s.t, Wrap(at + p), at + p), s.t);
    assert s.base + Stamps(s.c, p, k) + [at + p] == s.base + (Stamps(s.c, p, k) + [at + p]);
  }

  /** When a start command for a timer is taken and no other command for it waits, its story
      begins, whatever the timer did before. */
  lemma ChainBegins(d: Daemon, s: Story) returns (k: nat)
    requires Inv(d) && Enabled(d, Take) && s.t in d.timers && d.timers[s.t] == s.cfg
    requires d.queue[0] == Start(s.t, Wrap(s.c), s.c) && MsgsOf(d.queue[1..], s.t) == []
    requires Dues(d.fired, s.t) == s.base
    ensures k <= 1 && Inv(Receive(d)) && Chain(Receive(d), s, k)
  {
    TakeKeeps(d);
    assert Stamp(s.c, s.cfg.period, 0) == s.c;
    assert s.base + Stamps(s.c, s.cfg.period, 0) == s.base;
    TakeMine(d, s, 0);
    if Chain(Receive(d), s, 0) { k := 0; } else { k := 1; }
  }

  lemma MineIsPending(d: Daemon, s: Story, k: nat)
    requires Chain(d, s, k) && d.queue != [] && d.queue[0].timer == s.t
    ensures var at := Stamp(s.c, s.cfg.period, k);
      d.queue[0] == Start(s.t, Wrap(at), at) && MsgsOf(d.queue[1..], s.t) == []
    ensures s.cfg.reload || k == 0
  {
    var msgs := MsgsOf(d.queue, s.t);
    assert msgs == [d.queue[0]] + MsgsOf(d.queue[1..], s.t);
    assert msgs[0] == d.queue[0] && |msgs| == 1;
  }

  /** No step but a client's command for the timer breaks the chain. */
  lemma StepKeepsChain(d: Daemon, st: Step, s: Story, k: nat) returns (k': nat)
    requires Inv(d) && Enabled(d, st) && Chain(d, s, k) && LeavesAlone(st, s.t)
    ensures k <= k' && Chain(Next(d, st), s, k')
  {
    hide Sorted, Distinct, Without, InsertTimer, ExpireHead, Receive, Stamps, Dues, Frame, InEpoch, SwitchLists;
    match st
    case Arrive(m) =>
      MsgsSnoc(d.queue, m, s.t);
      k' := k;
    case Clock(now) =>
      SampleKeeps(d, now);
      k' := k;
      if Wrap(now) < Wrap(d.last) { k' := SwitchChain(d.(last := now), s, k); }
    case Expire =>
      if d.current[0].timer == s.t {
        ExpireMine(d, s, k);
        k' := k + 1;
      } else {
        ExpireOther(d, s.t);
        SameKeepsChain(d, ExpireHead(d), s, k);
        k' := k;
      }
    case Take =>
      if d.queue[0].timer == s.t {
        MineIsPending(d, s, k);
        TakeMine(d, s, k);
        k' := if Chain(Receive(d), s, k) then k else k + 1;
      } else {
        TakeOther(d, s.t);
        SameKeepsChain(d, Receive(d), s, k);
        k' := k;
      }
  }

  // ---- runs ----

  predicate EnabledRun(d: Daemon, steps: seq<Step>)
    requires Inv(d)
    decreases |steps|
  {
    steps == [] ||
    (Enabled(d, steps[0]) && (StepKeeps(d, steps[0]); EnabledRun(Next(d, steps[0]), steps[1..])))
  }

  function AfterRun(d: Daemon, steps: seq<Step>): (d': Daemon)
    requires Inv(d) && EnabledRun(d, steps)
    ensures Inv(d')
    decreases |steps|
  {
    if steps == [] then d
    else StepKeeps(d, steps[0]); AfterRun(Next(d, steps[0]), steps[1..])
  }

  /** The daemon when it has been created: no active timers, no commands. */
  function Created(timers: map<nat, Config>): (d: Daemon)
    requires GoodTimers(timers)
    ensures Inv(d)
  {
    Daemon(timers, [], [], [], 0, [])
  }

  /** In every run from the start no callback is made before the time it stands for. */
  lemma RunsAreNeverEarly(timers: map<nat, Config>, steps: seq<Step>)
    requires GoodTimers(timers) && EnabledRun(Created(timers), steps)
    ensures NeverEarly(AfterRun(Created(timers), steps))
  {
  }

  /** Over any run in which clients leave the timer alone, its callbacks stand for consecutive
      expiries: none is skipped, none is doubled, and none drifts, however late the daemon runs and
      however often the lists are switched. */
  lemma {:induction false} RunsDoNotDrift(d: Daemon, steps: seq<Step>, s: Story, k: nat) returns (k': nat)
    requires Inv(d) && EnabledRun(d, steps) && Chain(d, s, k)
    requires forall i :: 0 <= i < |steps| ==> LeavesAlone(steps[i], s.t)
    ensures k <= k' && Chain(AfterRun(d, steps), s, k')
    ensures Dues(AfterRun(d, steps).fired, s.t) == s.base + Stamps(s.c, s.cfg.period, k')
    decreases |steps|
  {
    if steps == [] {
      k' := k;
    } else {
      StepKeeps(d, steps[0]);
      var k1 := StepKeepsChain(d, steps[0], s, k);
      assert forall i :: 0 <= i < |steps[1..]| ==> steps[1..][i] == steps[i + 1];
      k' := RunsDoNotDrift(Next(d, steps[0]), steps[1..], s, k1);
    }
  }

  /** Once the daemon has caught up, the number of callbacks is exactly the number of periods that
      have passed. */
  lemma CaughtUpIsExact(d: Daemon, s: Story, k: nat)
    requires Inv(d) && Chain(d, s, k) && s.cfg.reload
    requires MsgsOf(d.queue, s.t) == []
    requires d.current == [] || d.current[0].value > Wrap(d.last)
    ensures Stamp(s.c, s.cfg.period, k) <= d.last < Stamp(s.c, s.cfg.period, k + 1)
  {
    var due := Stamp(s.c, s.cfg.period, k + 1);
    var item := Item(s.t, Wrap(due), due);
    if item in d.current {
      var i :| 0 <= i < |d.current| && d.current[i] == item;
      assert d.current[0].value <= item.value;
      SameEpoch(due, d.last);
    } else {
      assert item in d.overflow;
      EarlierEpoch(d.last, due);
    }
  }

  // ---- a whole life of one timer ----

  /** The first `k` times at which a timer started at `c` with period `p` falls due. */
  function Expiries(c: nat, p: nat, k: nat): seq<nat> {
    seq(k, i requires 0 <= i => c + (i + 1) * p)
  }

  lemma StampsAre(c: nat, p: nat, k: nat)
    ensures Stamps(c, p, k) == Expiries(c, p, k)
  {
    hide Stamp;
    forall i | 0 <= i < k ensures Stamps(c, p, k)[i] == Expiries(c, p, k)[i] {
      StampIs(c, p, i + 1);
    }
  }

  /** What the other commands do to their timer.  A new period counts from the sample: the timer waits
      in exactly one list; the reload flag stays, and no callback is made. */
  lemma ChangeIs(d: Daemon, t: nat, p: Tick)
    requires Inv(d) && Enabled(d, Take) && d.queue[0] == ChangePeriod(t, p)
    ensures var d', item := Receive(d), Item(t, Wrap(d.last + p), d.last + p);
      && t in d.timers && d'.timers == d.timers[t := d.timers[t].(period := p)]
      && ((item in d'.current && Absent(d'.overflow, t)) || (item in d'.overflow && Absent(d'.current, t)))
      && (forall x :: (x in d'.current || x in d'.overflow) && x.timer == t ==> x == item)
      && d'.queue == d.queue[1..] && d'.fired == d.fired && d'.last == d.last
  {
    hide Frame, InEpoch, Insert, InsertPlace, InsertTimer, Without;
    UnlistKeeps(d);
    TakeKeeps(d);
    var u := Unlisted(d);
    var d2 := u.(timers := u.timers[t := u.timers[t].(period := p)]);
    NewPeriodIsGood(u, t, p);
    InsertTimerKeeps(d2, t, Wrap(d2.last), d2.last);
    ListsDisjoint(Receive(d));
  }

  lemma NewPeriodIsGood(d: Daemon, t: nat, p: Tick)
    requires Inv(d) && t in d.timers && 1 <= p
    ensures Inv(d.(timers := d.timers[t := d.timers[t].(period := p)]))
  {
    hide Sorted, Distinct;
  }

  lemma ListsDisjoint(d: Daemon)
    requires Inv(d)
    ensures forall x, y :: x in d.current && y in d.overflow ==> x.timer != y.timer
  {
  }

  /** A timer that is stopped or deleted is in no list, and no callback is made for it; a deleted timer
      is no timer any more, and nothing else about the timers changes. */
  lemma StopIs(d: Daemon)
    requires Inv(d) && Enabled(d, Take) && (d.queue[0].Stop? || d.queue[0].Delete?)
    ensures var d', t := Receive(d), d.queue[0].timer;
      && Absent(d'.current, t) && Absent(d'.overflow, t)
      && d'.timers == (if d.queue[0].Stop? then d.timers else d.timers - {t})
      && d'.queue == d.queue[1..] && d'.fired == d.fired && d'.last == d.last
  {
  }

  /** The command at the head of the queue starts timer `t` at time `c`: a start command of that time,
      or a change of period, which counts from the sample. */
  predicate Begins(d: Daemon, t: nat, c: nat, cfg: Config) {
    && d.queue != [] && t in d.timers && MsgsOf(d.queue[1..], t) == []
    && match d.queue[0]
       case Start(o, value, at) => o == t && at == c && value == Wrap(c) && cfg == d.timers[t]
       case ChangePeriod(o, p) => o == t && c == d.last && cfg == d.timers[t].(period := p)
       case _ => false
  }

  lemma FirstStamps(c: nat, p: nat)
    ensures Stamp(c, p, 0) == c && Stamp(c, p, 1) == c + p && Stamps(c, p, 0) == []
  {
    assert Stamp(c, p, 1) == Stamp(c, p, 0) + p;
  }

  lemma ChangeBegins(d: Daemon, s: Story)
    requires Inv(d) && Enabled(d, Take) && d.queue[0] == ChangePeriod(s.t, s.cfg.period) && s.t in d.timers
    requires s.c == d.last && s.cfg == d.timers[s.t].(period := s.cfg.period)
    requires MsgsOf(d.queue[1..], s.t) == [] && Dues(d.fired, s.t) == s.base
    ensures Chain(Receive(d), s, 0)
  {
    hide Inv, Receive, Enabled, Stamp, Stamps, Dues, MsgsOf, Absent;
    ChangeIs(d, s.t, s.cfg.period);
    FirstStamps(s.c, s.cfg.period);
    assert s.base + [] == s.base;
  }

  lemma CommandBegins(d: Daemon, s: Story) returns (k: nat)
    requires Inv(d) && Enabled(d, Take) && Begins(d, s.t, s.c, s.cfg) && Dues(d.fired, s.t) == s.base
    ensures k <= 1 && Inv(Receive(d)) && Chain(Receive(d), s, k)
  {
    hide Inv, Receive, Timely, Chain, Stamps, Dues, MsgsOf;
    TakeKeeps(d);
    if d.queue[0].Start? {
      k := ChainBegins(d, s);
    } else {
      ChangeBegins(d, s);
      k := 0;
    }
  }

  /** Whatever has happened since the daemon was created: from the moment at which a command is taken
      that starts timer `t` at time `c`, or gives it a new period then, with no other command for it
      waiting, the callbacks of the timer stand for exactly c + p, c + 2p, ..., as long as clients leave
      it alone.  A one-shot timer is called once at most; once the daemon has caught up, an auto-reload
      timer has been called for every period that has passed. */
  lemma StartedTimerKeepsTime(timers: map<nat, Config>, before: seq<Step>, t: nat, c: nat, cfg: Config,
      after: seq<Step>) returns (k: nat)
    requires GoodTimers(timers) && EnabledRun(Created(timers), before)
    requires var d := AfterRun(Created(timers), before);
      Enabled(d, Take) && Begins(d, t, c, cfg) && EnabledRun(d, [Take] + after)
    requires forall i :: 0 <= i < |after| ==> LeavesAlone(after[i], t)
    ensures var d := AfterRun(Created(timers), before);
      var e := AfterRun(d, [Take] + after);
      && Dues(e.fired, t) == Dues(d.fired, t) + Expiries(c, cfg.period, k)
      && c + k * cfg.period <= e.last
      && (!cfg.reload ==> k <= 1)
      && (cfg.reload && MsgsOf(e.queue, t) == [] && (e.current == [] || e.current[0].value > Wrap(e.last)) ==>
           e.last < c + (k + 1) * cfg.period)
  {
    hide Inv, Receive, Chain, Stamps, Stamp, Dues, Expiries, Timely, Begins;
    var d := AfterRun(Created(timers), before);
    var s := Story(t, c, cfg, Dues(d.fired, t));
    var p := cfg.period;
    var k0 := CommandBegins(d, s);
    assert ([Take] + after)[1..] == after;
    k := RunsDoNotDrift(Receive(d), after, s, k0);
    var e := AfterRun(d, [Take] + after);
    StampsAre(c, p, k);
    StampIs(c, p, k);
    StampIs(c, p, k + 1);
    ChainSays(e, s, k);
    if cfg.reload && MsgsOf(e.queue, t) == [] && (e.current == [] || e.current[0].value > Wrap(e.last)) {
      CaughtUpIsExact(e, s, k);
    }
  }

  // ---- stopped timers ----

  lemma AbsentStays(d: Daemon, d': Daemon, t: nat)
    requires SameFor(d, d', t) && Idle(d, t)
    ensures Idle(d', t)
  {
  }

  lemma {:induction false} SwitchIdle(d: Daemon, t: nat)
    requires Wrapped(d) && Idle(d, t)
    ensures KnownTimers(d) && Idle(SwitchLists(d), t) && Dues(SwitchLists(d).fired, t) == Dues(d.fired, t)
    decreases Remaining(d.current)
  {
    hide Frame, InEpoch, FlushHead, Dues, MsgsOf;
    SwitchKeeps(d);
    if d.current == [] {
      assert SwitchLists(d) == d.(current := d.overflow, overflow := []);
    } else {
      assert d.current[0] in d.current;
      FlushHeadDecreases(d);
      KnownAfterFlush(d);
      FlushKeeps(d);
      FlushOther(d, t);
      AbsentStays(d, FlushHead(d), t);
      SwitchIdle(FlushHead(d), t);
    }
  }

  lemma StepKeepsIdle(d: Daemon, st: Step, t: nat)
    requires Inv(d) && Enabled(d, st) && Idle(d, t) && LeavesAlone(st, t)
    ensures Idle(Next(d, st), t) && Dues(Next(d, st).fired, t) == Dues(d.fired, t)
  {
    hide Sorted, Distinct, Without, InsertTimer, ExpireHead, Receive, Dues, Frame, InEpoch, SwitchLists;
    match st
    case Arrive(m) => MsgsSnoc(d.queue, m, t);
    case Clock(now) =>
      SampleKeeps(d, now);
      if Wrap(now) < Wrap(d.last) { SwitchIdle(d.(last := now), t); }
    case Expire =>
      assert d.current[0] in d.current;
      ExpireOther(d, t);
      AbsentStays(d, ExpireHead(d), t);
    case Take =>
      MsgsCons(d.queue, t);
      TakeOther(d, t);
      AbsentStays(d, Receive(d), t);
  }

  /** No callback is made for a timer that is in no list and for which no command waits. */
  lemma {:induction false} IdleTimerIsSilent(d: Daemon, steps: seq<Step>, t: nat)
    requires Inv(d) && EnabledRun(d, steps) && Idle(d, t)
    requires forall i :: 0 <= i < |steps| ==> LeavesAlone(steps[i], t)
    ensures Dues(AfterRun(d, steps).fired, t) == Dues(d.fired, t)
    decreases |steps|
  {
    hide Inv, Enabled, Next, Dues, Idle;
    if steps == [] {
    } else {
      StepKeeps(d, steps[0]);
      StepKeepsIdle(d, steps[0], t);
      IdleTimerIsSilent(Next(d, steps[0]), steps[1..], t);
    }
  }

  /** In every run: once a command that stops or deletes a timer is taken, with no other command for it
      waiting, the timer makes no further callback as long as clients leave it alone. */
  lemma StoppedTimerIsSilent(timers: map<nat, Config>, before: seq<Step>, after: seq<Step>)
    requires GoodTimers(timers) && EnabledRun(Created(timers), before)
    requires var d := AfterRun(Created(timers), before);
      && Enabled(d, Take) && (d.queue[0].Stop? || d.queue[0].Delete?)
      && MsgsOf(d.queue[1..], d.queue[0].timer) == [] && EnabledRun(d, [Take] + after)
      && forall i :: 0 <= i < |after| ==> LeavesAlone(after[i], d.queue[0].timer)
    ensures var d := AfterRun(Created(timers), before);
      var t := d.queue[0].timer;
      Dues(AfterRun(d, [Take] + after).fired, t) == Dues(d.fired, t)
  {
    hide Inv, Receive, Dues, Timely;
    var d := AfterRun(Created(timers), before);
    TakeKeeps(d);
    StopIs(d);
    assert ([Take] + after)[1..] == after;
    IdleTimerIsSilent(Receive(d), after, d.queue[0].timer);
  }

  lemma ChainSays(d: Daemon, s: Story, k: nat)
    requires Chain(d, s, k)
    ensures Stamp(s.c, s.cfg.period, k) <= d.last && (!s.cfg.reload ==> k <= 1)
  {
  }

  /** The early callback on the daemon: time is sampled at 100, a client then starts a 10 tick timer
      at 101, and the command is taken: the callback for 111 is made at 100. */
  lemma LateSampleFiresEarly()
    ensures var timers := map[0 := Config(10, false)];
      var steps := [Clock(100), Arrive(Start(0, 101, 101))];
      && GoodTimers(timers) && EnabledRun(Created(timers), steps)
      && var d := AfterRun(Created(timers), steps);
      && d.last == 100 && d.queue == [Start(0, 101, 101)] && 0 in d.timers
      && Receive(d).fired == [Fire(0, 111, 100)] && !NeverEarly(Receive(d))
  {
    var timers := map[0 := Config(10, false)];
    var d0, m := Created(timers), Start(0, 101, 101);
    var d1, d2 := d0.(last := 100), d0.(last := 100, queue := [m]);
    TwoStepRun(d0, Clock(100), d1, Arrive(m), d2);
    LateCommandFires(d2);
    assert Receive(d2).fired[0] == Fire(0, 111, 100);
  }

  lemma TwoStepRun(d: Daemon, s1: Step, d1: Daemon, s2: Step, d2: Daemon)
    requires Inv(d) && Enabled(d, s1) && Next(d, s1) == d1
    requires Inv(d1) && Enabled(d1, s2) && Next(d1, s2) == d2
    ensures Inv(d2) && EnabledRun(d, [s1, s2]) && AfterRun(d, [s1, s2]) == d2
  {
    hide Enabled, Next, Inv;
    StepKeeps(d1, s2);
    assert [s1, s2][1..] == [s2] && [s2][1..] == [];
    assert EnabledRun(d2, []) && AfterRun(d2, []) == d2;
    assert EnabledRun(d1, [s2]) && AfterRun(d1, [s2]) == d2;
  }
}
