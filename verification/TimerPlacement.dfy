/** Tick arithmetic, and the decision which list a timer goes to. */
module TimerPlacement {

  // Ticks are 32 bits wide (configUSE_16_BIT_TICKS is 0).
  const WRAP := 0x1_0000_0000

  type Tick = t: int | 0 <= t < WRAP witness 0

  /** The tick counter at an unwrapped time. */
  function Wrap(t: int): Tick {
    t % WRAP
  }

  /** How often the counter has wrapped to 0 by an unwrapped time. */
  function Epoch(t: int): int {
    t / WRAP
  }

  datatype Place = Expired | Current | Overflow

  /** Where a timer with the given expiry value goes, seen from `now`, for a command of time `cmd`. */
  function InsertPlace(next: Tick, now: Tick, cmd: Tick, period: Tick): Place {
    if next <= now then
      if Wrap(now - cmd) >= period then Expired else Overflow
    else if now < cmd && next >= cmd then Expired
    else Current
  }

  /** The place computed from wrapped values is the right one for unwrapped time: expired if the
      timer is due, the current list if it falls due before the counter wraps, the overflow list if
      it falls due before the counter wraps again. */
  predicate PlacedRight(cmd: nat, now: nat, period: Tick) {
    var due := cmd + period;
    var place := InsertPlace(Wrap(due), Wrap(now), Wrap(cmd), period);
    && (place == Expired <==> due <= now)
    && (place == Current <==> due > now && Epoch(due) == Epoch(now))
    && (place == Overflow <==> due > now && Epoch(due) == Epoch(now) + 1)
  }

  /** Placement is exact if and only if the command is not later than the time at which it is
      processed.  In particular a command issued after the time was sampled is always misplaced. */
  lemma PlacementIff(cmd: nat, now: nat, period: Tick)
    requires 1 <= period && -WRAP < now - cmd < WRAP
    ensures PlacedRight(cmd, now, period) <==> cmd <= now
  {
    var a, c := Epoch(cmd), Wrap(cmd);
    var b, t := Epoch(now), Wrap(now);
    assert cmd == a * WRAP + c && now == b * WRAP + t;
    assert b - 1 <= a <= b + 1;
    var due := cmd + period;
    assert due == a * WRAP + (c + period);
    if c + period < WRAP {
      assert Wrap(due) == c + period && Epoch(due) == a;
    } else {
      assert Wrap(due) == c + period - WRAP && Epoch(due) == a + 1;
    }
    assert Wrap(t - c) == if c <= t then t - c else t - c + WRAP;
  }

  /** A command issued after the time was sampled is taken to have expired, unless the timer falls
      due more than a whole turn of the counter after the sample. */
  lemma LateLooksExpired(cmd: nat, now: nat, period: Tick)
    requires 1 <= period && now < cmd && cmd + period <= now + WRAP
    ensures InsertPlace(Wrap(cmd + period), Wrap(now), Wrap(cmd), period) == Expired
  {
    var b, t := Epoch(now), Wrap(now);
    assert now == b * WRAP + t;
    var late := cmd - now;
    WrapNear(b, t, late);
    WrapNear(b, t, late + period);
  }

  lemma WrapNear(b: int, t: Tick, more: nat)
    requires more <= WRAP
    ensures Wrap(b * WRAP + t + more) == if t + more < WRAP then t + more else t + more - WRAP
  {
  }
}
