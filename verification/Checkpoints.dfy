/** Taking checkpoints from the run script, periodically or at the guest's request. */
module Checkpoints {
  import opened Machine

  /** The tick of the `k`th periodic checkpoint. */
  function At(when: nat, period: nat, k: nat): nat {
    when + k * period
  }

  /** The ticks of the first `n` periodic checkpoints. */
  function Series(when: nat, period: nat, n: nat): (s: seq<nat>) {
    seq(n, k requires 0 <= k < n => At(when, period, k))
  }

  /** Nothing but checkpoint requests happens before the tick. */
  ghost predicate Undisturbed(events: seq<Guest>, tick: int) {
    forall i :: 0 <= i < |events| && events[i].tick < tick ==> events[i].Request?
  }

  /** The guest asks for a checkpoint in the period that ends with the `k`th checkpoint. */
  ghost predicate Interrupted(events: seq<Guest>, when: nat, period: nat, k: nat)
    requires k > 0
  {
    exists i ::
      0 <= i < |events| && events[i].Request? && At(when, period, k - 1) <= events[i].tick < At(when, period, k)
  }

  /** Another checkpoint may follow the first `k`. */
  ghost predicate MayContinue(events: seq<Guest>, when: nat, period: nat, max: nat, maxTick: nat, k: nat) {
    k < max && At(when, period, k) <= maxTick && Undisturbed(events, At(when, period, k))
  }

  /** The documented number of checkpoints, once `k` have been taken: guest requests do not matter. */
  ghost function Promised(events: seq<Guest>, when: nat, period: nat, max: nat, maxTick: nat, k: nat): nat
    decreases max - k
  {
    if MayContinue(events, when, period, max, maxTick, k) then Promised(events, when, period, max, maxTick, k + 1)
    else k
  }

  /** The number the code takes: a period that the guest interrupts is the last one. */
  ghost function Actual(events: seq<Guest>, when: nat, period: nat, max: nat, maxTick: nat, k: nat): nat
    requires k > 0
    decreases max - k
  {
    if !MayContinue(events, when, period, max, maxTick, k) then k
    else if Interrupted(events, when, period, k) then k + 1
    else Actual(events, when, period, max, maxTick, k + 1)
  }

  lemma {:induction false} ActualAtMostPromised(events: seq<Guest>, when: nat, period: nat, max: nat, maxTick: nat,
                                                k: nat)
    requires k > 0
    ensures k <= Actual(events, when, period, max, maxTick, k) <= Promised(events, when, period, max, maxTick, k)
    decreases max - k
  {
    PromisedGrows(events, when, period, max, maxTick, k);
    if MayContinue(events, when, period, max, maxTick, k) {
      PromisedGrows(events, when, period, max, maxTick, k + 1);
      ActualAtMostPromised(events, when, period, max, maxTick, k + 1);
    }
  }

  lemma {:induction false} PromisedGrows(events: seq<Guest>, when: nat, period: nat, max: nat, maxTick: nat, k: nat)
    ensures k <= Promised(events, when, period, max, maxTick, k)
    decreases max - k
  {
    if MayContinue(events, when, period, max, maxTick, k) {
      PromisedGrows(events, when, period, max, maxTick, k + 1);
    }
  }

  /**
    The run script promises that guest requests are ignored in favour of its own checkpoints. The code keeps the
    promise exactly when the guest asks for nothing in any period before the one that leads to the last checkpoint.
   */
  lemma {:induction false} RequestsIgnoredIff(events: seq<Guest>, when: nat, period: nat, max: nat, maxTick: nat,
                                              k: nat)
    requires k > 0
    ensures Actual(events, when, period, max, maxTick, k) == Promised(events, when, period, max, maxTick, k) <==>
            forall j: nat ::
              k <= j < Promised(events, when, period, max, maxTick, k) - 1 ==> !Interrupted(events, when, period, j)
    decreases max - k
  {
    if MayContinue(events, when, period, max, maxTick, k) {
      PromisedGrows(events, when, period, max, maxTick, k + 1);
      RequestsIgnoredIff(events, when, period, max, maxTick, k + 1);
      ActualAtMostPromised(events, when, period, max, maxTick, k + 1);
    }
  }

  /**
    One request in the first period, say at tick 15 with checkpoints from tick 10 on every 10 ticks, ends the series
    early.
   */
  lemma RequestEndsSeries(tick: nat, when: nat, period: nat, max: nat, maxTick: nat)
    requires when <= tick < when + period && max >= 3 && when + 2 * period <= maxTick
    ensures Actual([Request(tick)], when, period, max, maxTick, 1) == 2
    ensures Promised([Request(tick)], when, period, max, maxTick, 1) >= 3
  {
    var events := [Request(tick)];
    AtStep(when, period, 0);
    AtStep(when, period, 1);
    assert At(when, period, 0) == when && At(when, period, 2) == when + 2 * period;
    assert events[0].Request? && At(when, period, 0) <= events[0].tick < At(when, period, 1);
    assert Interrupted(events, when, period, 1);
    assert MayContinue(events, when, period, max, maxTick, 1) && MayContinue(events, when, period, max, maxTick, 2);
    PromisedGrows(events, when, period, max, maxTick, 3);
  }

  /** The clock stands at the tick: of the events from number `from` on, exactly those before it are over. */
  ghost predicate StandsAt(events: seq<Guest>, from: nat, tick: nat, end: Clock) {
    && end.now == tick && from <= end.next <= |events|
    && (forall i :: from <= i < end.next ==> events[i].tick < tick)
    && forall i :: end.next <= i < |events| ==> tick <= events[i].tick
  }

  /** The clock stands at the first of the events from number `from` on that is no request. */
  ghost predicate StandsAtExit(events: seq<Guest>, from: nat, end: Clock) {
    && from < end.next <= |events| && events[end.next - 1].Exit? && end.now == events[end.next - 1].tick
    && forall i :: from <= i < end.next - 1 ==> events[i].Request?
  }

  /** Runs to an absolute tick, skipping checkpoint requests; reports the first event and the one it ended with. */
  method RunTo(sim: Sim, target: nat) returns (first: Cause, last: Cause)
    requires sim.Valid() && sim.now <= target
    modifies sim`now, sim`next
    ensures sim.Valid() && sim.now <= target && old(sim.next) <= sim.next && first != Rejected
    ensures last == Limit || last == Other
    ensures last == Limit ==> StandsAt(sim.events, old(sim.next), target, sim.At())
    ensures last == Limit ==> forall i :: old(sim.next) <= i < sim.next ==> sim.events[i].Request?
    ensures last == Other ==> StandsAtExit(sim.events, old(sim.next), sim.At()) && sim.now < target
    ensures last == Other ==>
              exists i :: old(sim.next) <= i < |sim.events| && sim.events[i].Exit? && sim.events[i].tick < target
    ensures last == Limit ==> (first == Limit <==> sim.next == old(sim.next))
    ensures last == Other ==> first != Limit
  {
    first := sim.Simulate(target - sim.now);
    last := first;
    while last == CheckpointRequest
      invariant sim.Valid() && sim.now <= target && old(sim.next) <= sim.next && last != Rejected
      invariant last == Limit ==> sim.now == target
      invariant last != Other ==>
                  forall i :: old(sim.next) <= i < sim.next ==> sim.events[i].Request? && sim.events[i].tick < target
      invariant last == Other ==> StandsAtExit(sim.events, old(sim.next), sim.At()) && sim.now < target
      invariant first == Limit ==> last == Limit && sim.next == old(sim.next)
      invariant first != Limit ==> sim.next > old(sim.next)
      decreases |sim.events| - sim.next, if last == CheckpointRequest then 1 else 0
    {
      last := sim.Simulate(target - sim.now);
    }
    assert last == Other ==> sim.events[sim.next - 1].Exit?;
  }

  /** The events from number `n` on. */
  function Rest(events: seq<Guest>, n: nat): (rest: seq<Guest>)
    requires n <= |events|
    ensures |rest| == |events| - n && forall i :: n <= i < |events| ==> rest[i - n] == events[i]
  {
    events[n..]
  }

  /**
    The clock stands at `tick`; of the events from number `n` on, everything before it was a request and has been
    answered.
   */
  ghost predicate Synced(sim: Sim, n: nat, tick: nat)
    reads sim
  {
    && sim.Valid() && sim.now == tick && n <= sim.next
    && forall i :: n <= i < sim.next ==> sim.events[i].Request? && sim.events[i].tick < tick
  }

  lemma AtStep(when: nat, period: nat, k: nat)
    ensures At(when, period, k + 1) == At(when, period, k) + period
  {
  }

  lemma SeriesStep(when: nat, period: nat, k: nat)
    ensures Series(when, period, k + 1) == Series(when, period, k) + [At(when, period, k)]
  {
  }

  /** The number of checkpoints of a whole run: none if something else happens first, else as many as the code takes. */
  ghost function Count(events: seq<Guest>, when: nat, period: nat, max: nat, maxTick: nat): nat {
    if Undisturbed(events, when) then Actual(events, when, period, max, maxTick, 1) else 0
  }

  /** How the run from `tick` to `maxTick` ends: there, or at the first event between the two, or not at all. */
  ghost predicate RunsOut(events: seq<Guest>, from: nat, tick: nat, maxTick: nat, end: Clock, cause: Cause) {
    if tick > maxTick then cause == Rejected && StandsAt(events, from, tick, end)
    else if cause == Limit then
      StandsAt(events, from, maxTick, end) && forall i :: from <= i < end.next ==> events[i].tick < tick
    else
      && from < end.next <= |events| && tick <= end.now < maxTick && end.now == events[end.next - 1].tick
      && (forall i :: from <= i < end.next - 1 ==> events[i].tick < tick)
      && cause == if events[end.next - 1].Request? then CheckpointRequest else Other
  }

  /**
    Where a series of `k > 0` checkpoints leaves the simulator, and why: at the last one when no more were wanted or a
    request fell into the last period; else, when the next one lies behind `maxTick`, where the run to `maxTick` ends;
    else at the exit that came before the next one.
   */
  ghost predicate SeriesEnds(events: seq<Guest>, from: nat, end: Clock, cause: Cause, k: nat, when: nat, period: nat,
                             max: nat, maxTick: nat)
    requires from <= |events| && k > 0
  {
    if k >= max || (k > 1 && Interrupted(Rest(events, from), when, period, k - 1)) then
      cause == Limit && StandsAt(events, from, At(when, period, k - 1), end)
    else if At(when, period, k) > maxTick then RunsOut(events, from, At(when, period, k - 1), maxTick, end, cause)
    else cause == Other && StandsAtExit(events, from, end) && end.now < At(when, period, k)
  }

  /**
    The checkpoints of a script that starts at the clock `c`, and how it ends; none are taken when `when` is in the past
    or the guest exits before it.
   */
  ghost predicate IsScripted(events: seq<Guest>, c: Clock, end: Clock, cause: Cause, taken: seq<nat>, when: nat,
                             period: nat, max: nat, maxTick: nat)
    requires c.next <= |events|
  {
    var k := Count(Rest(events, c.next), when, period, max, maxTick);
    if c.now > when then cause == Rejected && taken == [] && end == c
    else
      && taken == Series(when, period, k)
      && if k == 0 then cause == Other && StandsAtExit(events, c.next, end) && end.now < when
         else SeriesEnds(events, c.next, end, cause, k, when, period, max, maxTick)
  }

  /** Periodic checkpoints from the script: the first at `when`, then one per period while the loop condition holds. */
  method ScriptCheckpoints(sim: Sim, when: nat, period: nat, max: nat, maxTick: nat)
    returns (cause: Cause, ghost taken: seq<nat>)
    requires sim.Valid()
    modifies sim
    ensures sim.Valid() && sim.taken == old(sim.taken) + taken
    ensures IsScripted(sim.events, old(sim.At()), sim.At(), cause, taken, when, period, max, maxTick)
  {
    if sim.now > when {
      return Rejected, [];
    }
    taken := Series(when, period, Count(Rest(sim.events, sim.next), when, period, max, maxTick));
    ghost var n := sim.next;
    var first;
    first, cause := RunTo(sim, when);
    FirstOutcome(sim.events, n, sim.next, when, cause);
    if cause != Limit {
      assert Series(when, period, 0) == [];
      return;
    }
    sim.Checkpoint();
    assert Series(when, period, 1) == [when];
    cause := Continue(sim, n, old(sim.taken), when, period, max, maxTick);
  }

  lemma FirstOutcome(events: seq<Guest>, n: nat, next: nat, when: nat, cause: Cause)
    requires n <= next <= |events| && InTime(events) && (cause == Limit || cause == Other)
    requires cause == Limit ==> forall i :: n <= i < next ==> events[i].Request?
    requires cause == Limit ==> forall i :: next <= i < |events| ==> when <= events[i].tick
    requires cause == Other ==> exists i :: n <= i < |events| && events[i].Exit? && events[i].tick < when
    ensures cause == Limit <==> Undisturbed(Rest(events, n), when)
  {
    var rest := Rest(events, n);
    if cause == Other {
      var i :| n <= i < |events| && events[i].Exit? && events[i].tick < when;
      assert rest[i - n] == events[i];
    } else {
      assert forall i :: 0 <= i < |rest| ==> rest[i] == events[i + n];
    }
  }

  /** Behind the `k`th checkpoint, with no request in the period that led there. */
  ghost predicate Between(sim: Sim, n: nat, tick: nat, when: nat, period: nat, k: nat)
    requires k > 0 && n <= |sim.events|
    reads sim
  {
    && tick == At(when, period, k - 1) && Synced(sim, n, tick)
    && (k > 1 ==> !Interrupted(Rest(sim.events, n), when, period, k - 1))
  }

  /** One period: to the next checkpoint, or to an exit before it. */
  method Period(sim: Sim, ghost n: nat, ghost k: nat, next: nat, ghost when: nat, ghost period: nat, ghost max: nat,
                ghost maxTick: nat)
    returns (guard: Cause, cause: Cause)
    requires 0 < k < max && n <= |sim.events| && Between(sim, n, sim.now, when, period, k)
    requires next == At(when, period, k) <= maxTick
    modifies sim
    ensures sim.Valid() && sim.taken == old(sim.taken) + if cause == Limit then [next] else []
    ensures Actual(Rest(sim.events, n), when, period, max, maxTick, k)
         == if guard == Limit then Actual(Rest(sim.events, n), when, period, max, maxTick, k + 1)
            else if cause == Limit then k + 1 else k
    ensures guard == Limit ==> cause == Limit && Between(sim, n, next, when, period, k + 1)
    ensures guard != Limit ==>
              var taken := if cause == Limit then k + 1 else k;
              SeriesEnds(sim.events, n, sim.At(), cause, taken, when, period, max, maxTick)
  {
    AtStep(when, period, k - 1);
    ghost var first := sim.next;
    guard, cause := RunTo(sim, next);
    PeriodOutcome(sim.events, n, first, sim.next, when, period, k, next, guard, cause);
    PeriodStep(Rest(sim.events, n), when, period, max, maxTick, k, guard, cause);
    if cause == Limit {
      sim.Checkpoint();
    }
  }

  /** The rest of the run, when the next checkpoint would lie behind its end. */
  method LastStretch(sim: Sim, ghost n: nat, ghost k: nat, simTicks: nat, ghost when: nat, ghost period: nat,
                     ghost max: nat, maxTick: nat)
    returns (cause: Cause)
    requires 0 < k < max && n <= |sim.events| && Between(sim, n, simTicks, when, period, k)
    requires At(when, period, k) > maxTick
    modifies sim`now, sim`next
    ensures sim.Valid() && SeriesEnds(sim.events, n, sim.At(), cause, k, when, period, max, maxTick)
  {
    cause := sim.Simulate(maxTick - simTicks);
  }

  /** The loop behind the first checkpoint. */
  method Continue(sim: Sim, ghost n: nat, ghost before: seq<nat>, when: nat, period: nat, max: nat, maxTick: nat)
    returns (cause: Cause)
    requires n <= |sim.events| && Synced(sim, n, when) && sim.taken == before + Series(when, period, 1)
    modifies sim
    ensures sim.Valid() && Actual(Rest(sim.events, n), when, period, max, maxTick, 1) > 0
    ensures var k := Actual(Rest(sim.events, n), when, period, max, maxTick, 1);
            && sim.taken == before + Series(when, period, k)
            && SeriesEnds(sim.events, n, sim.At(), cause, k, when, period, max, maxTick)
  {
    var num: nat, simTicks: nat, guard := 1, when, Limit;
    cause := Limit;
    ghost var rest := Rest(sim.events, n);
    while num < max && guard == Limit
      invariant num >= 1 && sim.Valid() && sim.taken == before + Series(when, period, num)
      invariant guard == Limit ==> cause == Limit && Between(sim, n, simTicks, when, period, num)
      invariant guard != Limit ==> SeriesEnds(sim.events, n, sim.At(), cause, num, when, period, max, maxTick)
      invariant Actual(rest, when, period, max, maxTick, 1)
             == if guard == Limit then Actual(rest, when, period, max, maxTick, num) else num
      decreases max - num, if guard == Limit then 1 else 0
    {
      AtStep(when, period, num - 1);
      if simTicks + period > maxTick {
        cause := LastStretch(sim, n, num, simTicks, when, period, max, maxTick);
        break;
      }
      simTicks := simTicks + period;
      guard, cause := Period(sim, n, num, simTicks, when, period, max, maxTick);
      if cause == Limit {
        SeriesStep(when, period, num);
        num := num + 1;
      }
    }
  }

  lemma PeriodStep(rest: seq<Guest>, when: nat, period: nat, max: nat, maxTick: nat, k: nat, first: Cause, last: Cause)
    requires 0 < k < max && At(when, period, k) <= maxTick
    requires last == Limit <==> Undisturbed(rest, At(when, period, k))
    requires last == Limit ==> (first == Limit <==> !Interrupted(rest, when, period, k))
    ensures Actual(rest, when, period, max, maxTick, k)
         == if last != Limit then k
            else if first == Limit then Actual(rest, when, period, max, maxTick, k + 1)
            else k + 1
  {
  }

  /** What one period's outcome says about the events in it. */
  lemma PeriodOutcome(events: seq<Guest>, n: nat, before: nat, next: nat, when: nat, period: nat, k: nat, tick: nat,
                      first: Cause, last: Cause)
    requires k > 0 && tick == At(when, period, k) && n <= before <= next <= |events| && InTime(events)
    requires forall i :: n <= i < before ==> events[i].Request? && events[i].tick < At(when, period, k - 1)
    requires forall i :: before <= i < |events| ==> At(when, period, k - 1) <= events[i].tick
    requires last == Limit || last == Other
    requires last == Limit ==> forall i :: before <= i < next ==> events[i].Request? && events[i].tick < tick
    requires last == Limit ==> forall i :: next <= i < |events| ==> tick <= events[i].tick
    requires last == Other ==> exists i :: before <= i < |events| && events[i].Exit? && events[i].tick < tick
    requires last == Limit ==> (first == Limit <==> next == before)
    ensures last == Limit <==> Undisturbed(Rest(events, n), tick)
    ensures last == Limit ==> (first == Limit <==> !Interrupted(Rest(events, n), when, period, k))
  {
    var rest := Rest(events, n);
    FirstOutcome(events, n, next, tick, last);
    if last == Limit && next > before {
      assert rest[before - n] == events[before];
      assert rest[before - n].Request? && At(when, period, k - 1) <= rest[before - n].tick < At(when, period, k);
    } else if last == Limit {
      assert forall i :: 0 <= i < |rest| ==> rest[i] == events[i + n];
    }
  }

  /**
    Whatever the guest does, there are at most `max` checkpoints, or one, and all but the first lie within `maxTick`.
   */
  lemma {:induction false} SeriesIsBounded(events: seq<Guest>, when: nat, period: nat, max: nat, maxTick: nat, k: nat)
    requires k > 0
    ensures var n := Actual(events, when, period, max, maxTick, k); n == k || n <= max
    ensures forall j :: k <= j < Actual(events, when, period, max, maxTick, k) ==> At(when, period, j) <= maxTick
    decreases max - k
  {
    if MayContinue(events, when, period, max, maxTick, k) && !Interrupted(events, when, period, k) {
      SeriesIsBounded(events, when, period, max, maxTick, k + 1);
    }
  }

  /** The first `n` events are requests before `maxTick`, as many as possible within `max`; 0 stands for no bound. */
  ghost predicate Answered(events: seq<Guest>, n: nat, max: nat, maxTick: nat) {
    && n <= |events| && (max > 0 ==> n <= max)
    && (forall i :: 0 <= i < n ==> events[i].Request? && events[i].tick < maxTick)
    && (n == |events| || n == max > 0 || !events[n].Request? || events[n].tick >= maxTick)
  }

  /** The ticks of the first `n` events. */
  function Ticks(events: seq<Guest>, n: nat): (s: seq<nat>)
    requires n <= |events|
  {
    seq(n, i requires 0 <= i < n => events[i].tick)
  }

  /**
    The checkpoints taken at the guest's request between two clocks: none when `maxTick` is in the past. The run ends
    with the last checkpoint wanted, at the first exit before `maxTick`, or there.
   */
  ghost predicate IsRequested(events: seq<Guest>, c: Clock, end: Clock, cause: Cause, taken: seq<nat>, max: nat,
                              maxTick: nat)
    requires c.next <= |events|
  {
    var rest := Rest(events, c.next);
    && (cause == Rejected <==> c.now > maxTick)
    && |taken| <= |rest| && taken == Ticks(rest, |taken|)
    && if cause == Rejected then taken == [] && end == c
       else
         && Answered(rest, |taken|, max, maxTick)
         && if 0 < |taken| == max then cause == CheckpointRequest && end == Clock(rest[max - 1].tick, c.next + max)
            else if |taken| < |rest| && rest[|taken|].tick < maxTick then
              cause == Other && end == Clock(rest[|taken|].tick, c.next + |taken| + 1)
            else cause == Limit && end == Clock(maxTick, c.next + |taken|)
  }

  /** After `num` of the events: the clock stands at `maxTick` or at the next event before it, as the cause says. */
  ghost predicate StoppedAt(rest: seq<Guest>, first: nat, at: Clock, cause: Cause, num: nat, maxTick: nat) {
    if cause == Limit then at == Clock(maxTick, first + num) && (num < |rest| ==> rest[num].tick >= maxTick)
    else
      && num < |rest| && rest[num].tick < maxTick && at == Clock(rest[num].tick, first + num + 1)
      && cause == if rest[num].Request? then CheckpointRequest else Other
  }

  /** Runs on to `maxTick` or to the next event. */
  method RunOn(sim: Sim, ghost first: nat, ghost num: nat, maxTick: nat) returns (cause: Cause)
    requires sim.Valid() && sim.next == first + num
    modifies sim`now, sim`next
    ensures sim.Valid() && first <= |sim.events|
    ensures old(sim.now) > maxTick ==> cause == Rejected && sim.At() == old(sim.At())
    ensures old(sim.now) <= maxTick ==> StoppedAt(Rest(sim.events, first), first, sim.At(), cause, num, maxTick)
  {
    cause := sim.Simulate(maxTick - sim.now);
    assert first + num < |sim.events| ==> Rest(sim.events, first)[num] == sim.events[first + num];
  }

  ghost predicate RequestsBefore(rest: seq<Guest>, num: nat, maxTick: nat) {
    num <= |rest| && forall i :: 0 <= i < num ==> rest[i].Request? && rest[i].tick < maxTick
  }

  /**
    Checkpoints at the guest's request, up to `maxTick`: exactly the leading requests, bounded by `max` unless it is 0.
   */
  method BenchCheckpoints(sim: Sim, max: nat, maxTick: nat) returns (cause: Cause, ghost taken: seq<nat>)
    requires sim.Valid()
    modifies sim
    ensures sim.Valid() && sim.taken == old(sim.taken) + taken
    ensures IsRequested(sim.events, old(sim.At()), sim.At(), cause, taken, max, maxTick)
  {
    var num := 0;
    ghost var rest, first := Rest(sim.events, sim.next), sim.next;
    assert Ticks(rest, 0) == [];
    cause := RunOn(sim, first, 0, maxTick);
    while cause == CheckpointRequest
      invariant sim.Valid() && RequestsBefore(rest, num, maxTick) && (max > 0 ==> num < max)
      invariant sim.taken == old(sim.taken) + Ticks(rest, num)
      invariant if old(sim.now) > maxTick then cause == Rejected && num == 0 && sim.At() == old(sim.At())
                else StoppedAt(rest, first, sim.At(), cause, num, maxTick)
      decreases |rest| - num
    {
      sim.Checkpoint();
      assert Ticks(rest, num + 1) == Ticks(rest, num) + [rest[num].tick];
      num := num + 1;
      if num == max {
        break;
      }
      cause := RunOn(sim, first, num, maxTick);
    }
    taken := Ticks(rest, num);
  }
}
