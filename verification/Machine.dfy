/** The simulator as the run scripts see it: a clock, and guest events that interrupt it. */
module Machine {

  /** Something the guest does that returns control to the script: a checkpoint request, or anything else. */
  datatype Guest = Request(tick: nat) | Exit(tick: nat)

  datatype Cause = Limit | CheckpointRequest | Other | Rejected

  ghost predicate InTime(events: seq<Guest>) {
    forall i, j :: 0 <= i < j < |events| ==> events[i].tick <= events[j].tick
  }

  /** Where a simulation stands: its tick, and the number of the next event. */
  datatype Clock = Clock(now: nat, next: nat)

  /** Where it stands after running for at most `n` ticks. */
  function Advanced(events: seq<Guest>, c: Clock, n: int): Clock {
    if n < 0 then c
    else if Interrupts(events, c.next, c.now + n) then Clock(events[c.next].tick, c.next + 1)
    else Clock(c.now + n, c.next)
  }

  class Sim {
    const events: seq<Guest>
    var now: nat
    var next: nat
    var taken: seq<nat>

    /** The events come in order of time and those to come are not in the past. */
    ghost predicate Valid()
      reads this
    {
      && InTime(events) && next <= |events|
      && forall i :: next <= i < |events| ==> now <= events[i].tick
    }

    function At(): Clock
      reads this
    {
      Clock(now, next)
    }

    constructor (events: seq<Guest>, start: nat)
      requires InTime(events) && forall i :: 0 <= i < |events| ==> start <= events[i].tick
      ensures Valid() && this.events == events && now == start && next == 0 && taken == []
    {
      this.events, now, next, taken := events, start, 0, [];
    }

    /**
      Runs for at most `n` ticks. The limit is reported exactly when all of them pass; an earlier guest event is
      reported instead. A negative number is rejected.
     */
    method Simulate(n: int) returns (cause: Cause)
      requires Valid()
      modifies `now, `next
      ensures Valid()
      ensures At() == Advanced(events, old(At()), n)
      ensures n < 0 <==> cause == Rejected
      ensures n < 0 ==> now == old(now) && next == old(next)
      ensures n >= 0 ==> old(now) <= now <= old(now) + n && (cause == Limit <==> now == old(now) + n)
      ensures cause == Limit ==> next == old(next)
      ensures cause == CheckpointRequest || cause == Other ==> next == old(next) + 1 && now == events[old(next)].tick
      ensures cause == CheckpointRequest
         <==> n >= 0 && Interrupts(events, old(next), old(now) + n) && events[old(next)].Request?
      ensures cause == Other <==> n >= 0 && Interrupts(events, old(next), old(now) + n) && events[old(next)].Exit?
    {
      if n < 0 {
        return Rejected;
      }
      if next < |events| && events[next].tick < now + n {
        now := events[next].tick;
        cause := if events[next].Request? then CheckpointRequest else Other;
        next := next + 1;
      } else {
        now := now + n;
        cause := Limit;
      }
    }

    method Checkpoint()
      modifies `taken
      ensures taken == old(taken) + [now]
    {
      taken := taken + [now];
    }
  }

  /** The next event comes before the tick `limit`. */
  predicate Interrupts(events: seq<Guest>, next: nat, limit: int) {
    next < |events| && events[next].tick < limit
  }
}
