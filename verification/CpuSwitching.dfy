/** Switching CPUs during a run: after restoring or fast-forwarding, in two standard steps, or over and over. */
module CpuSwitching {
  import opened Machine
  import Checkpoints

  /** The CPUs the script creates: the system's own, and those switched in by its various options. */
  datatype Group = Main | Switched | Repeated | Timing | OutOfOrder

  datatype Cpu = Cpu(group: Group, id: nat)

  type Pairs = seq<(Cpu, Cpu)>

  function Cpus(g: Group, np: nat): set<Cpu> {
    set i | 0 <= i < np :: Cpu(g, i)
  }

  function PairsOf(a: Group, b: Group, np: nat): (p: Pairs) {
    seq(np, i requires 0 <= i < np => (Cpu(a, i), Cpu(b, i)))
  }

  function Olds(p: Pairs): set<Cpu> {
    set i | 0 <= i < |p| :: p[i].0
  }

  function News(p: Pairs): set<Cpu> {
    set i | 0 <= i < |p| :: p[i].1
  }

  /** What the simulator insists on: every old CPU runs, no new CPU runs or is among the old ones. */
  ghost predicate Switchable(running: set<Cpu>, p: Pairs) {
    forall i :: 0 <= i < |p| ==> p[i].0 in running && p[i].1 !in running && p[i].1 !in Olds(p)
  }

  method SwitchCpus(running: set<Cpu>, p: Pairs) returns (ok: bool, running': set<Cpu>)
    requires p != []
    ensures ok <==> Switchable(running, p)
    ensures running' == if ok then running - Olds(p) + News(p) else running
  {
    running' := running;
    for i := 0 to |p|
      invariant forall j :: 0 <= j < i ==> p[j].0 in running && p[j].1 !in running && p[j].1 !in Olds(p)
    {
      if p[i].1 in Olds(p) || p[i].1 in running || p[i].0 !in running {
        return false, running;
      }
    }
    ok, running' := true, running - Olds(p) + News(p);
  }

  /** Exactly the old CPUs of the pairs run, and no new one is among them. */
  ghost predicate Matches(running: set<Cpu>, p: Pairs) {
    p != [] && running == Olds(p) && Olds(p) !! News(p)
  }

  lemma MatchingSwitches(running: set<Cpu>, p: Pairs)
    requires Matches(running, p)
    ensures Switchable(running, p) && running - Olds(p) + News(p) == News(p)
  {
    forall i | 0 <= i < |p|
      ensures p[i].0 in Olds(p) && p[i].1 in News(p)
    {
    }
  }

  lemma PairsShape(a: Group, b: Group, np: nat)
    ensures Olds(PairsOf(a, b, np)) == Cpus(a, np) && News(PairsOf(a, b, np)) == Cpus(b, np)
  {
    var p := PairsOf(a, b, np);
    forall c | c in Cpus(a, np)
      ensures c in Olds(p)
    {
      assert p[c.id].0 == c;
    }
    forall c | c in Cpus(b, np)
      ensures c in News(p)
    {
      assert p[c.id].1 == c;
    }
  }

  /** One switch of a whole group. It succeeds when exactly the old group runs, and then exactly the new group runs. */
  method SwitchGroup(running: set<Cpu>, a: Group, b: Group, np: nat) returns (ok: bool, running': set<Cpu>)
    requires np > 0 && a != b && running == Cpus(a, np)
    ensures ok && running' == Cpus(b, np)
  {
    PairsShape(a, b, np);
    GroupsDiffer(a, b, np);
    MatchingSwitches(running, PairsOf(a, b, np));
    ok, running' := SwitchCpus(running, PairsOf(a, b, np));
  }

  /** A record of the switches: when, who was named as old and as new, and who was running. */
  datatype Switch = Switch(tick: nat, olds: set<Cpu>, news: set<Cpu>, running: set<Cpu>)

  /** Every switch names as old exactly the CPUs running, and hands over to CPUs that are not. */
  ghost predicate AllExact(log: seq<Switch>) {
    forall i :: 0 <= i < |log| ==> log[i].olds == log[i].running && log[i].news !! log[i].running
  }

  /** Who runs after the switches. */
  ghost function RunningAfter(start: set<Cpu>, log: seq<Switch>): set<Cpu> {
    if log == [] then start else log[|log| - 1].news
  }

  /** Each switch finds running whom the one before it switched in. */
  ghost predicate Chained(start: set<Cpu>, log: seq<Switch>) {
    AllExact(log) && forall i :: 0 <= i < |log| ==> log[i].running == RunningAfter(start, log[..i])
  }

  lemma ChainMore(start: set<Cpu>, log: seq<Switch>, s: Switch)
    requires Chained(start, log) && s.olds == s.running == RunningAfter(start, log) && s.news !! s.running
    ensures Chained(start, log + [s]) && RunningAfter(start, log + [s]) == s.news
  {
    var log' := log + [s];
    assert log'[..|log|] == log;
    assert forall i :: 0 <= i < |log| ==> log'[..i] == log[..i];
  }

  lemma ChainJoin(start: set<Cpu>, log: seq<Switch>, more: seq<Switch>)
    requires Chained(start, log) && Chained(RunningAfter(start, log), more)
    ensures Chained(start, log + more)
    ensures RunningAfter(start, log + more) == RunningAfter(RunningAfter(start, log), more)
  {
    var all := log + more;
    assert forall i :: 0 <= i <= |log| ==> all[..i] == log[..i];
    assert log[..|log|] == log;
    forall i | 0 <= i < |all|
      ensures all[i].running == RunningAfter(start, all[..i])
    {
      if i > |log| {
        assert all[..i] == log + more[..i - |log|];
        assert all[i] == more[i - |log|];
      }
    }
  }

  /** One switch every `freq` ticks, between the same two groups, back and forth. */
  ghost predicate Alternates(log: seq<Switch>, a: set<Cpu>, b: set<Cpu>, from: nat, freq: nat) {
    forall i: nat :: i < |log| ==> log[i] == Turn(i, a, b, from + Elapsed(freq, i + 1))
  }

  function Turn(i: nat, a: set<Cpu>, b: set<Cpu>, tick: nat): Switch {
    Switch(tick, Side(i, a, b), Side(i + 1, a, b), Side(i, a, b))
  }

  /** Who runs after `n` switches. */
  function Side(n: nat, a: set<Cpu>, b: set<Cpu>): set<Cpu> {
    if n % 2 == 0 then a else b
  }

  lemma SidesDiffer(n: nat, a: set<Cpu>, b: set<Cpu>)
    requires a !! b
    ensures Side(n, a, b) !! Side(n + 1, a, b)
  {
  }

  lemma SideReturns(n: nat, a: set<Cpu>, b: set<Cpu>)
    ensures Side(n + 2, a, b) == Side(n, a, b)
  {
  }

  lemma AlternatesMore(log: seq<Switch>, a: set<Cpu>, b: set<Cpu>, from: nat, freq: nat, s: Switch)
    requires Alternates(log, a, b, from, freq) && s == Turn(|log|, a, b, from + Elapsed(freq, |log| + 1))
    ensures Alternates(log + [s], a, b, from, freq)
  {
  }

  function Elapsed(freq: nat, n: nat): nat {
    freq * n
  }

  /** The run ends at most `freq` ticks after the last of its `n` switches. */
  predicate IsLate(now: nat, from: nat, freq: nat, n: nat) {
    from + Elapsed(freq, n) <= now <= from + Elapsed(freq, n) + freq
  }

  lemma {:induction false} AlternationIsChained(log: seq<Switch>, a: set<Cpu>, b: set<Cpu>, from: nat, freq: nat)
    requires a !! b && Alternates(log, a, b, from, freq)
    ensures Chained(a, log) && RunningAfter(a, log) == Side(|log|, a, b)
  {
    if log != [] {
      var n := |log| - 1;
      AlternationIsChained(log[..n], a, b, from, freq);
      assert log[n] == Turn(n, a, b, from + Elapsed(freq, n + 1));
      SidesDiffer(n, a, b);
      ChainMore(a, log[..n], log[n]);
      assert log[..n] + [log[n]] == log;
    }
  }

  /** Swapping the pairs for the next round. */
  method Swap(p: Pairs) returns (q: Pairs)
    ensures |q| == |p| && forall i :: 0 <= i < |p| ==> q[i] == (p[i].1, p[i].0)
  {
    q := [];
    for i := 0 to |p|
      invariant |q| == i && forall j :: 0 <= j < i ==> q[j] == (p[j].1, p[j].0)
    {
      q := q + [(p[i].1, p[i].0)];
    }
  }

  lemma SwapShape(p: Pairs, q: Pairs)
    requires |q| == |p| && forall i :: 0 <= i < |p| ==> q[i] == (p[i].1, p[i].0)
    ensures Olds(q) == News(p) && News(q) == Olds(p)
  {
    forall i | 0 <= i < |p|
      ensures p[i].0 in News(q) && p[i].1 in Olds(q)
    {
      assert q[i].0 == p[i].1 && q[i].1 == p[i].0;
    }
  }

  /** One switch and the swap behind it leave the pairs matching again. */
  method SwitchAndSwap(running: set<Cpu>, p: Pairs) returns (ok: bool, running': set<Cpu>, q: Pairs)
    requires Matches(running, p)
    ensures ok && Matches(running', q) && News(q) == running && running' == News(p)
  {
    MatchingSwitches(running, p);
    ok, running' := SwitchCpus(running, p);
    q := Swap(p);
    SwapShape(p, q);
  }

  /**
    How the repeated switching that started at `c` and switched `n` times ends: at the last tick, at the next guest
    event, or rejected behind the last tick when fewer than `freq` ticks were left at the start.
   */
  ghost predicate EndsRightly(events: seq<Guest>, c: Clock, end: Clock, cause: Cause, n: nat, maxTick: nat, freq: nat) {
    && IsLate(end.now, c.now, freq, n)
    && (c.now + freq <= maxTick ==> end.now <= maxTick && cause != Rejected)
    && (c.now + freq > maxTick && !Interrupts(events, c.next, c.now + freq) ==> end.now > maxTick && cause == Rejected)
    && match cause
       case Limit => end.now == maxTick && end.next == c.next && n > 0
       case Rejected => end.next == c.next && n > 0
       case CheckpointRequest => IsAtEvent(events, c, end) && events[c.next].Request?
       case Other => IsAtEvent(events, c, end) && events[c.next].Exit?
  }

  /** The clock stands at the first event that was still to come. */
  ghost predicate IsAtEvent(events: seq<Guest>, c: Clock, end: Clock) {
    c.next < |events| && end == Clock(events[c.next].tick, c.next + 1)
  }

  /**
    Switching back and forth every `freq` ticks. Every switch names as old exactly the CPUs running; the loop ends;
    and it stays within `maxTick` for every guest exactly when at least `freq` ticks are left at the start.
   */
  method RepeatSwitch(sim: Sim, start: set<Cpu>, pairs: Pairs, maxTick: nat, freq: nat)
    returns (cause: Cause, ok: bool, running: set<Cpu>, log: seq<Switch>)
    requires sim.Valid() && freq > 0 && Matches(start, pairs)
    modifies sim`now, sim`next
    ensures ok && sim.Valid() && Alternates(log, start, News(pairs), old(sim.now), freq)
    ensures running == Side(|log|, start, News(pairs))
    ensures EndsRightly(sim.events, old(sim.At()), sim.At(), cause, |log|, maxTick, freq)
  {
    var p := pairs;
    ghost var a, b, from := start, News(pairs), sim.now;
    running, log, ok := start, [], true;
    while true
      invariant sim.Valid() && Matches(running, p) && ok
      invariant sim.now == from + Elapsed(freq, |log|) && Alternates(log, a, b, from, freq)
      invariant running == Side(|log|, a, b) && News(p) == Side(|log| + 1, a, b)
      invariant old(sim.now) + freq <= maxTick ==> sim.now + freq <= maxTick
      invariant old(sim.now) + freq > maxTick ==> sim.now == old(sim.now)
      invariant sim.next == old(sim.next)
      decreases maxTick - sim.now
    {
      cause := sim.Simulate(freq);
      if cause != Limit {
        return;
      }
      NextMultiple(freq, |log|);
      SideReturns(|log|, a, b);
      AlternatesMore(log, a, b, from, freq, Switch(sim.now, Olds(p), News(p), running));
      log := log + [Switch(sim.now, Olds(p), News(p), running)];
      ok, running, p := SwitchAndSwap(running, p);
      if maxTick - sim.now <= freq {
        cause := sim.Simulate(maxTick - sim.now);
        return;
      }
    }
  }

  lemma NextMultiple(freq: nat, n: nat)
    ensures Elapsed(freq, n + 1) == Elapsed(freq, n) + freq
  {
  }

  /**
    The options of a run that decide which CPUs are created and switched and which checkpoints are taken; 0 stands for
    an option not given, and `endsEarly` says that the last tick lies before the restored checkpoint.
   */
  datatype Options = Options(np: nat, cpuClass: bool, fastForward: bool, restore: bool, standardSwitch: nat,
                             warmup: bool, repeatSwitch: nat, caches: bool, takeCheckpoints: bool, when: nat,
                             period: nat, maxCheckpoints: nat, checkpointAtEnd: bool, simpoints: bool,
                             needsCaches: bool, canTakeOver: bool, initializeOnly: bool, endsEarly: bool)

  /** The combinations of options that make sense together. */
  ghost predicate IsAccepted(o: Options) {
    && (o.restore ==> !o.fastForward && (o.endsEarly ==> o.initializeOnly))
    && (o.standardSwitch > 0 ==> o.caches && o.repeatSwitch == 0)
    && (o.repeatSwitch > 0 ==> !o.takeCheckpoints && o.canTakeOver && (o.caches || !o.needsCaches))
  }

  /** The script's tests, one after the other. */
  method CheckOptions(o: Options) returns (ok: bool)
    ensures ok <==> IsAccepted(o)
  {
    if o.fastForward && o.restore {
      return false;
    }
    if o.standardSwitch > 0 && !o.caches {
      return false;
    }
    if o.standardSwitch > 0 && o.repeatSwitch > 0 {
      return false;
    }
    if o.repeatSwitch > 0 && o.takeCheckpoints {
      return false;
    }
    if o.repeatSwitch > 0 && ((o.needsCaches && !o.caches) || !o.canTakeOver) {
      return false;
    }
    ok := o.initializeOnly || !o.restore || !o.endsEarly;
  }

  /** The groups that run in turn before the main part of the run. */
  ghost function FirstGroups(o: Options): seq<Group> {
    if o.standardSwitch > 0 then [Main, Timing, OutOfOrder] else if o.cpuClass then [Main, Switched] else [Main]
  }

  /** The switches before the main part lead through those groups, one after the other. */
  ghost predicate LeadsThrough(log: seq<Switch>, groups: seq<Group>, np: nat) {
    && |log| + 1 == |groups|
    && forall i :: 0 <= i < |log| ==>
         log[i].olds == log[i].running == Cpus(groups[i], np) && log[i].news == Cpus(groups[i + 1], np)
  }

  ghost predicate Repeats(o: Options, maxTick: nat) {
    !o.takeCheckpoints && !o.simpoints && o.repeatSwitch > 0 && maxTick > o.repeatSwitch
  }

  /** The group that the repeated switching names as old at its first switch. */
  ghost function RepeatBase(o: Options): Group {
    if o.cpuClass then Switched else Main
  }

  datatype Outcome = Refused | SwitchFailed | Finished(cause: Cause)

  const MAX_TICK := 0xFFFF_FFFF_FFFF_FFFF

  lemma GroupsDiffer(a: Group, b: Group, np: nat)
    requires a != b
    ensures Cpus(a, np) !! Cpus(b, np)
  {
  }

  /** How long the first part of a run simulates before its first switch, and before the second of a standard switch. */
  ghost function FirstStretch(o: Options, now: nat): int {
    if o.standardSwitch > 0 || o.fastForward then MAX_TICK - now else 10000
  }

  ghost function SecondStretch(o: Options, now: nat): int {
    if o.warmup then MAX_TICK - now else o.standardSwitch
  }

  /** Where the simulation stands at the start of a run and at each switch of its first part. */
  ghost function FirstClocks(o: Options, events: seq<Guest>, c: Clock): (cs: seq<Clock>)
    ensures |cs| == |FirstGroups(o)|
  {
    if o.standardSwitch > 0 || o.cpuClass then
      var c1 := Advanced(events, c, FirstStretch(o, c.now));
      if o.standardSwitch > 0 then [c, c1, Advanced(events, c1, SecondStretch(o, c1.now))] else [c, c1]
    else [c]
  }

  /**
    The ticks of the first switches: without fast-forwarding 10000 ticks in, unless the guest interrupts; otherwise at
    the next guest event, if one comes in time; and the second standard switch its number of ticks later, again unless
    the guest interrupts, or after a warm-up at the next guest event.
   */
  lemma FirstTicks(o: Options, events: seq<Guest>, c: Clock)
    requires o.standardSwitch > 0 || o.cpuClass
    ensures var cs := FirstClocks(o, events, c);
            && (o.standardSwitch == 0 && !o.fastForward && !Interrupts(events, c.next, c.now + 10000) ==>
                  cs[1] == Clock(c.now + 10000, c.next))
            && ((o.standardSwitch > 0 || o.fastForward) && c.now <= MAX_TICK && Interrupts(events, c.next, MAX_TICK) ==>
                  cs[1] == Clock(events[c.next].tick, c.next + 1))
            && (o.standardSwitch > 0 && !o.warmup && !Interrupts(events, cs[1].next, cs[1].now + o.standardSwitch) ==>
                  cs[2] == Clock(cs[1].now + o.standardSwitch, cs[1].next))
            && (o.standardSwitch > 0 && o.warmup && cs[1].now <= MAX_TICK && Interrupts(events, cs[1].next, MAX_TICK)
                ==> cs[2] == Clock(events[cs[1].next].tick, cs[1].next + 1))
  {
  }

  /** Each of those switches happens at its clock. */
  ghost predicate OnTime(log: seq<Switch>, cs: seq<Clock>) {
    |cs| == |log| + 1 && forall i :: 0 <= i < |log| ==> log[i].tick == cs[i + 1].now
  }

  /** The switches of the first part of a run. */
  method FirstSwitches(o: Options, sim: Sim) returns (ok: bool, cause: Cause, running: set<Cpu>, log: seq<Switch>)
    requires o.np > 0 && sim.Valid() && sim.now <= MAX_TICK
    modifies sim`now, sim`next
    ensures ok && sim.Valid() && LeadsThrough(log, FirstGroups(o), o.np)
    ensures running == Cpus(FirstGroups(o)[|log|], o.np)
    ensures OnTime(log, FirstClocks(o, sim.events, old(sim.At())))
    ensures sim.At() == FirstClocks(o, sim.events, old(sim.At()))[|log|]
  {
    ok, cause, running, log := true, Limit, Cpus(Main, o.np), [];
    if o.standardSwitch > 0 || o.cpuClass {
      if o.standardSwitch > 0 {
        cause := sim.Simulate(MAX_TICK - sim.now);
      } else if o.fastForward {
        cause := sim.Simulate(MAX_TICK - sim.now);
      } else {
        cause := sim.Simulate(10000);
      }
      var incoming := if o.standardSwitch > 0 then Timing else Switched;
      log := log + [Switch(sim.now, Cpus(Main, o.np), Cpus(incoming, o.np), running)];
      ok, running := SwitchGroup(running, Main, incoming, o.np);
      if o.standardSwitch > 0 {
        if o.warmup {
          cause := sim.Simulate(MAX_TICK - sim.now);
        } else {
          cause := sim.Simulate(o.standardSwitch);
        }
        log := log + [Switch(sim.now, Cpus(Timing, o.np), Cpus(OutOfOrder, o.np), running)];
        ok, running := SwitchGroup(running, Timing, OutOfOrder, o.np);
      }
    }
  }

  /**
    The main part of a run, from the clock `c` on: the checkpoints of the script, or repeated
    switching, or the checkpoints the guest asks for.
   */
  ghost predicate HasMainPart(o: Options, events: seq<Guest>, c: Clock, end: Clock, maxTick: nat, cause: Cause,
                              log: seq<Switch>, taken: seq<nat>)
    requires c.next <= |events|
  {
    if Repeats(o, maxTick) then
      && Alternates(log, Cpus(RepeatBase(o), o.np), Cpus(Repeated, o.np), c.now, o.repeatSwitch)
      && EndsRightly(events, c, end, cause, |log|, maxTick, o.repeatSwitch) && taken == []
    else
      log == [] && HasCheckpoints(o, events, c, end, maxTick, cause, taken)
  }

  ghost predicate HasCheckpoints(o: Options, events: seq<Guest>, c: Clock, end: Clock, maxTick: nat, cause: Cause,
                                 taken: seq<nat>)
    requires c.next <= |events|
  {
    if o.takeCheckpoints then
      Checkpoints.IsScripted(events, c, end, cause, taken, o.when, o.period, o.maxCheckpoints, maxTick)
    else if o.simpoints then end == c && taken == []
    else Checkpoints.IsRequested(events, c, end, cause, taken, o.maxCheckpoints, maxTick)
  }

  /** The checkpoints of the main part, when it does not switch CPUs. */
  method TakeCheckpoints(o: Options, sim: Sim, maxTick: nat, last: Cause) returns (cause: Cause, ghost taken: seq<nat>)
    requires sim.Valid()
    modifies sim
    ensures sim.Valid() && sim.taken == old(sim.taken) + taken
    ensures HasCheckpoints(o, sim.events, old(sim.At()), sim.At(), maxTick, cause, taken)
  {
    if o.takeCheckpoints {
      cause, taken := Checkpoints.ScriptCheckpoints(sim, o.when, o.period, o.maxCheckpoints, maxTick);
    } else if o.simpoints {
      cause, taken := last, [];
    } else {
      cause, taken := Checkpoints.BenchCheckpoints(sim, o.maxCheckpoints, maxTick);
    }
  }

  /** The main part: repeated switching, or checkpoints with the same CPUs running throughout. */
  method MainPart(o: Options, sim: Sim, maxTick: nat, start: set<Cpu>, last: Cause)
    returns (ok: bool, cause: Cause, running: set<Cpu>, log: seq<Switch>, ghost taken: seq<nat>)
    requires o.np > 0 && sim.Valid() && (Repeats(o, maxTick) ==> start == Cpus(RepeatBase(o), o.np))
    modifies sim
    ensures ok && sim.Valid() && sim.taken == old(sim.taken) + taken
    ensures HasMainPart(o, sim.events, old(sim.At()), sim.At(), maxTick, cause, log, taken)
    ensures Chained(start, log) && running == RunningAfter(start, log)
  {
    if !o.takeCheckpoints && !o.simpoints && o.repeatSwitch > 0 && maxTick > o.repeatSwitch {
      var pairs := PairsOf(if o.cpuClass then Switched else Main, Repeated, o.np);
      PairsShape(RepeatBase(o), Repeated, o.np);
      GroupsDiffer(RepeatBase(o), Repeated, o.np);
      cause, ok, running, log := RepeatSwitch(sim, start, pairs, maxTick, o.repeatSwitch);
      AlternationIsChained(log, start, Cpus(Repeated, o.np), old(sim.now), o.repeatSwitch);
      taken := [];
    } else {
      ok, running, log := true, start, [];
      cause, taken := TakeCheckpoints(o, sim, maxTick, last);
    }
  }

  /** The first switches of a run, on time, and then its main part. */
  ghost predicate IsWholeRun(o: Options, events: seq<Guest>, c: Clock, end: Clock, maxTick: nat, cause: Cause,
                             log: seq<Switch>, lead: nat, taken: seq<nat>)
    requires c.next <= |events|
  {
    var clocks := FirstClocks(o, events, c);
    && lead <= |log| && LeadsThrough(log[..lead], FirstGroups(o), o.np) && OnTime(log[..lead], clocks)
    && HasMainPart(o, events, clocks[lead], end, maxTick, cause, log[lead..], taken)
  }

  /**
    A whole run. No switch is ever refused by the simulator, and each names as old exactly the CPUs running at that
    moment: first through the groups of the restore, fast-forward or standard switches, then back and forth between the
    group reached and the repeated one. Without repeated switching the main part takes its checkpoints instead.
   */
  method Run(o: Options, sim: Sim, maxTick: nat)
    returns (r: Outcome, running: set<Cpu>, log: seq<Switch>, ghost lead: nat, ghost taken: seq<nat>)
    requires o.np > 0 && sim.Valid() && sim.now <= MAX_TICK
    modifies sim
    ensures r.Refused? <==> !IsAccepted(o)
    ensures !r.SwitchFailed? && Chained(Cpus(Main, o.np), log) && running == RunningAfter(Cpus(Main, o.np), log)
    ensures r.Refused? || o.initializeOnly ==> log == [] && sim.At() == old(sim.At()) && sim.taken == old(sim.taken)
    ensures IsAccepted(o) && !o.initializeOnly ==>
              && IsWholeRun(o, sim.events, old(sim.At()), sim.At(), maxTick, r.cause, log, lead, taken)
              && sim.taken == old(sim.taken) + taken + if o.checkpointAtEnd then [sim.now] else []
  {
    running, log, lead, taken := Cpus(Main, o.np), [], 0, [];
    var accepted := CheckOptions(o);
    if !accepted {
      return Refused, running, log, 0, [];
    }
    if o.initializeOnly {
      return Finished(Limit), running, log, 0, [];
    }
    var ok, cause;
    ok, cause, running, log := FirstSwitches(o, sim);
    LeadIsChained(log, o);
    lead := |log|;
    if !ok {
      return SwitchFailed, running, log, lead, taken;
    }
    var more;
    ok, cause, running, more, taken := MainPart(o, sim, maxTick, running, cause);
    ChainJoin(Cpus(Main, o.np), log, more);
    log := log + more;
    assert log[..lead] + log[lead..] == log && log[lead..] == more;
    if o.checkpointAtEnd {
      sim.Checkpoint();
    }
    r := if ok then Finished(cause) else SwitchFailed;
  }

  lemma LeadIsChained(log: seq<Switch>, o: Options)
    requires LeadsThrough(log, FirstGroups(o), o.np)
    ensures Chained(Cpus(Main, o.np), log)
    ensures RunningAfter(Cpus(Main, o.np), log) == Cpus(FirstGroups(o)[|log|], o.np)
  {
    var gs := FirstGroups(o);
    forall i | 0 <= i < |log|
      ensures log[i].news !! log[i].running && log[i].running == RunningAfter(Cpus(Main, o.np), log[..i])
    {
      GroupsDiffer(gs[i], gs[i + 1], o.np);
    }
  }
}
