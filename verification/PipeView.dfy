/** The pipeline viewer's bounded reorder queue, from trace lines to printed instructions. */
module PipeView {

  datatype Stage = Fetch | Decode | Rename | Dispatch | Issue | Complete | Retire | StoreDone

  /** An instruction as gathered from the trace: its sequence number and the tick of each stage seen so far. */
  datatype Inst = Inst(sn: int, ticks: map<Stage, int>)

  /** A tick of 0 stands for a stage that was not reached; a stage the trace never mentioned reads as 0. */
  function Tick(x: Inst, s: Stage): int {
    if s in x.ticks then x.ticks[s] else 0
  }

  datatype Config = Config(min: nat, max: nat, snStart: int, snStop: int, tickStart: int, tickStop: int,
                           tickDrift: int, onlyCommitted: bool, storeCompletions: bool)

  /** Whether a drained instruction is printed. */
  predicate Passes(c: Config, x: Inst) {
    && !(c.snStart > 0 && x.sn < c.snStart)
    && !(c.snStop > 0 && x.sn > c.snStop)
    && !(c.tickStart > 0 && Tick(x, Fetch) < c.tickStart)
    && !(c.tickStop > 0 && Tick(x, Fetch) > c.tickStop)
    && !(c.onlyCommitted && Tick(x, Retire) == 0)
  }

  function Printed(c: Config, s: seq<Inst>): seq<Inst> {
    if s == [] then [] else
      Printed(c, s[..|s| - 1]) + if Passes(c, s[|s| - 1]) then [s[|s| - 1]] else []
  }

  ghost predicate Sorted(s: seq<Inst>) {
    forall i, j :: 0 <= i < j < |s| ==> s[i].sn <= s[j].sn
  }

  /** How many instructions of `s` have a larger sequence number than `v`. */
  ghost function Later(s: seq<Inst>, v: int): nat {
    if s == [] then 0 else Later(s[..|s| - 1], v) + if s[|s| - 1].sn > v then 1 else 0
  }

  /** Every instruction is overtaken by at most `bound` instructions that arrived before it. */
  ghost predicate OvertakenAtMost(arrivals: seq<Inst>, bound: nat) {
    forall i :: 0 <= i < |arrivals| ==> Later(arrivals[..i], arrivals[i].sn) <= bound
  }

  /** Inserting behind all entries that are not larger keeps equal entries in their order. */
  function InsertSorted(s: seq<Inst>, x: Inst): (r: seq<Inst>)
    ensures |r| == |s| + 1
  {
    if s == [] || s[|s| - 1].sn <= x.sn then s + [x]
    else InsertSorted(s[..|s| - 1], x) + [s[|s| - 1]]
  }

  /** The stable sort by sequence number. */
  function SortBySn(s: seq<Inst>): (r: seq<Inst>)
    ensures |r| == |s|
  {
    if s == [] then [] else InsertSorted(SortBySn(s[..|s| - 1]), s[|s| - 1])
  }

  lemma LaterAppend(s: seq<Inst>, x: Inst, v: int)
    ensures Later(s + [x], v) == Later(s, v) + if x.sn > v then 1 else 0
  {
    assert (s + [x])[..|s|] == s;
  }

  lemma {:induction false} InsertCounts(s: seq<Inst>, x: Inst, v: int)
    ensures Later(InsertSorted(s, x), v) == Later(s, v) + if x.sn > v then 1 else 0
  {
    if s == [] || s[|s| - 1].sn <= x.sn {
      LaterAppend(s, x, v);
    } else {
      InsertCounts(s[..|s| - 1], x, v);
      LaterAppend(InsertSorted(s[..|s| - 1], x), s[|s| - 1], v);
    }
  }

  lemma {:induction false} InsertConserves(s: seq<Inst>, x: Inst)
    ensures multiset(InsertSorted(s, x)) == multiset(s) + multiset{x}
  {
    if s != [] && s[|s| - 1].sn > x.sn {
      InsertConserves(s[..|s| - 1], x);
      assert s == s[..|s| - 1] + [s[|s| - 1]];
    }
  }

  lemma SameMembers(a: seq<Inst>, b: seq<Inst>)
    requires multiset(a) == multiset(b)
    ensures forall x :: x in a <==> x in b
  {
    forall x
      ensures x in a <==> x in b
    {
      assert x in a <==> x in multiset(a);
      assert x in b <==> x in multiset(b);
    }
  }

  lemma {:induction false} InsertIsBounded(s: seq<Inst>, x: Inst, v: int)
    requires x.sn <= v && forall i :: 0 <= i < |s| ==> s[i].sn <= v
    ensures forall i :: 0 <= i < |s| + 1 ==> InsertSorted(s, x)[i].sn <= v
  {
    if s != [] && s[|s| - 1].sn > x.sn {
      InsertIsBounded(s[..|s| - 1], x, v);
    }
  }

  lemma {:induction false} InsertIsSorted(s: seq<Inst>, x: Inst)
    requires Sorted(s)
    ensures Sorted(InsertSorted(s, x))
  {
    if s != [] && s[|s| - 1].sn > x.sn {
      InsertIsSorted(s[..|s| - 1], x);
      InsertIsBounded(s[..|s| - 1], x, s[|s| - 1].sn);
    }
  }

  lemma {:induction false} SortIsSorted(s: seq<Inst>)
    ensures Sorted(SortBySn(s)) && multiset(SortBySn(s)) == multiset(s)
  {
    if s != [] {
      assert s == s[..|s| - 1] + [s[|s| - 1]];
      SortIsSorted(s[..|s| - 1]);
      InsertIsSorted(SortBySn(s[..|s| - 1]), s[|s| - 1]);
      InsertConserves(SortBySn(s[..|s| - 1]), s[|s| - 1]);
    }
  }

  lemma {:induction false} SortCounts(s: seq<Inst>, v: int)
    ensures Later(SortBySn(s), v) == Later(s, v)
  {
    if s != [] {
      SortCounts(s[..|s| - 1], v);
      InsertCounts(SortBySn(s[..|s| - 1]), s[|s| - 1], v);
    }
  }

  /** The waiting instructions and everything drained so far, printed or not. */
  datatype State = State(queue: seq<Inst>, drained: seq<Inst>)

  function Drained(st: State, lower: nat): State {
    var s := SortBySn(st.queue);
    if |s| <= lower then State(s, st.drained)
    else State(s[|s| - lower..], st.drained + s[..|s| - lower])
  }

  function Queued(c: Config, st: State, x: Inst): State {
    var st' := st.(queue := st.queue + [x]);
    if |st'.queue| > c.max then Drained(st', c.min) else st'
  }

  /** The state after a sequence of arrivals. */
  function After(c: Config, arrivals: seq<Inst>): State {
    if arrivals == [] then State([], [])
    else Queued(c, After(c, arrivals[..|arrivals| - 1]), arrivals[|arrivals| - 1])
  }

  /** What the options ask to see: bounds on the number and on the fetch tick, 0 for none, and perhaps retirement. */
  ghost predicate InRange(c: Config, x: Inst) {
    && (c.snStart > 0 ==> c.snStart <= x.sn) && (c.snStop > 0 ==> x.sn <= c.snStop)
    && (c.tickStart > 0 ==> c.tickStart <= Tick(x, Fetch)) && (c.tickStop > 0 ==> Tick(x, Fetch) <= c.tickStop)
    && (c.onlyCommitted ==> Tick(x, Retire) != 0)
  }

  /** Everything a run prints: arrivals are queued one by one and the rest is flushed at the end. */
  function Output(c: Config, arrivals: seq<Inst>): seq<Inst> {
    Printed(c, Drained(After(c, arrivals), 0).drained)
  }

  lemma {:induction false} LaterConcat(a: seq<Inst>, b: seq<Inst>, v: int)
    ensures Later(a + b, v) == Later(a, v) + Later(b, v)
  {
    if b == [] {
      assert a + b == a;
    } else {
      assert (a + b)[..|a + b| - 1] == a + b[..|b| - 1];
      LaterConcat(a, b[..|b| - 1], v);
    }
  }

  lemma {:induction false} AllLater(s: seq<Inst>, v: int)
    requires forall i :: 0 <= i < |s| ==> s[i].sn > v
    ensures Later(s, v) == |s|
  {
    if s != [] {
      AllLater(s[..|s| - 1], v);
    }
  }

  /** Nothing is lost: what arrived is what was drained plus what still waits. */
  lemma DrainConserves(st: State, lower: nat, v: int)
    ensures var st' := Drained(st, lower);
            && multiset(st'.drained) + multiset(st'.queue) == multiset(st.drained) + multiset(st.queue)
            && Later(st'.drained, v) + Later(st'.queue, v) == Later(st.drained, v) + Later(st.queue, v)
  {
    SortIsSorted(st.queue);
    SortCounts(st.queue, v);
    var n := DrainIsSplit(st, lower);
    SplitConserves(st.drained, SortBySn(st.queue), n, v);
  }

  /** Draining cuts the sorted queue in two. */
  lemma DrainIsSplit(st: State, lower: nat) returns (n: nat)
    ensures var s := SortBySn(st.queue);
            n <= |s| && Drained(st, lower) == State(s[n..], st.drained + s[..n]) && (n > 0 ==> |s| - n == lower)
  {
    var s := SortBySn(st.queue);
    n := if |s| <= lower then 0 else |s| - lower;
    assert s[0..] == s && st.drained + s[..0] == st.drained;
  }

  lemma SplitConserves(d: seq<Inst>, s: seq<Inst>, n: nat, v: int)
    requires n <= |s|
    ensures multiset(d + s[..n]) + multiset(s[n..]) == multiset(d) + multiset(s)
    ensures Later(d + s[..n], v) + Later(s[n..], v) == Later(d, v) + Later(s, v)
  {
    assert s == s[..n] + s[n..];
    LaterConcat(d, s[..n], v);
    LaterConcat(s[..n], s[n..], v);
  }

  lemma QueueConserves(c: Config, st: State, x: Inst, v: int)
    ensures var st' := Queued(c, st, x);
            && multiset(st'.drained) + multiset(st'.queue) == multiset(st.drained) + multiset(st.queue) + multiset{x}
            && Later(st'.drained, v) + Later(st'.queue, v)
               == Later(st.drained, v) + Later(st.queue, v) + if x.sn > v then 1 else 0
  {
    var added := State(st.queue + [x], st.drained);
    AddConserves(st.queue, x, v);
    DrainConserves(added, c.min, v);
  }

  lemma AddConserves(queue: seq<Inst>, x: Inst, v: int)
    ensures multiset(queue + [x]) == multiset(queue) + multiset{x}
    ensures Later(queue + [x], v) == Later(queue, v) + if x.sn > v then 1 else 0
  {
    LaterAppend(queue, x, v);
  }

  lemma {:induction false} RunConserves(c: Config, arrivals: seq<Inst>, v: int)
    ensures var st := After(c, arrivals);
            && multiset(st.drained) + multiset(st.queue) == multiset(arrivals)
            && Later(st.drained, v) + Later(st.queue, v) == Later(arrivals, v)
  {
    if arrivals != [] {
      var init, x := arrivals[..|arrivals| - 1], arrivals[|arrivals| - 1];
      assert arrivals == init + [x];
      RunConserves(c, init, v);
      QueueConserves(c, After(c, init), x, v);
      LaterAppend(init, x, v);
    }
  }

  /** The drained part is sorted, everything waiting is at least as late, and at least `min` instructions wait. */
  ghost predicate InOrder(c: Config, st: State) {
    && Sorted(st.drained)
    && (st.drained != [] ==> |st.queue| >= c.min)
    && AllBefore(st.drained, st.queue)
  }

  ghost predicate AllBefore(a: seq<Inst>, b: seq<Inst>) {
    forall i, j :: 0 <= i < |a| && 0 <= j < |b| ==> a[i].sn <= b[j].sn
  }

  lemma SplitKeepsOrder(d: seq<Inst>, s: seq<Inst>, n: nat)
    requires Sorted(d) && Sorted(s) && AllBefore(d, s) && n <= |s|
    ensures Sorted(d + s[..n]) && AllBefore(d + s[..n], s[n..])
  {
  }

  lemma DrainKeepsOrder(c: Config, st: State, lower: nat)
    requires InOrder(c, st)
    ensures Sorted(Drained(st, lower).drained)
    ensures lower == c.min ==> InOrder(c, Drained(st, lower))
  {
    var s := SortBySn(st.queue);
    SortIsSorted(st.queue);
    SameMembers(s, st.queue);
    forall i, j | 0 <= i < |st.drained| && 0 <= j < |s|
      ensures st.drained[i].sn <= s[j].sn
    {
      assert s[j] in st.queue;
    }
    var n := DrainIsSplit(st, lower);
    SplitKeepsOrder(st.drained, s, n);
  }

  /** An arrival that is overtaken by at most `min` earlier ones is not earlier than anything drained. */
  lemma ArrivalKeepsOrder(c: Config, arrivals: seq<Inst>, x: Inst)
    requires InOrder(c, After(c, arrivals)) && Later(arrivals, x.sn) <= c.min
    ensures var st := After(c, arrivals); InOrder(c, st.(queue := st.queue + [x]))
  {
    var st := After(c, arrivals);
    if st.drained != [] {
      var last := st.drained[|st.drained| - 1];
      RunConserves(c, arrivals, x.sn);
      if last.sn > x.sn {
        AllLater(st.queue, x.sn);
      }
      assert last.sn <= x.sn;
    }
  }

  lemma {:induction false} RunKeepsOrder(c: Config, arrivals: seq<Inst>)
    requires OvertakenAtMost(arrivals, c.min)
    ensures InOrder(c, After(c, arrivals))
  {
    if arrivals != [] {
      var init, x := arrivals[..|arrivals| - 1], arrivals[|arrivals| - 1];
      forall i | 0 <= i < |init|
        ensures Later(init[..i], init[i].sn) <= c.min
      {
        assert init[..i] == arrivals[..i] && init[i] == arrivals[i];
      }
      RunKeepsOrder(c, init);
      ArrivalKeepsOrder(c, init, x);
      var st := After(c, init);
      DrainKeepsOrder(c, st.(queue := st.queue + [x]), c.min);
    }
  }

  lemma {:induction false} PrintedCounts(c: Config, s: seq<Inst>, x: Inst)
    ensures multiset(Printed(c, s))[x] == if Passes(c, x) then multiset(s)[x] else 0
  {
    if s != [] {
      PrintedCounts(c, s[..|s| - 1], x);
      assert s == s[..|s| - 1] + [s[|s| - 1]];
    }
  }

  lemma {:induction false} PrintedIsSorted(c: Config, s: seq<Inst>)
    requires Sorted(s)
    ensures Sorted(Printed(c, s)) && forall x :: x in Printed(c, s) ==> x in s
  {
    if s != [] {
      PrintedIsSorted(c, s[..|s| - 1]);
      assert forall x :: x in s[..|s| - 1] ==> x.sn <= s[|s| - 1].sn;
    }
  }

  /**
    The promise of the queue: if no instruction is overtaken by more than `min` earlier arrivals, the run prints
    in order of sequence numbers; and in any case it prints exactly the arrivals in range, as often as they arrived.
   */
  lemma OutputIsSortedPermutation(c: Config, arrivals: seq<Inst>)
    ensures OvertakenAtMost(arrivals, c.min) ==> Sorted(Output(c, arrivals))
    ensures forall x :: multiset(Output(c, arrivals))[x] == if InRange(c, x) then multiset(arrivals)[x] else 0
  {
    var st := After(c, arrivals);
    if OvertakenAtMost(arrivals, c.min) {
      RunKeepsOrder(c, arrivals);
      DrainKeepsOrder(c, st, 0);
      PrintedIsSorted(c, Drained(st, 0).drained);
    }
    RunConserves(c, arrivals, 0);
    DrainConserves(st, 0, 0);
    forall x: Inst
      ensures multiset(Output(c, arrivals))[x] == if InRange(c, x) then multiset(arrivals)[x] else 0
    {
      PrintedCounts(c, Drained(st, 0).drained, x);
    }
  }

  /** The instructions with one sequence number, in their order. */
  ghost function Named(s: seq<Inst>, v: int): seq<Inst> {
    if s == [] then []
    else if s[|s| - 1].sn == v then Named(s[..|s| - 1], v) + [s[|s| - 1]]
    else Named(s[..|s| - 1], v)
  }

  lemma NamedAppend(s: seq<Inst>, x: Inst, v: int)
    ensures Named(s + [x], v) == if x.sn == v then Named(s, v) + [x] else Named(s, v)
  {
    assert (s + [x])[..|s|] == s;
  }

  lemma {:induction false} NamedConcat(a: seq<Inst>, b: seq<Inst>, v: int)
    ensures Named(a + b, v) == Named(a, v) + Named(b, v)
  {
    if b == [] {
      assert a + b == a;
    } else {
      var init, x := b[..|b| - 1], b[|b| - 1];
      assert a + b == (a + init) + [x];
      NamedConcat(a, init, v);
      NamedAppend(a + init, x, v);
    }
  }

  lemma {:induction false} InsertIsStable(s: seq<Inst>, x: Inst, v: int)
    ensures Named(InsertSorted(s, x), v) == if x.sn == v then Named(s, v) + [x] else Named(s, v)
  {
    if s == [] || s[|s| - 1].sn <= x.sn {
      NamedAppend(s, x, v);
    } else {
      InsertIsStable(s[..|s| - 1], x, v);
      NamedAppend(InsertSorted(s[..|s| - 1], x), s[|s| - 1], v);
    }
  }

  lemma {:induction false} SortIsStable(s: seq<Inst>, v: int)
    ensures Named(SortBySn(s), v) == Named(s, v)
  {
    if s != [] {
      SortIsStable(s[..|s| - 1], v);
      InsertIsStable(SortBySn(s[..|s| - 1]), s[|s| - 1], v);
    }
  }

  /** What was drained and, behind it, what waits. */
  ghost function InLine(st: State): seq<Inst> {
    st.drained + st.queue
  }

  lemma DrainIsStable(st: State, lower: nat, v: int)
    ensures Named(InLine(Drained(st, lower)), v) == Named(InLine(st), v)
  {
    var s := SortBySn(st.queue);
    var n := DrainIsSplit(st, lower);
    assert (st.drained + s[..n]) + s[n..] == st.drained + s;
    SortIsStable(st.queue, v);
    NamedConcat(st.drained, s, v);
    NamedConcat(st.drained, st.queue, v);
  }

  lemma QueueIsStable(c: Config, st: State, x: Inst, v: int)
    ensures Named(InLine(Queued(c, st, x)), v) == if x.sn == v then Named(InLine(st), v) + [x] else Named(InLine(st), v)
  {
    var added := State(st.queue + [x], st.drained);
    assert InLine(added) == InLine(st) + [x];
    NamedAppend(InLine(st), x, v);
    DrainIsStable(added, c.min, v);
  }

  lemma {:induction false} RunIsStable(c: Config, arrivals: seq<Inst>, v: int)
    ensures Named(InLine(After(c, arrivals)), v) == Named(arrivals, v)
  {
    if arrivals != [] {
      RunIsStable(c, arrivals[..|arrivals| - 1], v);
      QueueIsStable(c, After(c, arrivals[..|arrivals| - 1]), arrivals[|arrivals| - 1], v);
    }
  }

  lemma PrintedAppend(c: Config, s: seq<Inst>, x: Inst)
    ensures Printed(c, s + [x]) == if Passes(c, x) then Printed(c, s) + [x] else Printed(c, s)
  {
    assert (s + [x])[..|s|] == s;
  }

  lemma {:induction false} PrintedNamed(c: Config, s: seq<Inst>, v: int)
    ensures Named(Printed(c, s), v) == Printed(c, Named(s, v))
  {
    if s != [] {
      var init, x := s[..|s| - 1], s[|s| - 1];
      assert s == init + [x];
      PrintedNamed(c, init, v);
      PrintedAppend(c, init, x);
      NamedAppend(Printed(c, init), x, v);
      PrintedAppend(c, Named(init, v), x);
    }
  }

  /** Instructions with the same sequence number come out as they arrived, whatever the thresholds. */
  lemma OutputIsStable(c: Config, arrivals: seq<Inst>, v: int)
    ensures Named(Output(c, arrivals), v) == Printed(c, Named(arrivals, v))
  {
    var st := After(c, arrivals);
    RunIsStable(c, arrivals, v);
    DrainIsStable(st, 0, v);
    assert InLine(Drained(st, 0)) == Drained(st, 0).drained;
    PrintedNamed(c, Drained(st, 0).drained, v);
  }

  function Plain(min: nat, max: nat): Config {
    Config(min, max, 0, 0, 0, 0, 0, false, false)
  }

  function Up(from: int, n: nat): seq<Inst> {
    seq(n, i => Inst(from + i, map[]))
  }

  lemma {:induction false} SortedIsFixed(s: seq<Inst>)
    requires Sorted(s)
    ensures SortBySn(s) == s
  {
    if s != [] {
      SortedIsFixed(s[..|s| - 1]);
    }
  }

  lemma {:induction false} NoDrainYet(c: Config, s: seq<Inst>)
    requires |s| <= c.max
    ensures After(c, s) == State(s, [])
  {
    if s != [] {
      NoDrainYet(c, s[..|s| - 1]);
      assert s == s[..|s| - 1] + [s[|s| - 1]];
    }
  }

  lemma {:induction false} NoneLater(s: seq<Inst>, v: int)
    requires forall i :: 0 <= i < |s| ==> s[i].sn <= v
    ensures Later(s, v) == 0
  {
    if s != [] {
      NoneLater(s[..|s| - 1], v);
    }
  }

  /** The arrivals that show the bound cannot be loosened: the last one is overtaken by `min + 1` earlier ones. */
  function TooLate(min: nat, max: nat): seq<Inst>
    requires min <= max
  {
    Up(0, max - min) + Up(max - min + 1, min + 1) + [Inst(max - min, map[])]
  }

  lemma TooLateIsOvertaken(min: nat, max: nat)
    requires min <= max
    ensures OvertakenAtMost(TooLate(min, max), min + 1)
  {
    var xs := TooLate(min, max);
    var low, high := Up(0, max - min), Up(max - min + 1, min + 1);
    forall i | 0 <= i < |xs|
      ensures Later(xs[..i], xs[i].sn) <= min + 1
    {
      if i == max + 1 {
        assert xs[..i] == low + high;
        LaterConcat(low, high, max - min);
        NoneLater(low, max - min);
        AllLater(high, max - min);
      } else {
        NoneLater(xs[..i], xs[i].sn);
      }
    }
  }

  lemma FirstDrain(c: Config, s: seq<Inst>)
    requires c.min <= c.max && |s| == c.max + 1 && Sorted(s)
    ensures After(c, s).drained == s[..c.max + 1 - c.min]
  {
    NoDrainYet(c, s[..c.max]);
    assert s[..c.max] + [s[c.max]] == s;
    assert After(c, s) == Queued(c, State(s[..c.max], []), s[c.max]);
    DrainOfSorted(s, c.min);
  }

  lemma DrainOfSorted(s: seq<Inst>, lower: nat)
    requires Sorted(s) && |s| > lower
    ensures Drained(State(s, []), lower).drained == s[..|s| - lower]
  {
    SortedIsFixed(s);
    assert [] + s[..|s| - lower] == s[..|s| - lower];
  }

  lemma FirstDrainStaysInFront(c: Config, s: seq<Inst>, x: Inst)
    requires c.min <= c.max && |s| == c.max + 1 && Sorted(s)
    ensures s[..c.max + 1 - c.min] <= Drained(After(c, s + [x]), 0).drained
  {
    FirstDrain(c, s);
    assert (s + [x])[..|s|] == s;
    assert After(c, s + [x]) == Queued(c, After(c, s), x);
  }

  lemma EveryArrivalComesOut(c: Config, xs: seq<Inst>, x: Inst)
    requires x in xs
    ensures x in Drained(After(c, xs), 0).drained
  {
    RunConserves(c, xs, 0);
    DrainConserves(After(c, xs), 0, 0);
    SameMembers(Drained(After(c, xs), 0).drained, xs);
  }

  /** An arrival right after the first drain that is earlier than the last drained instruction comes out behind it. */
  lemma LateArrivalBreaksOrder(c: Config, s: seq<Inst>, x: Inst, k: nat)
    requires c.min <= c.max && |s| == c.max + 1 && k == c.max - c.min && Sorted(s)
    requires x !in s[..k + 1] && x.sn < s[k].sn
    ensures !Sorted(Drained(After(c, s + [x]), 0).drained)
  {
    FirstDrainStaysInFront(c, s, x);
    assert x == (s + [x])[|s|];
    EveryArrivalComesOut(c, s + [x], x);
    EarlierBehindLater(Drained(After(c, s + [x]), 0).drained, s[..k + 1], x, k);
  }

  lemma EarlierBehindLater(all: seq<Inst>, front: seq<Inst>, x: Inst, k: nat)
    requires front <= all && k < |front| && x in all && x !in front && x.sn < front[k].sn
    ensures !Sorted(all)
  {
    var late :| 0 <= late < |all| && all[late] == x;
    assert late >= |front| && all[k] == front[k];
  }

  /** All numbers but `k`: sorted, and the one that is missing belongs before the last of the first `k + 1`. */
  lemma GapIsSorted(k: nat, n: nat)
    requires n > 0
    ensures var s, x := Up(0, k) + Up(k + 1, n), Inst(k, map[]);
            Sorted(s) && x !in s[..k + 1] && x.sn < s[k].sn
  {
    var s := Up(0, k) + Up(k + 1, n);
    assert forall i :: 0 <= i < |s| ==> s[i].sn == if i < k then i else i + 1;
  }

  /** With one place more, for all thresholds, there are arrivals that come out unsorted. */
  lemma BoundIsTight(min: nat, max: nat)
    requires min <= max
    ensures OvertakenAtMost(TooLate(min, max), min + 1)
    ensures !Sorted(Output(Plain(min, max), TooLate(min, max)))
  {
    TooLateIsOvertaken(min, max);
    var c, k := Plain(min, max), max - min;
    var s := Up(0, k) + Up(k + 1, min + 1);
    GapIsSorted(k, min + 1);
    LateArrivalBreaksOrder(c, s, Inst(k, map[]), k);
    PrintsAll(c, Drained(After(c, TooLate(min, max)), 0).drained);
  }

  lemma {:induction false} PrintsAll(c: Config, s: seq<Inst>)
    requires forall x :: Passes(c, x)
    ensures Printed(c, s) == s
  {
    if s != [] {
      PrintsAll(c, s[..|s| - 1]);
    }
  }
}
