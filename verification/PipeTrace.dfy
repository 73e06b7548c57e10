/** The viewer as it runs: reading trace lines, gathering instructions, and feeding the reorder queue. */
module PipeTrace {
  import opened PipeView

  /** A trace line: one stage of the current instruction, or something else entirely. A fetch names the sequence
      number of a new instruction; a retire line carries the tick at which a store completed. */
  datatype Line = Noise | Event(stage: Stage, tick: int, sn: int, storeTick: int)

  predicate IsFetch(l: Line) { l.Event? && l.stage == Fetch }
  predicate IsRetire(l: Line) { l.Event? && l.stage == Retire }

  /** The fetch that ends the region of interest, some distance behind the last instruction asked for. */
  predicate Stops(c: Config, l: Line) {
    IsFetch(l) && ((c.tickStop > 0 && l.tick > c.tickStop + c.tickDrift) || (c.snStop > 0 && l.sn > c.snStop + c.max))
  }

  /** The current instruction after a line; values persist until a later line overwrites them. */
  function Noted(c: Config, x: Inst, l: Line): Inst {
    match l
    case Noise => x
    case Event(stage, tick, sn, storeTick) =>
      var ticks := x.ticks[stage := tick];
      Inst(if stage == Fetch then sn else x.sn,
           if stage == Retire && c.storeCompletions then ticks[StoreDone := storeTick] else ticks)
  }

  /** Whether the line ends the first skipping loop. */
  predicate OpensAt(c: Config, l: Line) {
    if c.tickStart != 0 then l.Event? && l.tick >= c.tickStart
    else if c.snStart != 0 then IsFetch(l) && l.sn >= c.snStart
    else true
  }

  /** The line is in range: by its tick if a first tick is given, else, if a first number is, a fetch by its number. */
  ghost predicate InScope(c: Config, l: Line) {
    && (c.tickStart != 0 ==> l.Event? && c.tickStart <= l.tick)
    && (c.tickStart == 0 && c.snStart != 0 ==> l.Event? && l.stage == Fetch && c.snStart <= l.sn)
  }

  /** `start` is the first fetch at or behind the first line in range, or the end of the trace. */
  ghost predicate StartsAt(c: Config, lines: seq<Line>, start: nat) {
    && start <= |lines|
    && (forall i, j :: 0 <= j <= i < start && InScope(c, lines[j]) ==> !(lines[i].Event? && lines[i].stage == Fetch))
    && (start < |lines| ==>
          lines[start].Event? && lines[start].stage == Fetch && exists j :: 0 <= j <= start && InScope(c, lines[j]))
  }

  /** The fetch lies farther behind the last tick, or the last number, than instructions may be out of order. */
  ghost predicate IsBeyond(c: Config, l: Line) {
    && l.Event? && l.stage == Fetch
    && ((c.tickStop > 0 && l.tick - c.tickStop > c.tickDrift) || (c.snStop > 0 && l.sn - c.snStop > c.max))
  }

  /** `end` is the first such fetch from `start` on, or the end of the trace. */
  ghost predicate EndsAt(c: Config, lines: seq<Line>, start: nat, end: nat) {
    && start <= end <= |lines| && (forall i :: start <= i < end ==> !IsBeyond(c, lines[i]))
    && (end < |lines| ==> IsBeyond(c, lines[end]))
  }

  /** The retire lines from `start` up to `end`, in order. */
  ghost function RetiresOf(lines: seq<Line>, start: nat, end: nat): (rs: seq<nat>)
    requires start <= end <= |lines|
    ensures forall k :: 0 <= k < |rs| ==> start <= rs[k] < end
  {
    if start == end then []
    else if lines[end - 1].Event? && lines[end - 1].stage == Retire then RetiresOf(lines, start, end - 1) + [end - 1]
    else RetiresOf(lines, start, end - 1)
  }

  /** The current instruction after the lines from `from` up to `to`. */
  function Current(c: Config, lines: seq<Line>, from: nat, to: nat): Inst
    requires from <= to <= |lines|
  {
    if from == to then Unset else Noted(c, Current(c, lines, from, to - 1), lines[to - 1])
  }

  /** The current instruction as it was behind each of the given lines. */
  ghost function Snapshots(c: Config, lines: seq<Line>, start: nat, rs: seq<nat>): seq<Inst>
    requires forall k :: 0 <= k < |rs| ==> start <= rs[k] < |lines|
  {
    seq(|rs|, k requires 0 <= k < |rs| => Current(c, lines, start, rs[k] + 1))
  }

  const Unset := Inst(0, map[])

  /** Between the two states the first `n` instructions of the queue were drained. */
  ghost predicate Moved(st: State, n: nat, st': State) {
    n <= |st.queue| && st' == State(st.queue[n..], st.drained + st.queue[..n])
  }

  lemma FrontMoves(st: State, n: nat, st': State)
    requires Moved(st, n, st') && st'.queue != []
    ensures Moved(st, n + 1, State(st'.queue[1..], st'.drained + [st'.queue[0]]))
  {
    var s := st.queue;
    assert s[n..][1..] == s[n + 1..] && s[n..][0] == s[n];
    assert st.drained + s[..n + 1] == (st.drained + s[..n]) + [s[n]];
  }

  class Viewer {
    const c: Config
    var queue: seq<Inst>
    var printed: seq<Inst>
    ghost var drained: seq<Inst>

    ghost predicate Valid()
      reads this
    {
      printed == Printed(c, drained)
    }

    ghost function View(): State
      reads this
    {
      State(queue, drained)
    }

    constructor (c: Config)
      ensures Valid() && this.c == c && View() == State([], []) && printed == []
    {
      this.c, queue, printed, drained := c, [], [], [];
    }

    /** Takes the first instruction off the queue and prints it if it passes the filters. */
    method PopFront()
      requires Valid() && queue != []
      modifies this
      ensures Valid() && queue == old(queue)[1..] && drained == old(drained) + [old(queue)[0]]
    {
      var item := queue[0];
      queue := queue[1..];
      PrintedAppend(c, drained, item);
      if Passes(c, item) {
        printed := printed + [item];
      }
      drained := drained + [item];
    }

    /** Sorts the queue, then pops and prints from its front until `lower` instructions are left. */
    method PrintInsts(lower: nat)
      requires Valid()
      modifies this
      ensures Valid() && View() == Drained(old(View()), lower)
    {
      queue := SortBySn(queue);
      ghost var st, n := View(), 0;
      while |queue| > lower
        invariant Valid() && Moved(st, n, View()) && (n == 0 || |queue| >= lower)
      {
        FrontMoves(st, n, View());
        PopFront();
        n := n + 1;
      }
    }

    /** Appends an instruction; when the queue has grown beyond its upper mark, drains it to the lower one. */
    method QueueInst(x: Inst)
      requires Valid()
      modifies this
      ensures Valid() && View() == Queued(c, old(View()), x)
    {
      queue := queue + [x];
      if |queue| > c.max {
        PrintInsts(c.min);
      }
    }

    /**
      The whole run over a trace, on a fresh viewer: the instructions as they were at the retire lines between the two
      ends go through the queue, and those in range are printed.
     */
    method ProcessTrace(lines: seq<Line>) returns (ghost start: nat, ghost end: nat)
      requires Valid() && View() == State([], []) && printed == []
      modifies this
      ensures StartsAt(c, lines, start) && EndsAt(c, lines, start, end)
      ensures printed == Output(c, Snapshots(c, lines, start, RetiresOf(lines, start, end)))
    {
      var i := SkipToStart(c, lines);
      start := i;
      end := MainLoop(lines, i);
    }

    /** The region of interest: every retire line queues the current instruction, and the end flushes the queue. */
    method MainLoop(lines: seq<Line>, start: nat) returns (ghost end: nat)
      requires Valid() && View() == State([], []) && start <= |lines|
      modifies this
      ensures EndsAt(c, lines, start, end)
      ensures printed == Output(c, Snapshots(c, lines, start, RetiresOf(lines, start, end)))
    {
      var i, curr := start, Unset;
      while i < |lines| && !Stops(c, lines[i])
        invariant Valid() && Gathered(c, lines, start, i, curr, View())
      {
        var x := Noted(c, curr, lines[i]);
        if IsRetire(lines[i]) {
          GatherRetired(c, lines, start, i, curr, View(), x);
          QueueInst(x);
        } else {
          GatherOther(c, lines, start, i, curr, View(), x);
        }
        curr := x;
        i := i + 1;
      }
      end := i;
      Flush(Snapshots(c, lines, start, RetiresOf(lines, start, end)));
    }

    /** Prints what is left in the queue. */
    method Flush(ghost arrivals: seq<Inst>)
      requires Valid() && View() == After(c, arrivals)
      modifies this
      ensures printed == Output(c, arrivals)
    {
      PrintInsts(0);
    }
  }

  /** What the main loop has done with the lines from `start` up to `i`. */
  ghost predicate Gathered(c: Config, lines: seq<Line>, start: nat, i: nat, curr: Inst, st: State) {
    && start <= i <= |lines| && (forall j :: start <= j < i ==> !IsBeyond(c, lines[j]))
    && curr == Current(c, lines, start, i) && st == After(c, Snapshots(c, lines, start, RetiresOf(lines, start, i)))
  }

  lemma GatherRetired(c: Config, lines: seq<Line>, start: nat, i: nat, curr: Inst, st: State, x: Inst)
    requires Gathered(c, lines, start, i, curr, st) && i < |lines| && !Stops(c, lines[i]) && IsRetire(lines[i])
    requires x == Noted(c, curr, lines[i])
    ensures Gathered(c, lines, start, i + 1, x, Queued(c, st, x))
  {
    var rs := RetiresOf(lines, start, i);
    SnapshotsNext(c, lines, start, i, rs);
    Arrives(c, Snapshots(c, lines, start, rs), x, Snapshots(c, lines, start, rs + [i]), st);
  }

  lemma GatherOther(c: Config, lines: seq<Line>, start: nat, i: nat, curr: Inst, st: State, x: Inst)
    requires Gathered(c, lines, start, i, curr, st) && i < |lines| && !Stops(c, lines[i]) && !IsRetire(lines[i])
    requires x == Noted(c, curr, lines[i])
    ensures Gathered(c, lines, start, i + 1, x, st)
  {
  }

  lemma Arrives(c: Config, before: seq<Inst>, x: Inst, after: seq<Inst>, st: State)
    requires after == before + [x] && st == After(c, before)
    ensures After(c, after) == Queued(c, st, x)
  {
    AfterAppend(c, before, x);
  }

  lemma SnapshotsNext(c: Config, lines: seq<Line>, start: nat, i: nat, rs: seq<nat>)
    requires start <= i < |lines| && forall k :: 0 <= k < |rs| ==> start <= rs[k] < i
    ensures Snapshots(c, lines, start, rs + [i]) == Snapshots(c, lines, start, rs) + [Current(c, lines, start, i + 1)]
  {
  }

  lemma AfterAppend(c: Config, s: seq<Inst>, x: Inst)
    ensures After(c, s + [x]) == Queued(c, After(c, s), x)
  {
    assert (s + [x])[..|s|] == s;
  }

  /** Skips to the first line in range, then to the next fetch. */
  method SkipToStart(c: Config, lines: seq<Line>) returns (start: nat)
    ensures StartsAt(c, lines, start)
  {
    start := 0;
    while start < |lines| && !OpensAt(c, lines[start])
      invariant start <= |lines| && forall j :: 0 <= j < start ==> !OpensAt(c, lines[j])
    {
      start := start + 1;
    }
    ghost var first := start;
    while start < |lines| && !IsFetch(lines[start])
      invariant first <= start <= |lines| && forall i :: first <= i < start ==> !IsFetch(lines[i])
    {
      start := start + 1;
    }
  }

  /** The line gives a tick for the stage: its own or, on a retire line and if asked for, that of the store. */
  ghost predicate Speaks(c: Config, l: Line, s: Stage) {
    l.Event? && (l.stage == s || (c.storeCompletions && l.stage == Retire && s == StoreDone))
  }

  /** The latest line in `[from, to)` that speaks of the stage. */
  ghost predicate IsLatest(c: Config, lines: seq<Line>, from: nat, to: nat, s: Stage, k: int) {
    && from <= k < to <= |lines| && Speaks(c, lines[k], s)
    && forall j :: k < j < to ==> !Speaks(c, lines[j], s)
  }

  /**
    What is queued at a retire line: for every stage the tick that its latest line gives, the store's tick on a retire
    line among them, and the number of the latest fetch; 0 for what no line speaks of.
   */
  lemma {:induction false} QueuedInstIsLatest(c: Config, lines: seq<Line>, from: nat, to: nat, s: Stage, k: int)
    requires from <= to <= |lines|
    ensures IsLatest(c, lines, from, to, s, k) ==>
              Tick(Current(c, lines, from, to), s) == if lines[k].stage == s then lines[k].tick else lines[k].storeTick
    ensures IsLatest(c, lines, from, to, Fetch, k) ==> Current(c, lines, from, to).sn == lines[k].sn
    ensures (forall j :: from <= j < to ==> !Speaks(c, lines[j], s)) ==> Tick(Current(c, lines, from, to), s) == 0
    ensures (forall j :: from <= j < to ==> !Speaks(c, lines[j], Fetch)) ==> Current(c, lines, from, to).sn == 0
  {
    if from < to {
      QueuedInstIsLatest(c, lines, from, to - 1, s, k);
    }
  }

}
