/** The timeline of one instruction: which line each stage falls on, and what each line shows. */
module Timeline {
  import opened Arithmetic
  import opened Options
  import opened Sequences
  import opened PipeView

  datatype Cell = Dot | Mark(stage: Stage)

  function Stages(storeCompletions: bool): seq<Stage> {
    [Fetch, Decode, Rename, Dispatch, Issue, Complete, Retire] + if storeCompletions then [StoreDone] else []
  }

  lemma StagesDiffer(storeCompletions: bool)
    ensures Distinct(Stages(storeCompletions)) && Stages(storeCompletions)[0] == Fetch
    ensures forall s :: s in Stages(storeCompletions) <==> s != StoreDone || storeCompletions
  {
    var stages := Stages(storeCompletions);
    assert stages[1] == Decode && stages[2] == Rename && stages[3] == Dispatch && stages[4] == Issue;
    assert stages[5] == Complete && stages[6] == Retire && (storeCompletions ==> stages[7] == StoreDone);
  }

  ghost predicate NonNegative(x: Inst) {
    forall s :: Tick(x, s) >= 0
  }

  /** The ticks are those of the stages shown; `last` is the largest of them. */
  ghost predicate IsLastTick(x: Inst, stages: seq<Stage>, last: int) {
    (exists s :: s in stages && Tick(x, s) == last) && forall s :: s in stages ==> Tick(x, s) <= last
  }

  method LastTick(x: Inst, stages: seq<Stage>) returns (last: int)
    requires stages != []
    ensures IsLastTick(x, stages, last)
  {
    last := Tick(x, stages[0]);
    for i := 1 to |stages|
      invariant exists s :: s in stages && Tick(x, s) == last
      invariant forall j :: 0 <= j < i ==> Tick(x, stages[j]) <= last
    {
      if Tick(x, stages[i]) > last {
        last := Tick(x, stages[i]);
      }
    }
  }

  function Base(fetch: nat, span: nat): nat
    requires span > 0
  {
    fetch / span * span
  }

  function NumLines(fetch: nat, last: nat, span: nat): nat
    requires span > 0 && fetch <= last
  {
    BaseBelow(fetch, span);
    if last - fetch < span then 1 else (last - Base(fetch, span)) / span + 1
  }

  lemma BaseBelow(fetch: nat, span: nat)
    requires span > 0
    ensures Base(fetch, span) <= fetch < Base(fetch, span) + span
  {
  }

  function WindowStart(fetch: nat, span: nat, i: nat): nat
    requires span > 0
  {
    Base(fetch, span) + i * span
  }

  /** The end of a line's window; the only line of the compact form reaches a full span past the fetch. */
  function WindowEnd(fetch: nat, last: nat, span: nat, i: nat): nat
    requires span > 0 && fetch <= last
  {
    BaseBelow(fetch, span);
    WindowStart(fetch, span, i) + span + if NumLines(fetch, last, span) == 1 then fetch - Base(fetch, span) else 0
  }

  predicate InWindow(fetch: nat, last: nat, span: nat, i: nat, tick: nat)
    requires span > 0 && fetch <= last
  {
    WindowStart(fetch, span, i) <= tick < WindowEnd(fetch, last, span, i)
  }

  predicate OnLine(fetch: nat, last: nat, span: nat, i: nat, tick: nat)
    requires span > 0 && fetch <= last
  {
    i < NumLines(fetch, last, span) && InWindow(fetch, last, span, i, tick)
  }

  /** Every tick between the fetch and the last event falls into the window of exactly one line. */
  lemma TickOnExactlyOneLine(fetch: nat, last: nat, span: nat, tick: nat)
    requires span > 0 && fetch <= tick <= last
    ensures exists i: nat :: OnLine(fetch, last, span, i, tick)
    ensures forall i: nat, j: nat :: OnLine(fetch, last, span, i, tick) && OnLine(fetch, last, span, j, tick) ==> i == j
  {
    if last - fetch < span {
      BaseBelow(fetch, span);
      CompactIsShort(fetch, last, span);
      assert OnLine(fetch, last, span, 0, tick);
    } else {
      var line := TickOnSomeLine(fetch, last, span, tick);
      forall i: nat | OnLine(fetch, last, span, i, tick)
        ensures i == line
      {
        OnlyOneLine(fetch, last, span, tick, i);
      }
    }
  }

  lemma TickOnSomeLine(fetch: nat, last: nat, span: nat, tick: nat) returns (line: nat)
    requires span > 0 && fetch <= tick <= last && last - fetch >= span
    ensures OnLine(fetch, last, span, line, tick)
    ensures Base(fetch, span) <= tick && line == (tick - Base(fetch, span)) / span
  {
    BaseBelow(fetch, span);
    CompactIsShort(fetch, last, span);
    var base := Base(fetch, span);
    line := (tick - base) / span;
    DivBounds(tick - base, span);
    DivMono(tick - base, last - base, span);
  }

  lemma OnlyOneLine(fetch: nat, last: nat, span: nat, tick: nat, i: nat)
    requires span > 0 && fetch <= tick <= last && last - fetch >= span && OnLine(fetch, last, span, i, tick)
    ensures Base(fetch, span) <= tick && i == (tick - Base(fetch, span)) / span
  {
    BaseBelow(fetch, span);
    CompactIsShort(fetch, last, span);
    var base := Base(fetch, span);
    DivUnique(tick - base, span, i, tick - base - i * span);
  }

  /** The column of a tick: its cycle within the span. */
  function Column(tick: nat, width: nat, cycle: nat): nat
    requires width > 0 && cycle > 0
  {
    SpanPositive(width, cycle);
    tick % (width * cycle) / cycle
  }

  lemma SpanPositive(width: nat, cycle: nat)
    requires width > 0 && cycle > 0
    ensures width * cycle > 0
  {
  }

  lemma Regroup(q: nat, width: nat, col: nat, cycle: nat)
    ensures (q * width + col) * cycle == q * (width * cycle) + col * cycle
  {
  }

  lemma ColumnInRange(r: nat, width: nat, cycle: nat)
    requires cycle > 0 && r < width * cycle
    ensures r / cycle < width
  {
    DivBounds(r, cycle);
    if r / cycle > width {
      MulMono(width, r / cycle, cycle);
    }
  }

  /** The column is the tick's cycle number modulo the width. */
  lemma ColumnIsCycleModWidth(tick: nat, width: nat, cycle: nat)
    requires width > 0 && cycle > 0
    ensures Column(tick, width, cycle) == tick / cycle % width < width
  {
    SpanPositive(width, cycle);
    var q, r := tick / (width * cycle), tick % (width * cycle);
    var col, rest := r / cycle, r % cycle;
    ColumnInRange(r, width, cycle);
    Regroup(q, width, col, cycle);
    DivUnique(tick, cycle, q * width + col, rest);
    DivUnique(q * width + col, width, q, col);
  }

  /** A stage to be drawn: its tick within the span, and which stage it is. */
  datatype Event = Event(offset: nat, stage: Stage)

  /** The alphabetical order of the stage names, which breaks ties in the sort. */
  function Rank(s: Stage): nat {
    match s
    case Complete => 0 case Decode => 1 case Dispatch => 2 case Fetch => 3
    case Issue => 4 case Rename => 5 case Retire => 6 case StoreDone => 7
  }

  /** The first three letters of a stage's name, which tell all of them apart. */
  function Letters(s: Stage): (char, char, char) {
    match s
    case Fetch => ('f', 'e', 't') case Decode => ('d', 'e', 'c') case Rename => ('r', 'e', 'n')
    case Dispatch => ('d', 'i', 's') case Issue => ('i', 's', 's') case Complete => ('c', 'o', 'm')
    case Retire => ('r', 'e', 't') case StoreDone => ('s', 't', 'o')
  }

  lemma RankIsAlphabetical(s: Stage, t: Stage)
    ensures var a, b := Letters(s), Letters(t);
            Rank(s) < Rank(t) <==> a.0 < b.0 || (a.0 == b.0 && (a.1 < b.1 || (a.1 == b.1 && a.2 < b.2)))
  {
  }

  predicate Before(a: Event, b: Event) {
    a.offset < b.offset || (a.offset == b.offset && Rank(a.stage) < Rank(b.stage))
  }

  ghost predicate InOrder(es: seq<Event>) {
    forall i, j :: 0 <= i < j < |es| ==> Before(es[i], es[j])
  }

  function Insert(es: seq<Event>, e: Event): (r: seq<Event>)
    requires InOrder(es) && forall x :: x in es ==> x.stage != e.stage
    ensures InOrder(r) && forall x :: x in r <==> x in es || x == e
  {
    if es == [] || Before(es[|es| - 1], e) then
      es + [e]
    else
      var n := |es| - 1;
      assert forall x :: x in es <==> x in es[..n] || x == es[n];
      assert es[n] in es && Before(e, es[n]);
      var r := Insert(es[..n], e);
      assert forall i :: 0 <= i < |r| ==> r[i] in r;
      r + [es[n]]
  }

  ghost predicate Shown(x: Inst, s: Stage, start: nat, end: nat) {
    Tick(x, s) != 0 && start <= Tick(x, s) < end
  }

  ghost predicate IsEvent(x: Inst, stages: seq<Stage>, start: nat, end: nat, span: nat, e: Event)
    requires span > 0
  {
    e.stage in stages && Shown(x, e.stage, start, end) && e.offset == Tick(x, e.stage) % span
  }

  /** The nonzero stages of an instruction in a window, sorted by their place in the span. */
  method Events(x: Inst, stages: seq<Stage>, start: nat, end: nat, span: nat) returns (es: seq<Event>)
    requires span > 0 && NonNegative(x) && Distinct(stages)
    ensures InOrder(es)
    ensures forall e :: e in es <==> IsEvent(x, stages, start, end, span, e)
  {
    es := [];
    for k := 0 to |stages|
      invariant InOrder(es)
      invariant forall e :: e in es <==> IsEvent(x, stages[..k], start, end, span, e)
    {
      var tick := Tick(x, stages[k]);
      assert stages[..k + 1] == stages[..k] + [stages[k]];
      if tick != 0 && start <= tick < end {
        es := Insert(es, Event(tick % span, stages[k]));
      }
    }
    assert stages[..|stages|] == stages;
  }

  function Dots(n: int): seq<Cell> {
    if n <= 0 then [] else seq(n, _ => Dot)
  }

  /** An event placed in its column. */
  datatype Placed = Placed(col: nat, stage: Stage)

  function Place(es: seq<Event>, cycle: nat): (ps: seq<Placed>)
    requires cycle > 0
  {
    seq(|es|, i requires 0 <= i < |es| => Placed(es[i].offset / cycle, es[i].stage))
  }

  /** A line from column `pos` on: dots up to each event's column, then its mark, then dots up to the width. */
  function Drawn(ps: seq<Placed>, pos: nat, width: nat): seq<Cell> {
    if ps == [] then Dots(width - pos)
    else Dots(ps[0].col - pos) + [Mark(ps[0].stage)] + Drawn(ps[1..], ps[0].col + 1, width)
  }

  /** No two events share a column. */
  ghost predicate Spread(ps: seq<Placed>) {
    forall i, j :: 0 <= i < j < |ps| ==> ps[i].col < ps[j].col
  }

  ghost predicate Rising(ps: seq<Placed>) {
    forall i, j :: 0 <= i < j < |ps| ==> ps[i].col <= ps[j].col
  }

  ghost predicate Between(ps: seq<Placed>, from: int, to: int) {
    forall i :: 0 <= i < |ps| ==> from <= ps[i].col < to
  }

  /** What a well-spread line shows: exactly the width, each event's mark in its column. */
  lemma {:induction false} SpreadLineIsExact(ps: seq<Placed>, pos: nat, width: nat, i: nat)
    requires Spread(ps) && pos <= width && Between(ps, pos, width)
    ensures |Drawn(ps, pos, width)| == width - pos
    ensures i < |ps| ==> Drawn(ps, pos, width)[ps[i].col - pos] == Mark(ps[i].stage)
    decreases |ps|
  {
    if ps != [] {
      var line := Drawn(ps[1..], ps[0].col + 1, width);
      SpreadLineIsExact(ps[1..], ps[0].col + 1, width, if i > 0 then i - 1 else 0);
      var head := Dots(ps[0].col - pos) + [Mark(ps[0].stage)];
      assert Drawn(ps, pos, width) == head + line && |head| == ps[0].col + 1 - pos;
    }
  }

  /** ... and dots everywhere else. */
  lemma {:induction false} SpreadLineHasDots(ps: seq<Placed>, pos: nat, width: nat, k: nat)
    requires Spread(ps) && Between(ps, pos, width) && pos + k < width
    requires forall i :: 0 <= i < |ps| ==> ps[i].col != pos + k
    ensures |Drawn(ps, pos, width)| == width - pos && Drawn(ps, pos, width)[k] == Dot
    decreases |ps|
  {
    SpreadLineIsExact(ps, pos, width, 0);
    if ps != [] && pos + k > ps[0].col {
      var line := Drawn(ps[1..], ps[0].col + 1, width);
      var head := Dots(ps[0].col - pos) + [Mark(ps[0].stage)];
      SpreadLineHasDots(ps[1..], ps[0].col + 1, width, pos + k - ps[0].col - 1);
      assert Drawn(ps, pos, width) == head + line && |head| == ps[0].col + 1 - pos;
    }
  }

  lemma HeadOfSpread(ps: seq<Placed>, pos: nat, width: nat)
    requires ps != [] && Rising(ps) && Between(ps, pos - 1, width)
    ensures Rising(ps[1..]) && Between(ps[1..], ps[0].col, width)
    ensures Spread(ps) && Between(ps, pos, width) <==>
            pos <= ps[0].col && Spread(ps[1..]) && Between(ps[1..], ps[0].col + 1, width)
  {
    assert forall i :: 1 <= i < |ps| ==> ps[i] == ps[1..][i - 1];
  }

  /** A line of sorted events is never shorter than the width, and exactly as long only if no two share a column. */
  lemma {:induction false} LineLength(ps: seq<Placed>, pos: nat, width: nat)
    requires Rising(ps) && pos <= width && Between(ps, pos - 1, width)
    ensures |Drawn(ps, pos, width)| >= width - pos
    ensures |Drawn(ps, pos, width)| == width - pos <==> Spread(ps) && Between(ps, pos, width)
    decreases |ps|
  {
    if ps != [] {
      HeadOfSpread(ps, pos, width);
      LineLength(ps[1..], ps[0].col + 1, width);
    }
  }

  lemma PlacedRise(es: seq<Event>, cycle: nat)
    requires cycle > 0 && InOrder(es)
    ensures Rising(Place(es, cycle))
  {
    forall i, j | 0 <= i < j < |es|
      ensures es[i].offset / cycle <= es[j].offset / cycle
    {
      DivMono(es[i].offset, es[j].offset, cycle);
    }
  }

  /** Dispatch is left out when it coincides with issue. */
  predicate Skips(x: Inst, s: Stage) {
    s == Dispatch && Tick(x, Dispatch) == Tick(x, Issue)
  }

  /** A line of the timeline: the marks of exactly the stages in its window, drawn in order. */
  ghost predicate IsLine(text: seq<Cell>, es: seq<Event>, x: Inst, stages: seq<Stage>, start: nat, end: nat,
                         width: nat, cycle: nat)
    requires width > 0 && cycle > 0
  {
    SpanPositive(width, cycle);
    && InOrder(es)
    && (forall e :: e in es <==> IsEvent(x, stages, start, end, width * cycle, e) && !Skips(x, e.stage))
    && text == Drawn(Place(es, cycle), 0, width)
  }

  /** The part of the sorted events that is drawn. */
  method Visible(x: Inst, es: seq<Event>) returns (vs: seq<Event>)
    requires InOrder(es)
    ensures InOrder(vs) && forall e :: e in vs <==> e in es && !Skips(x, e.stage)
  {
    vs := [];
    for i := 0 to |es|
      invariant InOrder(vs) && forall e :: e in vs <==> e in es[..i] && !Skips(x, e.stage)
      invariant forall k :: 0 <= k < |vs| ==> vs[k] in es[..i]
    {
      assert es[..i + 1] == es[..i] + [es[i]];
      if !Skips(x, es[i].stage) {
        vs := vs + [es[i]];
      }
    }
    assert es[..|es|] == es;
  }

  /** The dots up to an event's column, then its mark. */
  function Piece(p: Placed, pos: nat): seq<Cell> {
    Dots(p.col - pos) + [Mark(p.stage)]
  }

  lemma DrawStep(ps: seq<Placed>, i: nat, text: seq<Cell>, pos: nat, width: nat)
    requires i < |ps|
    ensures text + Drawn(ps[i..], pos, width) == text + Piece(ps[i], pos) + Drawn(ps[i + 1..], ps[i].col + 1, width)
  {
    assert ps[i..][0] == ps[i] && ps[i..][1..] == ps[i + 1..];
    var rest := Drawn(ps[i + 1..], ps[i].col + 1, width);
    assert Drawn(ps[i..], pos, width) == Piece(ps[i], pos) + rest;
    assert text + (Piece(ps[i], pos) + rest) == text + Piece(ps[i], pos) + rest;
  }

  /** The layout loop of one line: `pos` is the column behind the last mark. */
  method DrawLine(es: seq<Event>, width: nat, cycle: nat) returns (text: seq<Cell>)
    requires cycle > 0
    ensures text == Drawn(Place(es, cycle), 0, width)
  {
    text := [];
    var pos: nat := 0;
    var ps := Place(es, cycle);
    for i := 0 to |ps|
      invariant Drawn(ps, 0, width) == text + Drawn(ps[i..], pos, width)
    {
      DrawStep(ps, i, text, pos, width);
      text, pos := text + Piece(ps[i], pos), ps[i].col + 1;
    }
    assert ps[|ps|..] == [];
    text := text + Dots(width - pos);
  }

  ghost predicate IsLineAt(text: seq<Cell>, es: seq<Event>, x: Inst, stages: seq<Stage>, fetch: nat, last: nat,
                           width: nat, cycle: nat, i: nat)
    requires width > 0 && cycle > 0 && fetch <= last
  {
    SpanPositive(width, cycle);
    IsLine(text, es, x, stages, WindowStart(fetch, width * cycle, i), WindowEnd(fetch, last, width * cycle, i), width,
           cycle)
  }

  ghost predicate AreLines(lines: seq<seq<Cell>>, shown: seq<seq<Event>>, x: Inst, stages: seq<Stage>, fetch: nat,
                           last: nat, width: nat, cycle: nat)
    requires width > 0 && cycle > 0 && fetch <= last
  {
    SpanPositive(width, cycle);
    && |lines| == |shown| == NumLines(fetch, last, width * cycle)
    && LinesSoFar(lines, shown, x, stages, fetch, last, width, cycle)
  }

  ghost predicate LinesSoFar(lines: seq<seq<Cell>>, shown: seq<seq<Event>>, x: Inst, stages: seq<Stage>, fetch: nat,
                             last: nat, width: nat, cycle: nat)
    requires width > 0 && cycle > 0 && fetch <= last && |lines| == |shown|
  {
    forall i :: 0 <= i < |lines| ==> IsLineAt(lines[i], shown[i], x, stages, fetch, last, width, cycle, i)
  }

  /** The instruction has a tick other than zero at some stage. */
  ghost predicate Reached(x: Inst, stages: seq<Stage>) {
    exists s :: s in stages && Tick(x, s) != 0
  }

  /** An empty compact line means that no stage was ever reached. */
  lemma CompactShowsAll(x: Inst, stages: seq<Stage>, fetch: nat, last: nat, span: nat, es: seq<Event>)
    requires span > 0 && NonNegative(x) && Fetch in stages && Tick(x, Fetch) == fetch && IsLastTick(x, stages, last)
    requires NumLines(fetch, last, span) == 1
    requires forall e ::
               e in es <==> IsEvent(x, stages, WindowStart(fetch, span, 0), WindowEnd(fetch, last, span, 0), span, e)
    ensures es == [] ==> forall s :: s in stages ==> Tick(x, s) == 0
  {
    BaseBelow(fetch, span);
    CompactIsShort(fetch, last, span);
    if es == [] {
      assert !IsEvent(x, stages, WindowStart(fetch, span, 0), WindowEnd(fetch, last, span, 0), span,
                      Event(fetch % span, Fetch));
      assert fetch == 0;
      forall s | s in stages
        ensures Tick(x, s) == 0
      {
        assert !IsEvent(x, stages, WindowStart(fetch, span, 0), WindowEnd(fetch, last, span, 0), span,
                        Event(Tick(x, s) % span, s));
      }
    }
  }

  lemma CompactIsShort(fetch: nat, last: nat, span: nat)
    requires span > 0 && fetch <= last
    ensures NumLines(fetch, last, span) == 1 <==> last - fetch < span
  {
    BaseBelow(fetch, span);
    DivBounds(last - Base(fetch, span), span);
  }

  /**
    Line `i` of an instruction; `ok` is false when the source would look for the first event of an empty compact line.
   */
  method LineAt(x: Inst, stages: seq<Stage>, fetch: nat, last: nat, width: nat, cycle: nat, i: nat)
    returns (ok: bool, text: seq<Cell>, ghost vs: seq<Event>)
    requires width > 0 && cycle > 0 && NonNegative(x) && Fetch in stages
    requires Tick(x, Fetch) == fetch && IsLastTick(x, stages, last)
    requires Distinct(stages)
    requires i < NumLines(fetch, last, width * cycle)
    ensures IsLineAt(text, vs, x, stages, fetch, last, width, cycle, i)
    ensures ok <==> Reached(x, stages)
  {
    SpanPositive(width, cycle);
    var span := width * cycle;
    var es := Events(x, stages, WindowStart(fetch, span, i), WindowEnd(fetch, last, span, i), span);
    var shown := Visible(x, es);
    text := DrawLine(shown, width, cycle);
    vs := shown;
    CompactIsShort(fetch, last, span);
    ok := !(NumLines(fetch, last, span) == 1 && es == []);
    if NumLines(fetch, last, span) == 1 {
      CompactShowsAll(x, stages, fetch, last, span, es);
      if es != [] {
        assert es[0] in es;
        assert IsEvent(x, stages, WindowStart(fetch, span, i), WindowEnd(fetch, last, span, i), span, es[0]);
      }
    }
  }

  /** All lines of an instruction; fails, like the source, when the compact form has no event at all. */
  method PrintInst(x: Inst, width: nat, cycle: nat, storeCompletions: bool)
    returns (r: Option<seq<seq<Cell>>>, ghost last: nat, ghost shown: seq<seq<Event>>)
    requires width > 0 && cycle > 0 && NonNegative(x)
    ensures IsLastTick(x, Stages(storeCompletions), last) && Tick(x, Fetch) <= last
    ensures r.None? <==> !Reached(x, Stages(storeCompletions))
    ensures r.Some? ==> AreLines(r.value, shown, x, Stages(storeCompletions), Tick(x, Fetch), last, width, cycle)
  {
    var stages := Stages(storeCompletions);
    StagesDiffer(storeCompletions);
    SpanPositive(width, cycle);
    var fetch := Tick(x, Fetch);
    var end := LastTick(x, stages);
    last := end;
    CompactIsShort(fetch, end, width * cycle);
    var lines: seq<seq<Cell>> := [];
    shown := [];
    for i := 0 to NumLines(fetch, end, width * cycle)
      invariant |lines| == |shown| == i && LinesSoFar(lines, shown, x, stages, fetch, last, width, cycle)
      invariant i > 0 ==> Reached(x, stages)
    {
      var ok, text, vs := LineAt(x, stages, fetch, end, width, cycle, i);
      if !ok {
        r := None;
        return;
      }
      lines, shown := lines + [text], shown + [vs];
    }
    r := Some(lines);
  }

  lemma CyclesApart(first: nat, width: nat, cycle: nat, a: nat, b: nat)
    requires width > 0 && cycle > 0
    requires InCycles(first, width, cycle, a) && InCycles(first, width, cycle, b)
    requires Column(a, width, cycle) == Column(b, width, cycle)
    ensures a / cycle == b / cycle
  {
    ColumnIsCycleModWidth(a, width, cycle);
    ColumnIsCycleModWidth(b, width, cycle);
    SameCycleBlock(first, first * cycle, width, cycle, a);
    SameCycleBlock(first, first * cycle, width, cycle, b);
    ModUnique(first, width, a / cycle, b / cycle);
  }

  /** The one cycle of a compact line that shares its column with the cycle of the fetch. */
  function WrapCycle(fetch: nat, width: nat, cycle: nat): nat
    requires cycle > 0
  {
    fetch / cycle + width
  }

  /** A tick less than a span behind the fetch lies in one of the `width` cycles from the fetch on, or in the next. */
  lemma CompactCycles(fetch: nat, width: nat, cycle: nat, t: nat)
    requires width > 0 && cycle > 0 && fetch <= t < fetch + width * cycle
    ensures fetch / cycle <= t / cycle <= WrapCycle(fetch, width, cycle)
    ensures fetch % cycle == 0 ==> t / cycle != WrapCycle(fetch, width, cycle)
  {
    QuotientAndRest(fetch, cycle);
    NextProduct(width, cycle);
    SameCycleBlock(fetch / cycle, fetch / cycle * cycle, width + 1, cycle, t);
    if fetch % cycle == 0 {
      SameCycleBlock(fetch / cycle, fetch, width, cycle, t);
    }
  }

  lemma ShortWindow(fetch: nat, width: nat, cycle: nat, t: nat)
    requires width > 0 && cycle > 0 && fetch <= t < fetch + width * cycle && t / cycle != WrapCycle(fetch, width, cycle)
    ensures fetch / cycle * cycle <= t < fetch / cycle * cycle + width * cycle
  {
    CompactCycles(fetch, width, cycle, t);
    BlockHolds(fetch / cycle, width, cycle, t);
    DivBounds(fetch, cycle);
  }

  lemma BlockHolds(first: nat, width: nat, cycle: nat, t: nat)
    requires cycle > 0 && t / cycle < first + width
    ensures t < first * cycle + width * cycle
  {
    DivBounds(t, cycle);
    MulMono(t / cycle, first + width, cycle);
    Regroup(1, first, width, cycle);
  }

  /** The first of the `width` cycles that a line shows. */
  function FirstCycle(fetch: nat, last: nat, width: nat, cycle: nat, i: nat): nat
    requires width > 0 && cycle > 0 && fetch <= last
  {
    SpanPositive(width, cycle);
    if last - fetch < width * cycle then fetch / cycle else Product(Line(fetch, width * cycle) + i, width)
  }

  function Product(x: nat, y: nat): nat {
    x * y
  }

  /** The number of spans before the one of the fetch. */
  function Line(fetch: nat, span: nat): nat
    requires span > 0
  {
    fetch / span
  }

  ghost predicate InCycles(first: nat, width: nat, cycle: nat, t: nat) {
    first * cycle <= t < first * cycle + width * cycle
  }

  lemma OnLineInCycles(fetch: nat, last: nat, width: nat, cycle: nat, i: nat, t: nat)
    requires width > 0 && cycle > 0 && fetch <= t <= last && OnLineOf(fetch, last, width, cycle, i, t)
    requires last - fetch < width * cycle ==> t / cycle != WrapCycle(fetch, width, cycle)
    ensures InCycles(FirstCycle(fetch, last, width, cycle, i), width, cycle, t)
  {
    if last - fetch < width * cycle {
      ShortWindow(fetch, width, cycle, t);
    } else {
      LongWindow(fetch, last, width, cycle, i, t);
    }
  }

  /**
    Two ticks on the same line share a column only if they share a cycle, unless one lies in a compact line's last
    cycle.
   */
  lemma ColumnsTellCyclesApart(fetch: nat, last: nat, width: nat, cycle: nat, i: nat, a: nat, b: nat)
    requires width > 0 && cycle > 0 && fetch <= a <= last && fetch <= b <= last
    requires OnLineOf(fetch, last, width, cycle, i, a) && OnLineOf(fetch, last, width, cycle, i, b)
    requires last - fetch < width * cycle ==>
               a / cycle != WrapCycle(fetch, width, cycle) && b / cycle != WrapCycle(fetch, width, cycle)
    requires Column(a, width, cycle) == Column(b, width, cycle)
    ensures a / cycle == b / cycle
  {
    OnLineInCycles(fetch, last, width, cycle, i, a);
    OnLineInCycles(fetch, last, width, cycle, i, b);
    CyclesApart(FirstCycle(fetch, last, width, cycle, i), width, cycle, a, b);
  }

  lemma LongWindow(fetch: nat, last: nat, width: nat, cycle: nat, i: nat, t: nat)
    requires width > 0 && cycle > 0 && fetch <= last && OnLineOf(fetch, last, width, cycle, i, t)
    requires last - fetch >= width * cycle
    ensures var first := (fetch / (width * cycle) + i) * width; first * cycle <= t < first * cycle + width * cycle
  {
    SpanPositive(width, cycle);
    CompactIsShort(fetch, last, width * cycle);
    Regroup(fetch / (width * cycle) + i, width, 0, cycle);
  }

  predicate OnLineOf(fetch: nat, last: nat, width: nat, cycle: nat, i: nat, tick: nat)
    requires width > 0 && cycle > 0 && fetch <= last
  {
    SpanPositive(width, cycle);
    OnLine(fetch, last, width * cycle, i, tick)
  }

  /** A tick less than a span behind the start of cycle `first` lies in one of the `width` cycles from there on. */
  lemma SameCycleBlock(first: nat, start: nat, width: nat, cycle: nat, t: nat)
    requires cycle > 0 && start == first * cycle && start <= t < start + width * cycle
    ensures first <= t / cycle < first + width
  {
    DivBounds(t, cycle);
    if t / cycle < first {
      MulMono(t / cycle, first, cycle);
    }
    Regroup(1, first, width, cycle);
    if t / cycle > first + width {
      MulMono(first + width, t / cycle, cycle);
    }
  }

  lemma ModUnique(lo: nat, width: nat, p: nat, q: nat)
    requires width > 0 && lo <= p < lo + width && lo <= q < lo + width && p % width == q % width
    ensures p == q
  {
    QuotientAndRest(p, width);
    QuotientAndRest(q, width);
    if p / width < q / width {
      MulMono(p / width, q / width, width);
    } else if q / width < p / width {
      MulMono(q / width, p / width, width);
    }
  }

  /** The usual shape of an instruction: fetched at a nonzero tick, before all its other events. */
  ghost predicate WellTimed(x: Inst, stages: seq<Stage>) {
    && NonNegative(x) && Fetch in stages && Tick(x, Fetch) > 0
    && forall s :: s in stages && Tick(x, s) != 0 ==> Tick(x, s) >= Tick(x, Fetch)
  }

  ghost predicate IsDrawn(x: Inst, stages: seq<Stage>, s: Stage) {
    s in stages && Tick(x, s) != 0 && !(s == Dispatch && Tick(x, Dispatch) == Tick(x, Issue))
  }

  /** The drawn stages happen in different cycles. */
  ghost predicate CyclesDiffer(x: Inst, stages: seq<Stage>, cycle: nat)
    requires cycle > 0
  {
    forall s, t :: IsDrawn(x, stages, s) && IsDrawn(x, stages, t) && s != t ==> Tick(x, s) / cycle != Tick(x, t) / cycle
  }

  /** No drawn stage lies in the cycle that shares its column with the fetch. */
  ghost predicate StaysInLine(x: Inst, stages: seq<Stage>, width: nat, cycle: nat)
    requires cycle > 0 && Tick(x, Fetch) >= 0
  {
    forall s ::
      IsDrawn(x, stages, s) && Tick(x, s) >= 0 ==> Tick(x, s) / cycle != WrapCycle(Tick(x, Fetch), width, cycle)
  }

  lemma LineIsSpread(es: seq<Event>, text: seq<Cell>, x: Inst, stages: seq<Stage>, fetch: nat, last: nat, width: nat,
                     cycle: nat, i: nat)
    requires width > 0 && cycle > 0 && WellTimed(x, stages) && fetch == Tick(x, Fetch) && IsLastTick(x, stages, last)
    requires i < NumLines(fetch, last, width * cycle) && IsLineAt(text, es, x, stages, fetch, last, width, cycle, i)
    requires last - fetch < width * cycle ==> StaysInLine(x, stages, width, cycle)
    requires CyclesDiffer(x, stages, cycle)
    ensures Spread(Place(es, cycle)) && Between(Place(es, cycle), 0, width)
  {
    SpanPositive(width, cycle);
    PlacedRise(es, cycle);
    forall p | 0 <= p < |es|
      ensures es[p].offset / cycle == Column(Tick(x, es[p].stage), width, cycle) < width
      ensures IsDrawn(x, stages, es[p].stage) && OnLineOf(fetch, last, width, cycle, i, Tick(x, es[p].stage))
    {
      assert es[p] in es;
      ColumnIsCycleModWidth(Tick(x, es[p].stage), width, cycle);
    }
    forall p, q | 0 <= p < q < |es|
      ensures es[p].offset / cycle < es[q].offset / cycle
    {
      assert Place(es, cycle)[p].col <= Place(es, cycle)[q].col;
      assert es[p].stage != es[q].stage;
      var a, b := Tick(x, es[p].stage), Tick(x, es[q].stage);
      if Column(a, width, cycle) == Column(b, width, cycle) {
        ColumnsTellCyclesApart(fetch, last, width, cycle, i, a, b);
      }
    }
  }

  /** A well-spread line shows a mark in a column exactly when an event of that stage is placed there. */
  lemma SpreadLineShows(ps: seq<Placed>, width: nat, k: nat, s: Stage)
    requires Spread(ps) && Between(ps, 0, width) && k < width
    ensures |Drawn(ps, 0, width)| == width
    ensures Drawn(ps, 0, width)[k] == Mark(s) <==> Placed(k, s) in ps
  {
    SpreadLineIsExact(ps, 0, width, 0);
    if i :| 0 <= i < |ps| && ps[i].col == k {
      SpreadLineIsExact(ps, 0, width, i);
      OneMarkPerColumn(ps, i, s);
    } else {
      SpreadLineHasDots(ps, 0, width, k);
    }
  }

  lemma OneMarkPerColumn(ps: seq<Placed>, i: nat, s: Stage)
    requires Spread(ps) && i < |ps|
    ensures ps[i].stage == s <==> Placed(ps[i].col, s) in ps
  {
    if Placed(ps[i].col, s) in ps {
      var j :| 0 <= j < |ps| && ps[j] == Placed(ps[i].col, s);
      assert j == i;
    }
  }

  /**
    The timeline is exact: every line has `width` cells, and the mark of a drawn stage stands on the one line whose
    window holds its tick, in the column of its cycle, and nowhere else.
   */
  lemma TimelineIsExact(lines: seq<seq<Cell>>, shown: seq<seq<Event>>, x: Inst, stages: seq<Stage>, last: nat,
                        width: nat, cycle: nat, i: nat, k: nat, s: Stage)
    requires width > 0 && cycle > 0 && WellTimed(x, stages) && IsLastTick(x, stages, last)
    requires AreLines(lines, shown, x, stages, Tick(x, Fetch), last, width, cycle)
    requires last - Tick(x, Fetch) < width * cycle ==> StaysInLine(x, stages, width, cycle)
    requires CyclesDiffer(x, stages, cycle) && i < |lines| && k < width
    ensures |lines[i]| == width
    ensures lines[i][k] == Mark(s) <==>
            && IsDrawn(x, stages, s) && OnLineOf(Tick(x, Fetch), last, width, cycle, i, Tick(x, s))
            && k == Column(Tick(x, s), width, cycle)
  {
    SpanPositive(width, cycle);
    var es, fetch := shown[i], Tick(x, Fetch);
    assert IsLineAt(lines[i], es, x, stages, fetch, last, width, cycle, i);
    LineIsSpread(es, lines[i], x, stages, fetch, last, width, cycle, i);
    var ps := Place(es, cycle);
    SpreadLineShows(ps, width, k, s);
    var e := Event(Tick(x, s) % (width * cycle), s);
    if Placed(k, s) in ps {
      var p :| 0 <= p < |ps| && ps[p] == Placed(k, s);
      assert es[p] in es && es[p] == e;
    } else if e in es {
      var p :| 0 <= p < |es| && es[p] == e;
      assert ps[p] in ps;
    }
  }

  /** A compact line that starts on a cycle never wraps. */
  lemma AlignedStaysInLine(x: Inst, stages: seq<Stage>, last: nat, width: nat, cycle: nat)
    requires width > 0 && cycle > 0 && WellTimed(x, stages) && IsLastTick(x, stages, last)
    requires last - Tick(x, Fetch) < width * cycle && Tick(x, Fetch) % cycle == 0
    ensures StaysInLine(x, stages, width, cycle)
  {
    forall s | IsDrawn(x, stages, s) ensures Tick(x, s) / cycle != WrapCycle(Tick(x, Fetch), width, cycle) {
      CompactCycles(Tick(x, Fetch), width, cycle, Tick(x, s));
    }
  }

  /** Every drawn stage of a compact line has its event there. */
  lemma CompactHolds(text: seq<Cell>, es: seq<Event>, x: Inst, stages: seq<Stage>, last: nat, width: nat, cycle: nat,
                     s: Stage)
    returns (p: nat)
    requires width > 0 && cycle > 0 && WellTimed(x, stages) && IsLastTick(x, stages, last)
    requires last - Tick(x, Fetch) < width * cycle
    requires IsLineAt(text, es, x, stages, Tick(x, Fetch), last, width, cycle, 0)
    requires IsDrawn(x, stages, s)
    ensures p < |es| && es[p].stage == s && es[p].offset / cycle == Column(Tick(x, s), width, cycle)
  {
    SpanPositive(width, cycle);
    var fetch, span := Tick(x, Fetch), width * cycle;
    BaseBelow(fetch, span);
    CompactIsShort(fetch, last, span);
    var e := Event(Tick(x, s) % span, s);
    assert IsEvent(x, stages, WindowStart(fetch, span, 0), WindowEnd(fetch, last, span, 0), span, e);
    p :| 0 <= p < |es| && es[p] == e;
  }

  /** A stage in the cycle that wraps takes the column of the fetch. */
  lemma WrapCollides(fetch: nat, width: nat, cycle: nat, t: nat)
    requires width > 0 && cycle > 0 && t / cycle == WrapCycle(fetch, width, cycle)
    ensures Column(t, width, cycle) == Column(fetch, width, cycle)
  {
    SameRest(fetch / cycle, width);
    ColumnIsCycleModWidth(t, width, cycle);
    ColumnIsCycleModWidth(fetch, width, cycle);
  }

  lemma SameRest(c: nat, width: nat)
    requires width > 0
    ensures (c + width) % width == c % width
  {
    QuotientAndRest(c, width);
    NextProduct(c / width, width);
    DivUnique(c + width, width, c / width + 1, c % width);
  }

  /**
    A compact line of stages in different cycles has `width` cells exactly when no drawn stage lies in the cycle that
    wraps into the column of the fetch; otherwise it is longer.
   */
  lemma CompactLineIsExactIff(text: seq<Cell>, es: seq<Event>, x: Inst, stages: seq<Stage>, last: nat, width: nat,
                              cycle: nat)
    requires width > 0 && cycle > 0 && WellTimed(x, stages)
    requires IsLastTick(x, stages, last) && CyclesDiffer(x, stages, cycle)
    requires last - Tick(x, Fetch) < width * cycle
    requires IsLineAt(text, es, x, stages, Tick(x, Fetch), last, width, cycle, 0)
    ensures |text| >= width && (|text| == width <==> StaysInLine(x, stages, width, cycle))
  {
    SpanPositive(width, cycle);
    CompactIsShort(Tick(x, Fetch), last, width * cycle);
    var ps := Place(es, cycle);
    PlacedRise(es, cycle);
    LineColumns(text, es, x, stages, last, width, cycle);
    LineLength(ps, 0, width);
    if StaysInLine(x, stages, width, cycle) {
      LineIsSpread(es, text, x, stages, Tick(x, Fetch), last, width, cycle, 0);
    } else {
      var s :| IsDrawn(x, stages, s) && Tick(x, s) / cycle == WrapCycle(Tick(x, Fetch), width, cycle);
      WrapCollides(Tick(x, Fetch), width, cycle, Tick(x, s));
      var p := CompactHolds(text, es, x, stages, last, width, cycle, s);
      var q := CompactHolds(text, es, x, stages, last, width, cycle, Fetch);
      assert ps[p].col == ps[q].col && p != q;
    }
  }

  lemma LineColumns(text: seq<Cell>, es: seq<Event>, x: Inst, stages: seq<Stage>, last: nat, width: nat, cycle: nat)
    requires width > 0 && cycle > 0 && NonNegative(x) && Tick(x, Fetch) <= last
    requires IsLineAt(text, es, x, stages, Tick(x, Fetch), last, width, cycle, 0)
    ensures Between(Place(es, cycle), 0, width)
  {
    SpanPositive(width, cycle);
    forall p | 0 <= p < |es| ensures es[p].offset / cycle < width {
      assert es[p] in es;
      ColumnInRange(es[p].offset, width, cycle);
    }
  }

  /** An instruction fetched one tick into a cycle and retired just within a span. */
  function Unaligned(width: nat, cycle: nat): Inst {
    Inst(0, map[Fetch := 1, Retire := width * cycle])
  }

  lemma UnalignedShape(width: nat, cycle: nat)
    requires width > 0 && cycle > 1
    ensures var x := Unaligned(width, cycle);
            && WellTimed(x, Stages(false)) && IsLastTick(x, Stages(false), width * cycle)
            && CyclesDiffer(x, Stages(false), cycle)
            && width * cycle - Tick(x, Fetch) < width * cycle && !StaysInLine(x, Stages(false), width, cycle)
  {
    var x := Unaligned(width, cycle);
    assert width * cycle >= cycle by { MulMono(0, width, cycle); }
    DivUnique(1, cycle, 0, 1);
    DivUnique(width * cycle, cycle, width, 0);
    assert Stages(false)[0] == Fetch && Stages(false)[6] == Retire;
    assert IsDrawn(x, Stages(false), Retire) && Tick(x, Retire) / cycle == WrapCycle(Tick(x, Fetch), width, cycle);
  }

  /**
    For every width, and every cycle of more than one tick, two cycles of some compact line share a column, and it is
    too long.
   */
  lemma UnalignedCompactLineCollides(width: nat, cycle: nat, text: seq<Cell>, es: seq<Event>)
    requires width > 0 && cycle > 1
    requires IsLineAt(text, es, Unaligned(width, cycle), Stages(false), 1, width * cycle, width, cycle, 0)
    ensures Column(1, width, cycle) == Column(width * cycle, width, cycle) && 1 / cycle != (width * cycle) / cycle
    ensures |text| > width
  {
    UnalignedShape(width, cycle);
    CompactLineIsExactIff(text, es, Unaligned(width, cycle), Stages(false), width * cycle, width, cycle);
    DivUnique(1, cycle, 0, 1);
    DivUnique(width * cycle, cycle, width, 0);
    WrapCollides(1, width, cycle, width * cycle);
  }
}
