/** An HNSW index of six points with M = 2, built insertion by insertion, on which two natural expectations fail. */
module SixPoints {
  import opened Sequences
  import opened Graphs
  import opened Neighbors
  import opened HnswLinks
  import opened HnswDescent
  import opened HnswInsert
  import opened Hnsw
  import BeamSearch

  const POINTS: seq<(int, int)> := [(0, 0), (11, -6), (12, 6), (17, 4), (10, 0), (19, 2)]

  function Square(p: (int, int), q: (int, int)): real {
    ((p.0 - q.0) * (p.0 - q.0) + (p.1 - q.1) * (p.1 - q.1)) as real
  }

  /** The base layer after the first `n` insertions. */
  function Base(n: nat): seq<seq<nat>>
    requires 1 <= n <= 6
  {
    match n
    case 1 => [[]]
    case 2 => [[1], [0]]
    case 3 => [[1], [0, 2], [1]]
    case 4 => [[1], [0, 2, 3], [1, 3], [1, 2]]
    case 5 => [[1], [0, 2, 3, 4], [1, 3, 4], [1, 2], [2, 1]]
    case _ => [[1], [4], [1, 3, 4], [1, 2, 5], [2, 1], [1, 3]]
  }

  /** The lists on layer 1 when the first two points are also there. */
  function Upper(n: nat, i: nat): seq<nat> {
    if n == 1 then [] else if i == 0 then [1] else [0]
  }

  /** All lists after `n` insertions: every point on level 0 or, in the tall index, the first two on level 1. */
  function Stage(n: nat, tall: bool): (links: Links)
    requires 1 <= n <= 6
  {
    seq(n, i requires 0 <= i < n => if tall && i < 2 then [Base(n)[i], Upper(n, i)] else [Base(n)[i]])
  }

  /** What the wiring of point number `n` depends on. */
  function BuildOf(n: nat): Build
    requires 1 <= n < 6
  {
    Build(2, 10, ToQuery(Square, POINTS[..n + 1], POINTS[n]), Pairwise(Square, POINTS[..n + 1]), 0, {})
  }

  /** The table of squared distances. */
  function D(i: nat, j: nat): real
    requires i < 6 && j < 6
  {
    Square(POINTS[i], POINTS[j])
  }

  lemma Table()
    ensures D(1, 0) == 157.0 && D(2, 0) == 180.0 && D(3, 0) == 305.0 && D(4, 0) == 100.0 && D(5, 0) == 365.0
    ensures D(2, 1) == 145.0 && D(3, 1) == 136.0 && D(4, 1) == 37.0 && D(5, 1) == 128.0
    ensures D(3, 2) == 29.0 && D(4, 2) == 40.0 && D(5, 2) == 65.0
    ensures D(4, 3) == 65.0 && D(5, 3) == 8.0 && D(5, 4) == 85.0
  {
  }

  lemma Symmetric(i: nat, j: nat)
    requires i < 6 && j < 6
    ensures D(i, j) == D(j, i)
  {
    var p, q := POINTS[i], POINTS[j];
    var x, y := p.0 - q.0, p.1 - q.1;
    assert x * x == (-x) * (-x) && y * y == (-y) * (-y);
  }

  lemma Distances(n: nat, i: nat, j: nat)
    requires 1 <= n < 6 && i <= n && j <= n
    ensures BuildOf(n).d(i) == D(n, i) && BuildOf(n).dd(i, j) == D(i, j)
  {
  }

  function Below(n: nat): (s: set<nat>)
    ensures |s| == n && forall i: nat :: i in s <==> i < n
  {
    if n == 0 then {} else Below(n - 1) + {n - 1}
  }

  /** One candidate covers all others. */
  lemma OneChosen(list: seq<nat>, c: set<nat>, d: nat -> real, dd: (nat, nat) -> real, m: nat, a: nat)
    requires list == [a] && a in c && 0 < m <= |c| && forall x :: x in c && x != a ==> Covers(d, dd, a, x)
    ensures IsSelection(Elems(list), c, d, dd, m) && IsDrain(list, Elems(list), d)
  {
    assert Elems(list) == {a};
  }

  /** Two candidates do not cover each other; every other one is covered or, with room for two only, comes later. */
  lemma TwoChosen(list: seq<nat>, c: set<nat>, d: nat -> real, dd: (nat, nat) -> real, m: nat, a: nat, b: nat)
    requires list == [a, b] && a in c && b in c && 2 <= m <= |c| && d(a) > d(b) && dd(b, a) >= d(a)
    requires forall x :: x in c && x != a && x != b ==> Covers(d, dd, b, x) || (m == 2 && Before(d, a, x))
    ensures IsSelection(Elems(list), c, d, dd, m) && IsDrain(list, Elems(list), d)
  {
    var s := {a, b};
    assert Elems(list) == s;
    assert |s| == 2;
    forall x | x in c && x !in s ensures PassedOver(s, d, dd, m, x) {
      assert Covers(d, dd, b, x) || (|s| == m && forall y :: y in s ==> Before(d, y, x));
    }
  }

  /** Point number `n` was connected on the base layer, with all earlier points for candidates. */
  ghost predicate Grows(before: seq<seq<nat>>, after: seq<seq<nat>>, n: nat, d: nat -> real, dd: (nat, nat) -> real) {
    && |before| == n && |after| == n + 1 && IsChosen(after[n], n, d, dd)
    && (forall k :: k in after[n] ==> k < n && Offered(before[k], after[k], dd, k, n, 4))
    && forall k: nat :: k < n && k !in after[n] ==> after[k] == before[k]
  }

  ghost predicate IsChosen(list: seq<nat>, n: nat, d: nat -> real, dd: (nat, nat) -> real) {
    list != [] && IsSelection(Elems(list), Below(n), d, dd, 2) && IsDrain(list, Elems(list), d)
  }

  lemma GrowsByOne(before: seq<seq<nat>>, after: seq<seq<nat>>, n: nat, a: nat, d: nat -> real, dd: (nat, nat) -> real)
    requires |before| == n && |after| == n + 1 && after[n] == [a] && a < n && IsChosen([a], n, d, dd)
    requires n !in before[a] && |before[a]| < 4 && after[a] == before[a] + [n]
    requires forall k: nat :: k < n && k != a ==> after[k] == before[k]
    ensures Grows(before, after, n, d, dd)
  {
    assert Offered(before[a], after[a], dd, a, n, 4);
  }

  lemma GrowsByTwo(before: seq<seq<nat>>, after: seq<seq<nat>>, n: nat, a: nat, b: nat, d: nat -> real,
                   dd: (nat, nat) -> real)
    requires ChangeAt(before, after, n, a, b) && IsChosen([a, b], n, d, dd)
    requires Offered(before[a], after[a], dd, a, n, 4)
    ensures Grows(before, after, n, d, dd)
  {
    assert Offered(before[b], after[b], dd, b, n, 4);
  }

  lemma RoomIsOffered(before: seq<nat>, dd: (nat, nat) -> real, s: nat, c: nat)
    requires c !in before && |before| < 4
    ensures Offered(before, before + [c], dd, s, c, 4)
  {
  }

  lemma SecondPoint(d: nat -> real, dd: (nat, nat) -> real)
    ensures Grows(Base(1), Base(2), 1, d, dd)
  {
    var list: seq<nat> := [0];
    assert Elems(list) == {0} == Below(1);
    GrowsByOne(Base(1), Base(2), 1, 0, d, dd);
  }

  /** The second point covers the first. */
  lemma ThirdPoint(d: nat -> real, dd: (nat, nat) -> real)
    requires d(0) == 180.0 && d(1) == 145.0 && dd(1, 0) == 157.0
    ensures Grows(Base(2), Base(3), 2, d, dd)
  {
    OneChosen([1], Below(2), d, dd, 2, 1);
    GrowsByOne(Base(2), Base(3), 2, 1, d, dd);
  }

  lemma SixthIsChosen(d: nat -> real, dd: (nat, nat) -> real)
    requires d(0) == 365.0 && d(1) == 128.0 && d(2) == 65.0 && d(3) == 8.0 && d(4) == 85.0
    requires dd(3, 0) == 305.0 && dd(3, 1) == 136.0 && dd(3, 2) == 29.0 && dd(3, 4) == 65.0
    ensures IsChosen([1, 3], 5, d, dd)
  {
    TwoChosen([1, 3], Below(5), d, dd, 2, 1, 3);
  }

  /** How the lists change with two chosen points `a` and `b`: that of `b` has room. */
  ghost predicate ChangeAt(before: seq<seq<nat>>, after: seq<seq<nat>>, n: nat, a: nat, b: nat) {
    && |before| == n && |after| == n + 1 && after[n] == [a, b] && a < n && b < n
    && n !in before[b] && |before[b]| < 4 && after[b] == before[b] + [n]
    && forall k: nat :: k < n && k != a && k != b ==> after[k] == before[k]
  }

  lemma FourthChange()
    ensures ChangeAt(Base(3), Base(4), 3, 1, 2) && Base(3)[1] == [0, 2] && Base(4)[1] == [0, 2] + [3]
  {
  }

  lemma FifthChange()
    ensures ChangeAt(Base(4), Base(5), 4, 2, 1) && Base(4)[2] == [1, 3] && Base(5)[2] == [1, 3] + [4]
  {
  }

  lemma SixthChange()
    ensures ChangeAt(Base(5), Base(6), 5, 1, 3) && Base(5)[1] == [0, 2, 3, 4] && Base(6)[1] == [4]
  {
  }

  lemma FourthPoint(before: seq<seq<nat>>, after: seq<seq<nat>>, d: nat -> real, dd: (nat, nat) -> real)
    requires d(0) == 305.0 && d(1) == 136.0 && d(2) == 29.0 && dd(2, 1) == 145.0
    requires ChangeAt(before, after, 3, 1, 2) && before[1] == [0, 2] && after[1] == [0, 2] + [3]
    ensures Grows(before, after, 3, d, dd)
  {
    TwoChosen([1, 2], Below(3), d, dd, 2, 1, 2);
    RoomIsOffered([0, 2], dd, 1, 3);
    GrowsByTwo(before, after, 3, 1, 2, d, dd);
  }

  lemma FifthPoint(before: seq<seq<nat>>, after: seq<seq<nat>>, d: nat -> real, dd: (nat, nat) -> real)
    requires d(0) == 100.0 && d(1) == 37.0 && d(2) == 40.0 && d(3) == 65.0 && dd(1, 2) == 145.0
    requires ChangeAt(before, after, 4, 2, 1) && before[2] == [1, 3] && after[2] == [1, 3] + [4]
    ensures Grows(before, after, 4, d, dd)
  {
    TwoChosen([2, 1], Below(4), d, dd, 2, 2, 1);
    RoomIsOffered([1, 3], dd, 2, 4);
    GrowsByTwo(before, after, 4, 2, 1, d, dd);
  }

  /** The sixth point finds the list of the second full, and only the fifth, closest to the second, survives in it. */
  lemma SixthPoint(before: seq<seq<nat>>, after: seq<seq<nat>>, d: nat -> real, dd: (nat, nat) -> real)
    requires IsChosen([1, 3], 5, d, dd) && Offered([0, 2, 3, 4], [4], dd, 1, 5, 4)
    requires ChangeAt(before, after, 5, 1, 3) && before[1] == [0, 2, 3, 4] && after[1] == [4]
    ensures Grows(before, after, 5, d, dd)
  {
    GrowsByTwo(before, after, 5, 1, 3, d, dd);
  }

  lemma SecondIsOffered(dd: (nat, nat) -> real)
    requires dd(0, 1) == 157.0 && dd(2, 1) == 145.0 && dd(3, 1) == 136.0 && dd(4, 1) == 37.0 && dd(5, 1) == 128.0
    requires dd(4, 0) == 100.0 && dd(4, 2) == 40.0 && dd(4, 3) == 65.0 && dd(4, 5) == 85.0
    ensures Offered([0, 2, 3, 4], [4], dd, 1, 5, 4)
  {
    var d := DistTo(dd, 1);
    assert d(0) == 157.0 && d(2) == 145.0 && d(3) == 136.0 && d(4) == 37.0 && d(5) == 128.0;
    var c := {5} + Elems([0, 2, 3, 4]);
    assert c == {0, 2, 3, 4, 5};
    assert |c| == 5;
    OneChosen([4], c, d, dd, 4, 4);
  }

  /** Every stage of the base layer follows from the one before. */
  lemma BaseGrows(n: nat)
    requires 1 <= n < 6
    ensures Grows(Base(n), Base(n + 1), n, BuildOf(n).d, BuildOf(n).dd)
  {
    var b := BuildOf(n);
    Table();
    forall i: nat, j: nat | i <= n && j <= n ensures b.d(i) == D(n, i) && b.dd(i, j) == D(i, j) == D(j, i) {
      Distances(n, i, j);
      Symmetric(i, j);
    }
    match n
    case 1 => SecondPoint(b.d, b.dd);
    case 2 => ThirdPoint(b.d, b.dd);
    case 3 =>
      FourthChange();
      FourthPoint(Base(3), Base(4), b.d, b.dd);
    case 4 =>
      FifthChange();
      FifthPoint(Base(4), Base(5), b.d, b.dd);
    case 5 =>
      SixthIsChosen(b.d, b.dd);
      SecondIsOffered(b.dd);
      SixthChange();
      SixthPoint(Base(5), Base(6), b.d, b.dd);
  }

  // ---------------------------------------------------------------- from lists to the index

  /** Lists within the capacity of the base layer, without self links or links to later points. */
  ghost predicate IsGood(base: seq<seq<nat>>) {
    forall i :: 0 <= i < |base| ==>
      |base[i]| <= 4 && Distinct(base[i]) && forall j :: j in base[i] ==> j != i && j < |base|
  }

  lemma BaseIsGood(n: nat)
    requires 1 <= n <= 6
    ensures |Base(n)| == n && IsGood(Base(n))
  {
  }

  lemma StageIsIntact(n: nat, tall: bool)
    requires 1 <= n <= 6
    ensures Intact(Stage(n, tall), 2) && Topped(Stage(n, tall), 0, if tall then 1 else 0)
  {
    var links := Stage(n, tall);
    BaseIsGood(n);
    forall i, l | 0 <= i < |links| && 0 <= l < |links[i]| ensures GoodList(links, 2, i, l, links[i][l]) {
      if l == 0 {
        assert links[i][l] == Base(n)[i];
      } else {
        assert links[i][l] == Upper(n, i);
      }
    }
  }

  /** The base layer of an index and the lists of its points. */
  ghost predicate HasBase(links: Links, base: seq<seq<nat>>) {
    |base| <= |links| && forall k: nat :: k < |base| ==> |links[k]| > 0 && links[k][0] == base[k]
  }

  lemma StageHasBase(n: nat, tall: bool)
    requires 1 <= n <= 6
    ensures |Stage(n, tall)| == n && HasBase(Stage(n, tall), Base(n))
  {
    BaseIsGood(n);
  }

  /** The second point links to all others, and the first to the second. */
  lemma HubLinks(n: nat, k: nat)
    requires 2 <= n < 6 && k < n
    ensures |Base(n)| == n && Base(n)[0] == [1] && (k != 1 ==> k in Base(n)[1])
  {
    match n
    case 2 => assert Base(n)[1] == [0];
    case 3 => assert Base(n)[1] == [0, 2];
    case 4 => assert Base(n)[1] == [0, 2, 3];
    case 5 => assert Base(n)[1] == [0, 2, 3, 4];
  }

  lemma HubReaches(g: Layer, start: nat, k: nat)
    requires Closed(g) && 0 in g && 1 in g && k in g && start < 2 && g[0] == [1] && (k != 1 ==> k in g[1])
    ensures Reaches(g, start, k)
  {
    ReachesSelf(g, start);
    if start == 0 {
      ReachesStep(g, 0, 0, 1);
    }
    if k != 1 {
      ReachesStep(g, start, 1, k);
    }
  }

  lemma HubReachesAll(g: Layer, n: nat, start: nat)
    requires Closed(g) && g.Keys == Below(n) && start < n && start < 2
    requires n > 1 ==> g[0] == [1] && forall k: nat :: k < n && k != 1 ==> k in g[1]
    ensures ReachSet(g, start) == Below(n)
  {
    forall k: nat | k < n ensures Reaches(g, start, k) {
      if n == 1 {
        ReachesSelf(g, start);
      } else {
        HubReaches(g, start, k);
      }
    }
  }

  lemma HubOf(n: nat, tall: bool) returns (base: seq<seq<nat>>)
    requires 1 <= n < 6
    ensures |base| == |Stage(n, tall)| == n && HasBase(Stage(n, tall), base)
    ensures n > 1 ==> base[0] == [1] && forall k: nat :: k < n && k != 1 ==> k in base[1]
  {
    base := Base(n);
    StageHasBase(n, tall);
    if n > 1 {
      HubLinks(n, 0);
      forall k: nat | k < n && k != 1 ensures k in base[1] {
        HubLinks(n, k);
      }
    }
  }

  lemma LayerOfBase(links: Links, base: seq<seq<nat>>)
    requires HasBase(links, base) && |base| == |links|
    ensures LayerOf(links, 0).Keys == Below(|base|)
    ensures forall k: nat :: k < |base| ==> LayerOf(links, 0)[k] == base[k]
  {
  }

  lemma AllReachable(n: nat, tall: bool, start: nat)
    requires 1 <= n < 6 && start < n && start < 2
    ensures ReachSet(LayerOf(Stage(n, tall), 0), start) == Below(n)
  {
    StageIsIntact(n, tall);
    LayerIsClosed(Stage(n, tall), 2, 0);
    var base := HubOf(n, tall);
    LayerOfBase(Stage(n, tall), base);
    HubReachesAll(LayerOf(Stage(n, tall), 0), n, start);
  }

  function LevelOf(n: nat, tall: bool): nat {
    if tall && n < 2 then 1 else 0
  }

  /** The stage with the next point added, still blank. */
  function Extended(n: nat, tall: bool): Links
    requires 1 <= n < 6
  {
    Stage(n, tall) + [BlankLists(LevelOf(n, tall))]
  }

  /** A beam wider than everything reachable finds all of it. */
  lemma EverythingIsFound(n: nat, tall: bool, start: nat)
    requires 1 <= n < 6 && start < n && start < 2
    ensures IsFound(Extended(n, tall), BuildOf(n), 0, start, Below(n))
  {
    var links, b := Extended(n, tall), BuildOf(n);
    var g := LayerOf(links, 0);
    StageIsIntact(n, tall);
    AppendKeepsIntact(Stage(n, tall), 2, LevelOf(n, tall), 0);
    AppendKeepsReach(Stage(n, tall), 2, LevelOf(n, tall), 0, start);
    AllReachable(n, tall, start);
    LayerIsClosed(links, 2, 0);
    WholeReachIsFound(g, start, b.d, 10, Live({}), Below(n));
  }

  lemma WholeReachIsFound(g: Layer, ep: nat, d: nat -> real, ef: nat, el: nat -> bool, top: set<nat>)
    requires Closed(g) && ep in g && top == ReachSet(g, ep) && |top| < ef && forall i: nat :: el(i)
    ensures BeamSearch.Finished(g, ep, d, ef, el, top)
  {
    ReachesSelf(g, ep);
    forall i, j | i in top && i in g && j in g[i] ensures j in top {
      ReachesStep(g, ep, i, j);
    }
  }

  lemma GrowthConnects(links0: Links, links: Links, before: seq<seq<nat>>, after: seq<seq<nat>>, n: nat, b: Build)
    requires |links0| == n + 1 && SameShape(links0, links) && |links0[n]| > 0 && b.m == 2
    requires Grows(before, after, n, b.d, b.dd) && HasBase(links0, before) && HasBase(links, after)
    ensures IsConnected(links0, links, b, n, 0, Below(n))
  {
    assert links[n][0] == after[n];
    forall k: nat | k in after[n] ensures Offered(links0[k][0], links[k][0], b.dd, k, n, Cap(2, 0)) {
      assert links0[k][0] == before[k] && links[k][0] == after[k];
    }
  }

  lemma ExtendedHasBase(n: nat, tall: bool)
    requires 1 <= n < 6
    ensures SameShape(Extended(n, tall), Stage(n + 1, tall)) && HasBase(Extended(n, tall), Base(n))
    ensures |Extended(n, tall)| == n + 1 && |Extended(n, tall)[n]| == LevelOf(n, tall) + 1
  {
    StageHasBase(n, tall);
    assert forall k: nat :: k < n ==> Extended(n, tall)[k] == Stage(n, tall)[k];
  }

  lemma StagesGrow(n: nat, tall: bool) returns (before: seq<seq<nat>>, after: seq<seq<nat>>)
    requires 1 <= n < 6
    ensures Grows(before, after, n, BuildOf(n).d, BuildOf(n).dd)
    ensures HasBase(Extended(n, tall), before) && HasBase(Stage(n + 1, tall), after)
    ensures SameShape(Extended(n, tall), Stage(n + 1, tall))
    ensures |Extended(n, tall)| == n + 1 && |Extended(n, tall)[n]| > 0
  {
    before, after := Base(n), Base(n + 1);
    BaseGrows(n);
    ExtendedHasBase(n, tall);
    StageHasBase(n + 1, tall);
  }

  lemma BaseIsConnected(n: nat, tall: bool)
    requires 1 <= n < 6
    ensures IsConnected(Extended(n, tall), Stage(n + 1, tall), BuildOf(n), n, 0, Below(n))
  {
    var before, after := StagesGrow(n, tall);
    GrowthConnects(Extended(n, tall), Stage(n + 1, tall), before, after, n, BuildOf(n));
  }

  /** Where the wiring of point number `n` leaves the base layer. */
  function LeftAt(n: nat, tall: bool): nat
    requires 1 <= n < 6
  {
    var lists := Stage(n + 1, tall)[n];
    if lists != [] && lists[0] != [] then lists[0][|lists[0]| - 1] else 0
  }

  /** The base layer is wired from either of the first two points. */
  lemma BaseIsWired(n: nat, tall: bool, start: nat)
    requires 1 <= n < 6 && start < n && start < 2
    ensures WiredAt(Extended(n, tall), Stage(n + 1, tall), BuildOf(n), n, 0, false, start, LeftAt(n, tall))
  {
    var links0, links, b := Extended(n, tall), Stage(n + 1, tall), BuildOf(n);
    EverythingIsFound(n, tall, start);
    BaseIsConnected(n, tall);
    assert Below(n) - {n} == Below(n);
    assert IsWired(links0, links, b, n, 0, false, start, LeftAt(n, tall), Below(n), Below(n));
  }

  /** On a layer that only the first two points share, each becomes the other's neighbour. */
  lemma PairIsWired(links0: Links, links: Links, b: Build)
    requires |links0| == 2 && |links0[0]| == |links0[1]| == 2 && links0[0][1] == links0[1][1] == []
    requires SameShape(links0, links) && links[0][1] == [1] && links[1][1] == [0]
    requires b.m == 2 && b.efc == 10 && b.entry == 0 && b.deleted == {}
    ensures WiredAt(links0, links, b, 1, 1, false, 0, 0)
  {
    LoneIsFound(LayerOf(links0, 1), b.d);
    PairIsConnected(links0, links, b);
    assert {0} - {1} == {0};
    assert IsWired(links0, links, b, 1, 1, false, 0, 0, {0}, {0});
  }

  lemma LoneIsFound(g: Layer, d: nat -> real)
    requires 0 in g && g[0] == [] && Closed(g)
    ensures BeamSearch.Finished(g, 0, d, 10, Live({}), {0})
  {
    ReachesSelf(g, 0);
    ClosedSetHoldsReach(g, {0}, 0);
    WholeReachIsFound(g, 0, d, 10, Live({}), {0});
  }

  lemma PairIsConnected(links0: Links, links: Links, b: Build)
    requires |links0| == 2 && |links0[0]| == |links0[1]| == 2 && links0[0][1] == links0[1][1] == []
    requires SameShape(links0, links) && links[0][1] == [1] && links[1][1] == [0] && b.m == 2
    ensures IsConnected(links0, links, b, 1, 1, {0})
  {
    var list := links[1][1];
    assert Elems(list) == {0};
    assert links0[0][1] + [1] == links[0][1];
  }

  lemma ThroughBase(links0: Links, links: Links, b: Build, cur: nat, maxLevel: nat, start: nat, next: nat)
    requires Intact(links0, b.m) && On(links0, b.entry, maxLevel)
    requires start == Descent(links0, b.m, b.d, b.entry, maxLevel, 0)
    requires WiredAt(links0, links, b, cur, 0, false, start, next)
    ensures WiredThrough(links0, links, b, cur, maxLevel, 0, false)
  {
    assert Wired(links0, links, b, cur, -1, 0, false, [next, start]);
  }

  lemma ExtendedIsIntact(n: nat, tall: bool)
    requires 1 <= n < 6
    ensures Intact(Extended(n, tall), 2) && On(Extended(n, tall), 0, if tall then 1 else 0)
    ensures forall i: nat :: On(Extended(n, tall), i, 1) ==> i < 2
  {
    StageIsIntact(n, tall);
    AppendKeepsIntact(Stage(n, tall), 2, LevelOf(n, tall), 0);
    assert Extended(n, tall)[0] == Stage(n, tall)[0];
  }

  /** The descent stays with the first two points. */
  lemma DescentStays(n: nat, tall: bool, links0: Links, b: Build) returns (start: nat)
    requires 1 <= n < 6 && LevelOf(n, tall) == 0 && links0 == Extended(n, tall) && b == BuildOf(n)
    ensures Intact(links0, 2) && On(links0, 0, if tall then 1 else 0)
    ensures start == Descent(links0, 2, b.d, 0, if tall then 1 else 0, 0) && start < 2 && start < n
  {
    ExtendedIsIntact(n, tall);
    start := Descent(links0, 2, b.d, 0, if tall then 1 else 0, 0);
    DescentEndsAtMinimum(links0, 2, b.d, 0, if tall then 1 else 0, 0);
    assert tall ==> On(links0, start, 1);
  }

  /** Each stage is what the insertion of its last point may leave behind. */
  lemma StageIsInserted(n: nat, tall: bool)
    requires 1 <= n < 6
    ensures WiredThrough(Extended(n, tall), Stage(n + 1, tall), BuildOf(n), n,
                         if tall then 1 else 0, LevelOf(n, tall), false)
  {
    if LevelOf(n, tall) == 0 {
      var start := DescentStays(n, tall, Extended(n, tall), BuildOf(n));
      BaseIsWired(n, tall, start);
      ThroughBase(Extended(n, tall), Stage(n + 1, tall), BuildOf(n), n, if tall then 1 else 0, start, LeftAt(n, tall));
    } else {
      SecondIsInserted(Extended(1, true), Stage(2, true), BuildOf(1));
    }
  }

  lemma SecondIsInserted(links0: Links, links: Links, b: Build)
    requires links0 == Extended(1, true) && links == Stage(2, true) && b == BuildOf(1)
    ensures WiredThrough(links0, links, b, 1, 1, 1, false)
  {
    ExtendedIsIntact(1, true);
    DescentEndsAtMinimum(links0, 2, b.d, 0, 1, 1);
    var starts: seq<nat> := [LeftAt(1, true), 0, 0];
    forall l: nat | l <= 1 ensures WiredAt(links0, links, b, 1, l, false, starts[l + 1], starts[l]) {
      if l == 0 {
        BaseIsWired(1, true, 0);
      } else {
        UpperIsWired();
      }
    }
    assert Wired(links0, links, b, 1, -1, 1, false, starts);
  }

  lemma UpperIsWired()
    ensures WiredAt(Extended(1, true), Stage(2, true), BuildOf(1), 1, 1, false, 0, 0)
  {
    var links0, links := Extended(1, true), Stage(2, true);
    ExtendedHasBase(1, true);
    assert links0[0] == Stage(1, true)[0];
    PairIsWired(links0, links, BuildOf(1));
  }

  // ---------------------------------------------------------------- what fails on it

  /**
    The integrity check asserts that every element has an inbound link. With all six points on level 0, the first
    has none.
   */
  lemma FirstPointIsOrphaned()
    ensures Intact(Stage(6, false), 2) && HasInbound(Stage(5, false), 0) && !HasInbound(Stage(6, false), 0)
  {
    StageIsIntact(6, false);
    StageHasBase(5, false);
    StageHasBase(6, false);
    SixthChange();
    assert Inbound(Stage(5, false), 0, 1, 0);
    forall i: nat, l: nat ensures !Inbound(Stage(6, false), 0, i, l) {
      if i < 6 {
        NobodyLinksToFirst(i);
      }
    }
  }

  lemma NobodyLinksToFirst(i: nat)
    requires i < 6
    ensures |Base(6)| == 6 && 0 !in Base(6)[i]
  {
  }

  function Query(): nat -> real {
    ToQuery(Square, POINTS, (11, -5))
  }

  lemma QueryDescent(d: nat -> real)
    requires d(1) < d(0)
    ensures Intact(Stage(6, true), 2) && Topped(Stage(6, true), 0, 1) && Descent(Stage(6, true), 2, d, 0, 1, 0) == 1
  {
    var links := Stage(6, true);
    StageIsIntact(6, true);
    LayersAreStack(links, 2, 1, 0);
    var g := LayerOf(links, 1);
    assert g == map[0 := [1], 1 := [0]];
    StepsAcross(g, d);
    var layers := LayersAbove(links, 1, 0);
    assert layers[0] == g && layers[..0] == [];
  }

  /** On layer 1 the walk steps from the first point to the second when that is closer. */
  lemma StepsAcross(g: Layer, d: nat -> real)
    requires g == map[0 := [1], 1 := [0]] && d(1) < d(0)
    ensures Closed(g) && Greedy(g, d, 0) == 1
  {
    assert 1 in g[0] && Pass(g[0], d, 0) == 1;
    assert Pass(g[1], d, 1) == 1;
    assert Greedy(g, d, 1) == 1;
  }

  lemma QueryIsCloser()
    ensures Query()(1) < Query()(0)
  {
    assert |POINTS| == 6 && POINTS[0] == (0, 0) && POINTS[1] == (11, -6);
    assert Square((11, -5), (0, 0)) == 146.0 && Square((11, -5), (11, -6)) == 1.0;
  }

  lemma RestIsClosed(i: nat, j: nat)
    requires i in {1, 2, 3, 4, 5} && j in Base(6)[i]
    ensures j in {1, 2, 3, 4, 5}
  {
  }

  lemma RestIsReached()
    ensures ReachSet(LayerOf(Stage(6, true), 0), 1) <= {1, 2, 3, 4, 5}
  {
    var g := LayerOf(Stage(6, true), 0);
    StageHasBase(6, true);
    forall i, j | i in {1, 2, 3, 4, 5} && i in g && j in g[i] ensures j in {1, 2, 3, 4, 5} {
      RestIsClosed(i, j);
    }
    ClosedSetHoldsReach(g, {1, 2, 3, 4, 5}, 1);
  }

  /** With all but the first point deleted, a new point at (11, -5) finds no neighbour although the entry is live. */
  lemma DeletedNeighboursStrand()
    ensures Intact(Stage(6, true), 2) && Topped(Stage(6, true), 0, 1)
    ensures FindsNobody(Stage(6, true), Build(2, 10, Query(), Pairwise(Square, POINTS), 0, {1, 2, 3, 4, 5}), 1, 0)
  {
    QueryIsCloser();
    QueryDescent(Query());
    RestIsReached();
  }
}
