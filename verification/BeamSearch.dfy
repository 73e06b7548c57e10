/**
  The layer search of the HNSW index: a best-first walk that keeps the `ef` closest elements seen.
  One method covers the three copies in the source, which differ in who may enter the result
  and in when the walk may stop.
 */
module BeamSearch {
  import opened Graphs

  /** The queue key of a candidate: an entry point that may not enter the result is queued at the largest distance. */
  function Key(d: nat -> real, maxDist: real, ep: nat, enters: bool, i: nat): real {
    if i == ep && !enters then maxDist else d(i)
  }

  ghost predicate IsClosest(cand: set<nat>, d: nat -> real, maxDist: real, ep: nat, enters: bool, c: nat) {
    && c in cand
    && forall x :: x in cand ==> Key(d, maxDist, ep, enters, c) <= Key(d, maxDist, ep, enters, x)
  }

  ghost predicate IsWorst(top: set<nat>, d: nat -> real, bound: real) {
    && (forall t :: t in top ==> d(t) <= bound)
    && exists t :: t in top && d(t) == bound
  }

  /** `v` was turned away because the result was full of elements at least as close. */
  ghost predicate Beaten(top: set<nat>, d: nat -> real, ef: nat, v: nat) {
    && |top| == ef
    && forall t :: t in top ==> d(t) <= d(v)
  }

  /** What holds of the result, the visited set, the expanded set and the candidate queue between any two steps. */
  ghost predicate Sound(g: Layer, ep: nat, d: nat -> real, ef: nat, el: nat -> bool,
                        visited: set<nat>, expanded: set<nat>, cand: set<nat>, top: set<nat>)
  {
    && ep in visited
    && visited <= ReachSet(g, ep)
    && expanded + cand <= visited
    && expanded !! cand
    && top <= expanded + cand
    && |top| <= ef
    && (forall t :: t in top ==> el(t))
    && (forall v :: v in visited && el(v) && v !in top ==> Beaten(top, d, ef, v))
    && (|top| < ef ==> visited == expanded + cand)
  }

  /** The neighbours of every expanded element have been visited. */
  ghost predicate Followed(g: Layer, visited: set<nat>, expanded: set<nat>) {
    forall i, j :: i in expanded && i in g && j in g[i] ==> j in visited
  }

  /** The result of a finished search cannot be improved by following one more link out of it. */
  ghost predicate LocallyOptimal(g: Layer, d: nat -> real, ef: nat, el: nat -> bool, top: set<nat>) {
    forall i, j :: i in top && i in g && j in g[i] && el(j) ==> j in top || Beaten(top, d, ef, j)
  }

  /** The eligible elements that can be reached at all. */
  ghost function Findable(g: Layer, ep: nat, el: nat -> bool): set<nat> {
    set i | i in ReachSet(g, ep) && el(i)
  }

  /** The contract of a search: what it returned, and why nothing reachable was missed without reason. */
  ghost predicate Finished(g: Layer, ep: nat, d: nat -> real, ef: nat, el: nat -> bool, top: set<nat>) {
    && top <= Findable(g, ep, el)
    && |top| <= ef
    && LocallyOptimal(g, d, ef, el, top)
    && (el(ep) ==> ep in top || Beaten(top, d, ef, ep))
    && (|top| < ef ==> top == Findable(g, ep, el))
  }

  /** One expansion of the walk: the element taken off the queue, the queue before and after, and the result before. */
  datatype Hop = Hop(at: nat, queue: set<nat>, result: set<nat>, queue': set<nat>)

  /** How far a queued element counts as being: its distance or, for an entry point that may not enter, the largest. */
  ghost predicate IsRank(d: nat -> real, maxDist: real, ep: nat, el: nat -> bool, i: nat, rank: real) {
    (i != ep || el(ep) ==> rank == d(i)) && (i == ep && !el(ep) ==> rank == maxDist)
  }

  /** Nothing queued is closer, and a full result holds something at least as far away. */
  ghost predicate IsDue(h: Hop, d: nat -> real, maxDist: real, ep: nat, ef: nat, el: nat -> bool) {
    && h.at in h.queue
    && forall r :: IsRank(d, maxDist, ep, el, h.at, r) ==>
         && (forall x, q :: x in h.queue && IsRank(d, maxDist, ep, el, x, q) ==> r <= q)
         && (|h.result| == ef ==> exists t :: t in h.result && r <= d(t))
  }

  /** The queue lost the element expanded and gained some of its neighbours. */
  ghost predicate Requeued(g: Layer, at: nat, queue: set<nat>, queue': set<nat>) {
    && queue - {at} <= queue'
    && forall x :: x in queue' ==> x in queue - {at} || (at in g && x in g[at])
  }

  /** What is queued after the walk. */
  ghost function Left(ep: nat, walk: seq<Hop>): set<nat> {
    if walk == [] then {ep} else walk[|walk| - 1].queue'
  }

  ghost predicate IsWalking(g: Layer, ep: nat, d: nat -> real, maxDist: real, ef: nat, el: nat -> bool,
                            walk: seq<Hop>) {
    forall i :: 0 <= i < |walk| ==>
      && walk[i].queue == Left(ep, walk[..i])
      && IsDue(walk[i], d, maxDist, ep, ef, el) && Requeued(g, walk[i].at, walk[i].queue, walk[i].queue')
  }

  /** With a full result, everything queued is farther away than all of it. */
  ghost predicate IsOver(d: nat -> real, maxDist: real, ep: nat, ef: nat, el: nat -> bool, queue: set<nat>,
                         top: set<nat>) {
    && |top| == ef
    && forall x, r, t :: x in queue && IsRank(d, maxDist, ep, el, x, r) && t in top ==> d(t) < r
  }

  /**
    The walk is best-first: it starts at the entry point, always goes on at the closest queued element, and ends when
    nothing is queued or, with a full result, everything queued is farther away than the whole result.
   */
  ghost predicate IsBestFirst(g: Layer, ep: nat, d: nat -> real, maxDist: real, ef: nat, el: nat -> bool,
                              walk: seq<Hop>, top: set<nat>) {
    && IsWalking(g, ep, d, maxDist, ef, el, walk)
    && (Left(ep, walk) == {} || IsOver(d, maxDist, ep, ef, el, Left(ep, walk), top))
  }

  lemma WalkOn(g: Layer, ep: nat, d: nat -> real, maxDist: real, ef: nat, el: nat -> bool, walk: seq<Hop>, h: Hop)
    requires IsWalking(g, ep, d, maxDist, ef, el, walk) && h.queue == Left(ep, walk)
    requires IsDue(h, d, maxDist, ep, ef, el) && Requeued(g, h.at, h.queue, h.queue')
    ensures IsWalking(g, ep, d, maxDist, ef, el, walk + [h]) && Left(ep, walk + [h]) == h.queue'
  {
    forall i | 0 <= i < |walk| ensures (walk + [h])[..i] == walk[..i] {
    }
    assert (walk + [h])[..|walk|] == walk;
  }

  lemma Starting(g: Layer, ep: nat, d: nat -> real, ef: nat, el: nat -> bool)
    requires ep in g && ef > 0
    ensures Sound(g, ep, d, ef, el, {ep}, {}, {ep}, if el(ep) then {ep} else {})
  {
    ReachesSelf(g, ep);
  }

  /** Visiting `y` and turning it away. */
  lemma Rejecting(g: Layer, ep: nat, d: nat -> real, ef: nat, el: nat -> bool,
                  visited: set<nat>, expanded: set<nat>, cand: set<nat>, top: set<nat>, y: nat)
    requires Sound(g, ep, d, ef, el, visited, expanded, cand, top)
    requires y !in visited && y in ReachSet(g, ep)
    requires |top| == ef && forall t :: t in top ==> d(t) <= d(y)
    ensures Sound(g, ep, d, ef, el, visited + {y}, expanded, cand, top)
  {
  }

  /** Visiting `y` and queueing it without entering it into the result. */
  lemma QueueingOnly(g: Layer, ep: nat, d: nat -> real, ef: nat, el: nat -> bool,
                     visited: set<nat>, expanded: set<nat>, cand: set<nat>, top: set<nat>, y: nat)
    requires Sound(g, ep, d, ef, el, visited, expanded, cand, top)
    requires y !in visited && y in ReachSet(g, ep) && !el(y)
    ensures Sound(g, ep, d, ef, el, visited + {y}, expanded, cand + {y}, top)
  {
  }

  /** Visiting `y` and entering it into a result that still has room. */
  lemma EnteringFree(g: Layer, ep: nat, d: nat -> real, ef: nat, el: nat -> bool,
                     visited: set<nat>, expanded: set<nat>, cand: set<nat>, top: set<nat>, y: nat)
    requires Sound(g, ep, d, ef, el, visited, expanded, cand, top)
    requires y !in visited && y in ReachSet(g, ep) && el(y)
    requires |top| < ef
    ensures |top + {y}| == |top| + 1
    ensures Sound(g, ep, d, ef, el, visited + {y}, expanded, cand + {y}, top + {y})
  {
    assert forall v :: v in visited + {y} && el(v) ==> v in top + {y};
  }

  /** Visiting `y` and entering it into a full result, which then sheds a worst element `m`. */
  lemma EnteringFull(g: Layer, ep: nat, d: nat -> real, ef: nat, el: nat -> bool,
                     visited: set<nat>, expanded: set<nat>, cand: set<nat>, top: set<nat>, y: nat, m: nat, bound: real)
    requires Sound(g, ep, d, ef, el, visited, expanded, cand, top)
    requires y !in visited && y in ReachSet(g, ep) && el(y)
    requires |top| == ef && ef > 0 && IsWorst(top, d, bound) && d(y) < bound
    requires m in top + {y} && forall t :: t in top + {y} ==> d(t) <= d(m)
    ensures |top + {y} - {m}| == ef
    ensures Sound(g, ep, d, ef, el, visited + {y}, expanded, cand + {y}, top + {y} - {m})
  {
    var top' := top + {y} - {m};
    assert |top + {y}| == ef + 1;
    assert top' + {m} == top + {y};
    var w :| w in top && d(w) == bound;
    forall v | v in visited + {y} && el(v) && v !in top'
      ensures Beaten(top', d, ef, v)
    {
      if v != m {
        assert v in visited && v !in top;
        assert Beaten(top, d, ef, v);
        assert d(w) <= d(v);
      }
    }
  }

  /**
    The best-first walk over one layer, from `ep`, keeping at most `ef` of the elements for which `el` holds.
    The bare-bone form is used when every element is eligible; it stops without asking whether the result is full.
   */
  method Search(g: Layer, ep: nat, d: nat -> real, maxDist: real, ef: nat, el: nat -> bool, bare: bool)
    returns (top: set<nat>, ghost walk: seq<Hop>)
    requires Closed(g) && ep in g && ef > 0
    requires bare ==> forall i :: el(i)
    ensures Finished(g, ep, d, ef, el, top)
    ensures IsBestFirst(g, ep, d, maxDist, ef, el, walk, top)
  {
    var lowerBound := if el(ep) then d(ep) else maxDist;
    top := if el(ep) then {ep} else {};
    var cand := {ep};
    var visited := {ep};
    ghost var expanded: set<nat> := {};
    walk := [];
    Starting(g, ep, d, ef, el);
    while cand != {}
      invariant Sound(g, ep, d, ef, el, visited, expanded, cand, top)
      invariant Followed(g, visited, expanded)
      invariant top != {} ==> IsWorst(top, d, lowerBound)
      invariant cand == Left(ep, walk) && IsWalking(g, ep, d, maxDist, ef, el, walk)
      decreases g.Keys - expanded
    {
      var c := Closest(cand, d, maxDist, ep, el(ep));
      if Key(d, maxDist, ep, el(ep), c) > lowerBound && (bare || |top| == ef) {
        StopIsSafe(g, ep, d, maxDist, ef, el, visited, expanded, cand, top, c, lowerBound, bare);
        StopIsDue(d, maxDist, ep, ef, el, cand, top, c, lowerBound);
        return;
      }
      ghost var queue, result := cand, top;
      HopIsDue(c, queue, result, d, maxDist, ep, ef, el, lowerBound, bare);
      visited, cand, top, lowerBound := Expand(g, ep, d, ef, el, visited, expanded, cand, top, lowerBound, c);
      expanded := expanded + {c};
      WalkOn(g, ep, d, maxDist, ef, el, walk, Hop(c, queue, result, cand));
      walk := walk + [Hop(c, queue, result, cand)];
    }
    Exhausted(g, ep, d, ef, el, visited, expanded, top);
  }

  /** Where the stop test lets the walk go on, the next hop is due. */
  lemma HopIsDue(c: nat, queue: set<nat>, result: set<nat>, d: nat -> real, maxDist: real, ep: nat, ef: nat,
                 el: nat -> bool, bound: real, bare: bool)
    requires IsClosest(queue, d, maxDist, ep, el(ep), c) && ef > 0
    requires result != {} ==> IsWorst(result, d, bound)
    requires !(Key(d, maxDist, ep, el(ep), c) > bound && (bare || |result| == ef))
    ensures forall queue' :: IsDue(Hop(c, queue, result, queue'), d, maxDist, ep, ef, el)
  {
    if |result| == ef {
      assert result != {};
    }
  }

  /** Where it stops, everything queued is farther away than the full result. */
  lemma StopIsDue(d: nat -> real, maxDist: real, ep: nat, ef: nat, el: nat -> bool, queue: set<nat>, top: set<nat>,
                  c: nat, bound: real)
    requires IsClosest(queue, d, maxDist, ep, el(ep), c) && Key(d, maxDist, ep, el(ep), c) > bound
    requires |top| == ef && (top != {} ==> IsWorst(top, d, bound))
    ensures IsOver(d, maxDist, ep, ef, el, queue, top)
  {
  }

  /** The top of the candidate queue; which of several equally close candidates it is stays open. */
  method Closest(cand: set<nat>, d: nat -> real, maxDist: real, ep: nat, enters: bool) returns (c: nat)
    requires cand != {}
    ensures IsClosest(cand, d, maxDist, ep, enters, c)
  {
    var key := (i: nat) => Key(d, maxDist, ep, enters, i);
    LeastExists(cand, key);
    c :| c in cand && forall x :: x in cand ==> key(c) <= key(x);
    assert forall x :: x in cand ==> key(x) == Key(d, maxDist, ep, enters, x);
  }

  /** Takes `c` off the queue and visits its neighbours in list order. */
  method Expand(g: Layer, ghost ep: nat, d: nat -> real, ef: nat, el: nat -> bool,
                visited: set<nat>, ghost expanded: set<nat>, cand: set<nat>, top: set<nat>, bound: real, c: nat)
    returns (visited': set<nat>, cand': set<nat>, top': set<nat>, bound': real)
    requires ef > 0 && Closed(g) && c in cand
    requires Sound(g, ep, d, ef, el, visited, expanded, cand, top)
    requires Followed(g, visited, expanded)
    requires top != {} ==> IsWorst(top, d, bound)
    ensures Sound(g, ep, d, ef, el, visited', expanded + {c}, cand', top')
    ensures Followed(g, visited', expanded + {c})
    ensures top' != {} ==> IsWorst(top', d, bound')
    ensures Requeued(g, c, cand, cand')
  {
    visited', cand', top', bound' := visited, cand - {c}, top, bound;
    assert c in ReachSet(g, ep);
    var j := 0;
    while j < |g[c]|
      invariant j <= |g[c]|
      invariant Sound(g, ep, d, ef, el, visited', expanded + {c}, cand', top')
      invariant visited <= visited'
      invariant forall i :: 0 <= i < j ==> g[c][i] in visited'
      invariant Requeued(g, c, cand, cand')
      invariant top' != {} ==> IsWorst(top', d, bound')
    {
      var y := g[c][j];
      if y !in visited' {
        ReachesStep(g, ep, c, y);
        cand', top', bound' := Visit(g, ep, d, ef, el, visited', expanded + {c}, cand', top', bound', y);
        visited' := visited' + {y};
      }
      j := j + 1;
    }
  }

  /** One unvisited neighbour: queue it and enter it into the result unless a full result already beats it. */
  method Visit(ghost g: Layer, ghost ep: nat, d: nat -> real, ef: nat, el: nat -> bool,
               ghost visited: set<nat>, ghost expanded: set<nat>, cand: set<nat>, top: set<nat>, bound: real, y: nat)
    returns (cand': set<nat>, top': set<nat>, bound': real)
    requires ef > 0
    requires Sound(g, ep, d, ef, el, visited, expanded, cand, top)
    requires top != {} ==> IsWorst(top, d, bound)
    requires y !in visited && y in ReachSet(g, ep)
    ensures Sound(g, ep, d, ef, el, visited + {y}, expanded, cand', top')
    ensures top' != {} ==> IsWorst(top', d, bound')
    ensures cand <= cand' <= cand + {y} && (Beaten(top, d, ef, y) ==> cand' == cand)
    ensures !Beaten(top, d, ef, y) ==> y in cand' && (el(y) <==> y in top + top')
  {
    cand', top', bound' := cand, top, bound;
    if |top| < ef || bound > d(y) {
      cand' := cand + {y};
      if el(y) {
        top' := top + {y};
        if |top'| > ef {
          GreatestExists(top', d);
          var m :| m in top' && forall t :: t in top' ==> d(t) <= d(m);
          EnteringFull(g, ep, d, ef, el, visited, expanded, cand, top, y, m, bound);
          top' := top' - {m};
        } else {
          assert |top + {y}| == |top| + 1;
          EnteringFree(g, ep, d, ef, el, visited, expanded, cand, top, y);
        }
      } else {
        QueueingOnly(g, ep, d, ef, el, visited, expanded, cand, top, y);
      }
      if top' != {} {
        GreatestExists(top', d);
        var w :| w in top' && forall t :: t in top' ==> d(t) <= d(w);
        bound' := d(w);
      }
    } else {
      Rejecting(g, ep, d, ef, el, visited, expanded, cand, top, y);
    }
  }

  /**
    When every element is eligible, a closest candidate worse than the bound means the result is full:
    the bare-bone form, which does not ask, stops exactly where the general form stops.
   */
  lemma BareStopAgrees(g: Layer, ep: nat, d: nat -> real, maxDist: real, ef: nat, el: nat -> bool,
                       visited: set<nat>, expanded: set<nat>, cand: set<nat>, top: set<nat>, c: nat, bound: real)
    requires Sound(g, ep, d, ef, el, visited, expanded, cand, top)
    requires top != {} ==> IsWorst(top, d, bound)
    requires IsClosest(cand, d, maxDist, ep, el(ep), c)
    requires forall x :: el(x)
    ensures Key(d, maxDist, ep, el(ep), c) > bound <==> Key(d, maxDist, ep, el(ep), c) > bound && |top| == ef
  {
    assert c in top ==> d(c) <= bound;
  }

  /** When the search stops early, every element of the result has been expanded. */
  lemma StopIsSafe(g: Layer, ep: nat, d: nat -> real, maxDist: real, ef: nat, el: nat -> bool,
                   visited: set<nat>, expanded: set<nat>, cand: set<nat>, top: set<nat>, c: nat, bound: real,
                   bare: bool)
    requires Sound(g, ep, d, ef, el, visited, expanded, cand, top)
    requires Followed(g, visited, expanded)
    requires top != {} ==> IsWorst(top, d, bound)
    requires IsClosest(cand, d, maxDist, ep, el(ep), c)
    requires bare ==> forall x :: el(x)
    requires Key(d, maxDist, ep, el(ep), c) > bound && (bare || |top| == ef) && ef > 0
    ensures |top| == ef
    ensures LocallyOptimal(g, d, ef, el, top)
    ensures el(ep) ==> ep in top || Beaten(top, d, ef, ep)
  {
    if bare {
      BareStopAgrees(g, ep, d, maxDist, ef, el, visited, expanded, cand, top, c, bound);
    }
    assert forall t :: t in top ==> Key(d, maxDist, ep, el(ep), t) <= bound;
    assert top !! cand;
  }

  /** When the queue runs dry the result is locally optimal, and complete if it never filled up. */
  lemma Exhausted(g: Layer, ep: nat, d: nat -> real, ef: nat, el: nat -> bool,
                  visited: set<nat>, expanded: set<nat>, top: set<nat>)
    requires Sound(g, ep, d, ef, el, visited, expanded, {}, top)
    requires Followed(g, visited, expanded)
    ensures LocallyOptimal(g, d, ef, el, top)
    ensures el(ep) ==> ep in top || Beaten(top, d, ef, ep)
    ensures |top| < ef ==> top == Findable(g, ep, el)
  {
    if |top| < ef {
      assert visited == expanded;
      ClosedSetHoldsReach(g, visited, ep);
      assert visited == ReachSet(g, ep);
    }
  }

  /**
    What a finished search guarantees about recall: take any walk from the entry point through eligible
    elements that never goes farther than `r` from the query. Either the whole walk ended up in the result,
    or the result is full of elements no farther than `r`.
   */
  lemma {:induction false} NearWalkIsFound(g: Layer, d: nat -> real, ef: nat, el: nat -> bool, top: set<nat>,
                                           p: seq<nat>, r: real, k: nat)
    requires IsWalk(g, p) && k < |p|
    requires Finished(g, p[0], d, ef, el, top)
    requires forall i :: 0 <= i < |p| ==> el(p[i]) && d(p[i]) <= r
    ensures p[k] in top || (|top| == ef && forall t :: t in top ==> d(t) <= r)
  {
    if k > 0 {
      NearWalkIsFound(g, d, ef, el, top, p, r, k - 1);
      assert p[k] in g[p[k - 1]];
    } else {
      assert d(p[0]) <= r;
    }
  }

  /** `s` holds the `k` elements of `r` closest to the query, or all of them if there are fewer. */
  ghost predicate IsNearest(s: set<nat>, r: set<nat>, d: nat -> real, k: nat) {
    && s <= r
    && |s| == (if |r| < k then |r| else k)
    && forall a, b :: a in s && b in r && b !in s ==> d(a) <= d(b)
  }

  /** A beam at least as wide as the set of findable elements finds all of them. */
  lemma WideBeamIsExact(g: Layer, ep: nat, d: nat -> real, ef: nat, el: nat -> bool, top: set<nat>)
    requires Finished(g, ep, d, ef, el, top)
    requires |Findable(g, ep, el)| <= ef
    ensures top == Findable(g, ep, el)
  {
    SubsetSize(top, Findable(g, ep, el));
  }

  /** Popping the worst element while more than `k` remain leaves the `k` closest. */
  method KeepNearest(h: set<nat>, d: nat -> real, k: nat) returns (s: set<nat>)
    ensures IsNearest(s, h, d, k)
  {
    s := h;
    while |s| > k
      invariant s <= h && (|s| >= k || s == h)
      invariant forall a, b :: a in s && b in h && b !in s ==> d(a) <= d(b)
    {
      GreatestExists(s, d);
      var m :| m in s && forall t :: t in s ==> d(t) <= d(m);
      s := s - {m};
    }
    SubsetSize(s, h);
  }
}
