/** Walking down the layers of the HNSW index and wiring an element into them. */
module HnswInsert {
  import opened Sequences
  import opened Graphs
  import opened Neighbors
  import opened HnswLinks
  import opened HnswDescent
  import BeamSearch

  function Min(a: nat, b: nat): (m: nat)
    ensures m <= a && m <= b && (m == a || m == b)
  {
    if a < b then a else b
  }

  function Level(links: Links, i: nat): nat
    requires i < |links| && |links[i]| > 0
  {
    |links[i]| - 1
  }

  /** `entry` sits on the top layer and nothing sits higher. */
  ghost predicate Topped(links: Links, entry: nat, maxLevel: nat) {
    && entry < |links|
    && |links[entry]| == maxLevel + 1
    && forall i :: 0 <= i < |links| ==> |links[i]| <= maxLevel + 1
  }

  /** Whom the construction search may return. */
  function Live(deleted: set<nat>): nat -> bool {
    (i: nat) => i !in deleted
  }

  /** What the wiring of one element depends on: the limits, the distances, the entry point and the deleted elements. */
  datatype Build = Build(m: nat, efc: nat, d: nat -> real, dd: (nat, nat) -> real, entry: nat, deleted: set<nat>)

  /** `found` is what a search of the layer from `obj` returns. */
  ghost predicate IsFound(links: Links, b: Build, l: nat, obj: nat, found: set<nat>) {
    On(links, obj, l) && BeamSearch.Finished(LayerOf(links, l), obj, b.d, b.efc, Live(b.deleted), found)
  }

  method SearchLayer(links: Links, b: Build, maxDist: real, obj: nat, l: nat) returns (found: set<nat>)
    requires Intact(links, b.m) && On(links, obj, l) && b.efc > 0
    ensures IsFound(links, b, l, obj, found)
  {
    LayerIsClosed(links, b.m, l);
    var top, walk := BeamSearch.Search(LayerOf(links, l), obj, b.d, maxDist, b.efc, Live(b.deleted), false);
    found := top;
  }

  /** A search finds live elements of the layer, and at least one if it starts at one. */
  lemma FoundIsLive(links: Links, b: Build, l: nat, obj: nat, found: set<nat>)
    requires Intact(links, b.m) && IsFound(links, b, l, obj, found) && b.efc > 0
    ensures forall x :: x in found ==> On(links, x, l) && x !in b.deleted
    ensures obj !in b.deleted ==> found != {}
    ensures found == {} <==> ReachSet(LayerOf(links, l), obj) <= b.deleted
  {
    LayerIsClosed(links, b.m, l);
    ClosedSetHoldsReach(LayerOf(links, l), LayerOf(links, l).Keys, obj);
    if obj !in b.deleted {
      ReachesSelf(LayerOf(links, l), obj);
      assert Live(b.deleted)(obj);
    }
  }

  /**
    The candidates for an element's list: what was found besides itself, plus the entry point when that one is deleted.
   */
  ghost predicate IsPool(b: Build, found: set<nat>, self: nat, cands: set<nat>) {
    if b.entry in b.deleted then BeamSearch.IsNearest(cands, found - {self} + {b.entry}, b.d, b.efc)
    else cands == found - {self}
  }

  method Pool(b: Build, found: set<nat>, self: nat) returns (cands: set<nat>)
    ensures IsPool(b, found, self, cands)
  {
    cands := found - {self};
    if b.entry in b.deleted {
      cands := BeamSearch.KeepNearest(cands + {b.entry}, b.d, b.efc);
    }
  }

  /** The element `cur` has blank lists and nobody links to it on any layer up to `top`. */
  ghost predicate Blank(links: Links, cur: nat, top: int) {
    forall l: nat :: l <= top ==> Unlinked(links, cur, l)
  }

  /**
    The list of `cur` on the layer was chosen by the heuristic from the candidates, each chosen neighbour was offered
    the link back, and no other list of the layer changed.
   */
  ghost predicate IsConnected(links0: Links, links: Links, b: Build, cur: nat, l: nat, cands: set<nat>) {
    && SameShape(links0, links) && On(links0, cur, l)
    && links[cur][l] != [] && IsSelection(Elems(links[cur][l]), cands, b.d, b.dd, b.m)
    && IsDrain(links[cur][l], Elems(links[cur][l]), b.d)
    && AllOffered(links0, links, b.m, b.dd, l, cur, links[cur][l])
    && forall k: nat :: On(links0, k, l) && k != cur && k !in links[cur][l] ==> links[k][l] == links0[k][l]
  }

  /**
    One layer done, entered at `obj` and left at `next`: searched, connected with the candidates found, and left at
    the closest chosen neighbour. An update that finds nobody else changes nothing and leaves where it entered.
   */
  ghost predicate IsWired(links0: Links, links: Links, b: Build, cur: nat, l: nat, update: bool,
                          obj: nat, next: nat, found: set<nat>, cands: set<nat>) {
    && IsFound(links0, b, l, obj, found)
    && if update && found <= {cur} then SameOn(links0, links, l) && next == obj
       else
         && IsPool(b, found, cur, cands) && IsConnected(links0, links, b, cur, l, cands)
         && next == links[cur][l][|links[cur][l]| - 1]
  }

  ghost predicate WiredAt(links0: Links, links: Links, b: Build, cur: nat, l: nat, update: bool, obj: nat, next: nat) {
    exists found: set<nat>, cands: set<nat> :: IsWired(links0, links, b, cur, l, update, obj, next, found, cands)
  }

  /**
    The layers above `from`, up to `to`, are done; layer `l` was entered at `starts[l + 1]` and left at `starts[l]`.
   */
  ghost predicate Wired(links0: Links, links: Links, b: Build, cur: nat, from: int, to: nat, update: bool,
                        starts: seq<nat>) {
    && |starts| == to + 2
    && forall l: nat :: from < l <= to ==> WiredAt(links0, links, b, cur, l, update, starts[l + 1], starts[l])
  }

  /** All layers up to `top` are done, one entered where the one above was left, the highest where the descent ends. */
  ghost predicate WiredThrough(links0: Links, links: Links, b: Build, cur: nat, maxLevel: nat, top: nat, update: bool) {
    && Intact(links0, b.m) && On(links0, b.entry, maxLevel) && top <= maxLevel
    && exists starts: seq<nat> ::
         && Wired(links0, links, b, cur, -1, top, update, starts)
         && starts[top + 1] == Descent(links0, b.m, b.d, b.entry, maxLevel, top)
  }

  ghost predicate SameUpTo(links0: Links, links: Links, to: int) {
    forall l: nat :: l <= to ==> SameOn(links0, links, l)
  }

  ghost predicate SameFrom(links0: Links, links: Links, from: int) {
    forall l: nat :: l >= from ==> SameOn(links0, links, l)
  }

  /** A step changed one layer only. */
  ghost predicate SameBut(links: Links, links': Links, layer: nat) {
    forall l: nat :: l != layer ==> SameOn(links, links', l)
  }

  lemma SameChain(a: Links, b: Links, c: Links, l: nat)
    requires SameOn(a, b, l) && SameOn(b, c, l)
    ensures SameOn(a, c, l)
  {
  }

  lemma SameFlip(a: Links, b: Links, l: nat)
    requires SameOn(a, b, l)
    ensures SameOn(b, a, l) && SameOn(a, a, l) && SameOn(b, b, l)
  {
  }

  lemma SameUpToStep(links0: Links, links: Links, links': Links, l: nat)
    requires SameUpTo(links0, links, l) && SameBut(links, links', l)
    ensures SameUpTo(links0, links', l - 1)
  {
    forall k: nat | k <= l - 1 ensures SameOn(links0, links', k) {
      SameChain(links0, links, links', k);
    }
  }

  lemma SameFromStep(links0: Links, links: Links, links': Links, l: nat, from: nat)
    requires SameFrom(links0, links, from) && SameBut(links, links', l) && l < from
    ensures SameFrom(links0, links', from)
  {
    forall k: nat | k >= from ensures SameOn(links0, links', k) {
      SameChain(links0, links, links', k);
    }
  }

  /** Only what happens on the layer itself matters for its wiring. */
  lemma WiredElsewhere(a: Links, b: Links, a': Links, b': Links, c: Build, cur: nat, l: nat, update: bool, obj: nat,
                       next: nat)
    requires SameOn(a, a', l) && SameOn(b, b', l) && WiredAt(a, b, c, cur, l, update, obj, next)
    ensures WiredAt(a', b', c, cur, l, update, obj, next)
  {
    var found: set<nat>, cands: set<nat> :| IsWired(a, b, c, cur, l, update, obj, next, found, cands);
    SameLayer(a, a', l);
    assert IsFound(a', c, l, obj, found);
    if !(update && found <= {cur}) {
      ConnectedElsewhere(a, b, a', b', c, cur, l, cands);
    }
    assert IsWired(a', b', c, cur, l, update, obj, next, found, cands);
  }

  lemma ConnectedElsewhere(a: Links, b: Links, a': Links, b': Links, c: Build, cur: nat, l: nat, cands: set<nat>)
    requires SameOn(a, a', l) && SameOn(b, b', l) && IsConnected(a, b, c, cur, l, cands)
    ensures IsConnected(a', b', c, cur, l, cands)
  {
  }

  /** One more layer: the step from `links` to `links'` rewrites layer `l` only, and does it well. */
  lemma WireStep(links0: Links, links: Links, links': Links, b: Build, cur: nat, l: nat, to: nat, update: bool,
                 starts: seq<nat>, next: nat)
    requires l <= to && SameUpTo(links0, links, l) && Wired(links0, links, b, cur, l, to, update, starts)
    requires WiredAt(links, links', b, cur, l, update, starts[l + 1], next)
    requires SameBut(links, links', l) && SameShape(links, links')
    ensures SameUpTo(links0, links', l - 1) && Wired(links0, links', b, cur, l - 1, to, update, starts[l := next])
  {
    SameUpToStep(links0, links, links', l);
    var starts' := starts[l := next];
    forall k: nat | l - 1 < k <= to
      ensures WiredAt(links0, links', b, cur, k, update, starts'[k + 1], starts'[k])
    {
      if k == l {
        WiredHere(links0, links, links', b, cur, l, update, starts[l + 1], next);
      } else {
        WiredAbove(links0, links, links', b, cur, k, update, starts[k + 1], starts[k]);
      }
    }
  }

  lemma WiredHere(links0: Links, links: Links, links': Links, b: Build, cur: nat, l: nat, update: bool, obj: nat,
                  next: nat)
    requires SameOn(links0, links, l)
    requires WiredAt(links, links', b, cur, l, update, obj, next) && SameShape(links, links')
    ensures WiredAt(links0, links', b, cur, l, update, obj, next)
  {
    SameFlip(links0, links, l);
    assert SameOn(links', links', l);
    WiredElsewhere(links, links', links0, links', b, cur, l, update, obj, next);
  }

  lemma WiredAbove(links0: Links, links: Links, links': Links, b: Build, cur: nat, k: nat, update: bool, obj: nat,
                   next: nat)
    requires WiredAt(links0, links, b, cur, k, update, obj, next) && SameOn(links, links', k)
    ensures WiredAt(links0, links', b, cur, k, update, obj, next)
  {
    assert SameOn(links0, links0, k);
    WiredElsewhere(links0, links, links0, links', b, cur, k, update, obj, next);
  }

  /** The search from `obj` can return nobody, and the entry point is no stand-in. */
  ghost predicate Barren(links: Links, b: Build, l: nat, obj: nat) {
    b.entry !in b.deleted && ReachSet(LayerOf(links, l), obj) <= b.deleted
  }

  /**
    The search of the highest shared layer comes up empty: where the descent ends, only deleted elements can be reached.
   */
  ghost predicate FindsNobody(links: Links, b: Build, maxLevel: nat, top: nat)
    requires Intact(links, b.m) && On(links, b.entry, maxLevel) && top <= maxLevel
  {
    Barren(links, b, top, Descent(links, b.m, b.d, b.entry, maxLevel, top))
  }

  /** Connects `cur` on one layer and says what that means for the layer and for all others. */
  method ConnectLayer(links: Links, b: Build, cur: nat, l: nat, update: bool,
                      ghost obj: nat, ghost found: set<nat>, cands: set<nat>)
    returns (links': Links, next: nat)
    requires b.m > 0 && cands != {} && Intact(links, b.m) && On(links, cur, l)
    requires forall x :: x in cands ==> x != cur && On(links, x, l)
    requires IsFound(links, b, l, obj, found) && IsPool(b, found, cur, cands) && (update ==> !(found <= {cur}))
    ensures Intact(links', b.m) && WiredAt(links, links', b, cur, l, update, obj, next)
    ensures SameBut(links, links', l) && SameShape(links, links')
    ensures next in cands
  {
    links', next := Connect(links, b.m, b.d, b.dd, cur, l, cands);
    assert IsConnected(links, links', b, cur, l, cands);
    assert IsWired(links, links', b, cur, l, update, obj, next, found, cands);
    forall k: nat | k != l ensures SameOn(links, links', k) {
      OtherLayersSame(links, links', l, cur, links'[cur][l], k);
    }
  }

  /** The newest element has no list entry pointing at it yet, so no search finds it. */
  lemma NewestIsNotFound(links: Links, b: Build, cur: nat, l: nat, obj: nat, found: set<nat>)
    requires Intact(links, b.m) && Unlinked(links, cur, l) && obj != cur && IsFound(links, b, l, obj, found)
    ensures cur !in found
  {
    LayerIsClosed(links, b.m, l);
    UnlinkedIsUnreachable(links, cur, l, obj);
  }

  /** Candidates for the newest element: other elements of the layer, live ones and possibly the entry point. */
  lemma PoolIsUsable(links: Links, b: Build, cur: nat, l: nat, obj: nat, found: set<nat>, cands: set<nat>)
    requires Intact(links, b.m) && b.efc > 0 && On(links, b.entry, l) && b.entry != cur && obj != cur
    requires IsFound(links, b, l, obj, found) && IsPool(b, found, cur, cands) && cur !in found
    ensures forall x :: x in cands ==> x != cur && On(links, x, l)
    ensures forall x :: x in cands && x in b.deleted ==> x == b.entry
    ensures obj !in b.deleted || b.entry in b.deleted ==> cands != {}
    ensures cands == {} <==> b.entry !in b.deleted && ReachSet(LayerOf(links, l), obj) <= b.deleted
  {
    FoundIsLive(links, b, l, obj, found);
    assert found - {cur} == found;
    if b.entry in b.deleted {
      assert b.entry in found + {b.entry};
      assert |found + {b.entry}| > 0;
    }
  }

  /** One layer of the newest element. */
  method WireLayer(links: Links, b: Build, maxDist: real, cur: nat, l: nat, obj: nat)
    returns (ok: bool, links': Links, next: nat)
    requires b.m > 0 && b.efc > 0 && Intact(links, b.m) && Unlinked(links, cur, l)
    requires On(links, cur, l) && On(links, b.entry, l) && On(links, obj, l) && b.entry != cur && obj != cur
    ensures ok <==> !Barren(links, b, l, obj)
    ensures obj !in b.deleted || b.entry in b.deleted ==> ok
    ensures !ok ==> links' == links
    ensures ok ==> Intact(links', b.m) && SameShape(links, links') && SameBut(links, links', l)
    ensures ok ==> WiredAt(links, links', b, cur, l, false, obj, next) && next != cur && On(links', next, l)
    ensures ok ==> next !in b.deleted || b.entry in b.deleted
  {
    var found := SearchLayer(links, b, maxDist, obj, l);
    NewestIsNotFound(links, b, cur, l, obj, found);
    var cands := Pool(b, found, cur);
    PoolIsUsable(links, b, cur, l, obj, found, cands);
    ok, links', next := cands != {}, links, obj;
    if ok {
      links', next := ConnectLayer(links, b, cur, l, false, obj, found, cands);
    }
  }

  /**
    Wires the newest element `cur`, already present with blank lists, into all layers it shares with the others.
    `ok` is false when a layer offers no candidate at all, where the source reads the last entry of an empty vector.
   */
  method Wire(links0: Links, b: Build, maxDist: real, cur: nat, curLevel: nat, maxLevel: nat)
    returns (ok: bool, links: Links)
    requires b.m > 0 && b.efc > 0
    requires Intact(links0, b.m) && |links0| == cur + 1 && |links0[cur]| == curLevel + 1
    requires Topped(links0[..cur], b.entry, maxLevel)
    requires Blank(links0, cur, maxLevel)
    ensures Intact(links, b.m) && SameShape(links0, links)
    ensures ok <==> !FindsNobody(links0, b, maxLevel, Min(curLevel, maxLevel))
    ensures if ok then WiredThrough(links0, links, b, cur, maxLevel, Min(curLevel, maxLevel), false)
            else links == links0
  {
    var top := Min(curLevel, maxLevel);
    var first := DescendTo(links0, b.m, b.d, b.entry, maxLevel, top);
    assert links0[..cur][b.entry] == links0[b.entry];
    ghost var starts;
    ok, links, starts := WireFrom(links0, b, maxDist, cur, top, first);
  }

  /** What holds before the round for layer `level`, which will be entered at `obj`; only the first can be barren. */
  ghost predicate Wiring(links0: Links, links: Links, b: Build, cur: nat, level: int, top: nat, obj: nat,
                         starts: seq<nat>) {
    && -1 <= level <= top
    && Intact(links, b.m) && SameShape(links0, links) && SameUpTo(links0, links, level)
    && Wired(links0, links, b, cur, level, top, false, starts) && starts[level + 1] == obj
    && obj != cur && (level >= 0 ==> On(links, obj, level))
    && if level == top then links == links0 else obj !in b.deleted || b.entry in b.deleted
  }

  /** The loop over the layers from `top` down, the highest entered at `first`. */
  method WireFrom(links0: Links, b: Build, maxDist: real, cur: nat, top: nat, first: nat)
    returns (ok: bool, links: Links, ghost starts: seq<nat>)
    requires b.m > 0 && b.efc > 0 && Intact(links0, b.m) && Blank(links0, cur, top)
    requires On(links0, cur, top) && On(links0, b.entry, top)
    requires On(links0, first, top) && b.entry != cur && first != cur
    ensures Intact(links, b.m) && SameShape(links0, links)
    ensures ok <==> !Barren(links0, b, top, first)
    ensures !ok ==> links == links0
    ensures ok ==> Wired(links0, links, b, cur, -1, top, false, starts) && starts[top + 1] == first
  {
    links := links0;
    var level: int := top;
    var obj := first;
    starts := seq(top + 2, _ => first);
    ghost var barren := Barren(links0, b, top, first);
    while level >= 0
      invariant Wiring(links0, links, b, cur, level, top, obj, starts)
      invariant starts[top + 1] == first && (level < top ==> !barren)
    {
      var links', next;
      ok, links', next := WireRound(links0, links, b, maxDist, cur, level, obj, top, starts);
      if !ok {
        return;
      }
      links, obj, starts, level := links', next, starts[level := next], level - 1;
    }
    ok := true;
  }

  /** One round of that loop. */
  method WireRound(ghost links0: Links, links: Links, b: Build, maxDist: real, cur: nat, l: nat, obj: nat,
                   ghost top: nat, ghost starts: seq<nat>)
    returns (ok: bool, links': Links, next: nat)
    requires b.m > 0 && b.efc > 0 && Blank(links0, cur, top)
    requires On(links0, cur, top) && On(links0, b.entry, top) && b.entry != cur
    requires Wiring(links0, links, b, cur, l, top, obj, starts)
    ensures l == top ==> ok == !Barren(links0, b, top, obj)
    ensures l < top ==> ok
    ensures ok ==> Wiring(links0, links', b, cur, l - 1, top, next, starts[l := next])
  {
    StillUnlinked(links0, links, cur, l);
    ok, links', next := WireLayer(links, b, maxDist, cur, l, obj);
    if ok {
      WireStep(links0, links, links', b, cur, l, top, false, starts, next);
    }
  }

  lemma StillUnlinked(links0: Links, links: Links, cur: nat, l: nat)
    requires SameOn(links0, links, l) && Unlinked(links0, cur, l)
    ensures Unlinked(links, cur, l)
  {
  }

  /** After its vector changed, wires `id` afresh on each of its layers, skipping layers that offer nobody else. */
  method Rewire(links0: Links, b: Build, maxDist: real, id: nat, maxLevel: nat) returns (links: Links)
    requires b.m > 0 && b.efc > 0
    requires Intact(links0, b.m) && Topped(links0, b.entry, maxLevel) && id < |links0| && id !in b.deleted
    ensures Intact(links, b.m) && SameShape(links0, links)
    ensures WiredThrough(links0, links, b, id, maxLevel, Level(links0, id), true)
    ensures SameFrom(links0, links, |links0[id]|)
  {
    links := links0;
    var top := Level(links, id);
    var obj := DescendTo(links, b.m, b.d, b.entry, maxLevel, top);
    var level: int := top;
    ghost var starts := seq(top + 2, _ => obj);
    while level >= 0
      invariant -1 <= level <= top
      invariant Intact(links, b.m) && SameShape(links0, links) && SameUpTo(links0, links, level)
      invariant Wired(links0, links, b, id, level, top, true, starts) && starts[level + 1] == obj
      invariant starts[top + 1] == Descent(links0, b.m, b.d, b.entry, maxLevel, top)
      invariant SameFrom(links0, links, top + 1)
      invariant level >= 0 ==> On(links, obj, level)
    {
      assert On(links, b.entry, level);
      var links', next := RewireLayer(links, b, maxDist, id, level, obj);
      WireStep(links0, links, links', b, id, level, top, true, starts, next);
      SameFromStep(links0, links, links', level, top + 1);
      links, obj, starts, level := links', next, starts[level := next], level - 1;
    }
  }

  method RewireLayer(links: Links, b: Build, maxDist: real, id: nat, l: nat, obj: nat)
    returns (links': Links, next: nat)
    requires b.m > 0 && b.efc > 0 && Intact(links, b.m) && id !in b.deleted
    requires On(links, id, l) && On(links, b.entry, l) && On(links, obj, l)
    ensures Intact(links', b.m) && SameShape(links, links') && SameBut(links, links', l)
    ensures WiredAt(links, links', b, id, l, true, obj, next) && On(links', next, l)
  {
    var found := SearchLayer(links, b, maxDist, obj, l);
    if found <= {id} {
      links', next := links, obj;
      assert IsWired(links, links', b, id, l, true, obj, next, found, {});
    } else {
      var cands := Pool(b, found, id);
      UpdatePoolIsUsable(links, b, id, l, obj, found, cands);
      links', next := ConnectLayer(links, b, id, l, true, obj, found, cands);
    }
  }

  lemma UpdatePoolIsUsable(links: Links, b: Build, id: nat, l: nat, obj: nat, found: set<nat>, cands: set<nat>)
    requires Intact(links, b.m) && b.efc > 0 && On(links, b.entry, l) && id !in b.deleted
    requires IsFound(links, b, l, obj, found) && IsPool(b, found, id, cands) && !(found <= {id})
    ensures cands != {} && forall x :: x in cands ==> x != id && On(links, x, l)
  {
    FoundIsLive(links, b, l, obj, found);
    var other :| other in found && other != id;
    assert other in found - {id};
    assert |found - {id} + {b.entry}| > 0;
  }

  /** An element's move: fresh lists around it on each of its layers, then fresh wiring of the element itself. */
  ghost predicate Moved(links0: Links, links: Links, b: Build, id: nat, maxLevel: nat) {
    exists mid: Links :: MovedVia(links0, mid, links, b, id, maxLevel)
  }

  /** The lists follow a changed vector: nothing to do for a lone element, otherwise the element moved. */
  ghost predicate MovedOrLone(links0: Links, links: Links, b: Build, id: nat, maxLevel: nat) {
    if b.entry == id && |links0| == 1 then links == links0 else Moved(links0, links, b, id, maxLevel)
  }

  ghost predicate MovedVia(links0: Links, mid: Links, links: Links, b: Build, id: nat, maxLevel: nat) {
    && id < |links0| && |links0[id]| > 0 && SameShape(links0, mid)
    && RelinkedUpTo(links0, mid, b, id, |links0[id]|)
    && WiredThrough(mid, links, b, id, maxLevel, Level(links0, id), true)
    && SameFrom(links0, links, |links0[id]|)
  }

  ghost predicate RelinkedUpTo(links0: Links, links: Links, b: Build, id: nat, n: nat) {
    forall l: nat :: l < n ==> RelinkedAround(links0, links, b.m, b.efc, b.dd, id, l)
  }

  lemma RelinkedElsewhere(a: Links, x: Links, a': Links, x': Links, m: nat, efc: nat, dd: (nat, nat) -> real, id: nat,
                          l: nat)
    requires SameOn(a, a', l) && SameOn(x, x', l) && RelinkedAround(a, x, m, efc, dd, id, l)
    ensures RelinkedAround(a', x', m, efc, dd, id, l)
  {
    assert TwoHops(a, id, l) == TwoHops(a', id, l);
    forall n | n in a'[id][l]
      ensures Relinked(a', x', m, efc, dd, id, l, n)
    {
      assert Relinked(a, x, m, efc, dd, id, l, n);
    }
  }

  method Move(links0: Links, b: Build, maxDist: real, id: nat, maxLevel: nat) returns (links: Links)
    requires b.m > 0 && b.efc > 0
    requires Intact(links0, b.m) && Topped(links0, b.entry, maxLevel) && id < |links0| && id !in b.deleted
    ensures Intact(links, b.m) && SameShape(links0, links)
    ensures MovedOrLone(links0, links, b, id, maxLevel)
  {
    links := links0;
    if b.entry == id && |links| == 1 {
      return;
    }
    var layer := 0;
    while layer <= Level(links0, id)
      invariant layer <= Level(links0, id) + 1 && Intact(links, b.m) && SameShape(links0, links)
      invariant SameFrom(links0, links, layer) && RelinkedUpTo(links0, links, b, id, layer)
    {
      var links' := RelinkAround(links, b.m, b.efc, b.dd, id, layer);
      RelinkedStep(links0, links, links', b, id, layer);
      links, layer := links', layer + 1;
    }
    ghost var mid := links;
    links := Rewire(links, b, maxDist, id, maxLevel);
    forall l: nat | l >= |links0[id]| ensures SameOn(links0, links, l) {
      SameChain(links0, mid, links, l);
    }
    assert MovedVia(links0, mid, links, b, id, maxLevel);
  }

  lemma RelinkedStep(links0: Links, links: Links, links': Links, b: Build, id: nat, layer: nat)
    requires SameFrom(links0, links, layer) && RelinkedUpTo(links0, links, b, id, layer)
    requires RelinkedAround(links, links', b.m, b.efc, b.dd, id, layer) && SameBut(links, links', layer)
    ensures SameFrom(links0, links', layer + 1) && RelinkedUpTo(links0, links', b, id, layer + 1)
  {
    forall l: nat | l >= layer + 1 ensures SameOn(links0, links', l) {
      SameChain(links0, links, links', l);
    }
    forall l: nat | l <= layer
      ensures RelinkedAround(links0, links', b.m, b.efc, b.dd, id, l)
    {
      if l == layer {
        RelinkedHere(links0, links, links', b, id, l);
      } else {
        RelinkedBelow(links0, links, links', b, id, l);
      }
    }
  }

  lemma RelinkedHere(links0: Links, links: Links, links': Links, b: Build, id: nat, l: nat)
    requires SameOn(links0, links, l) && RelinkedAround(links, links', b.m, b.efc, b.dd, id, l)
    ensures RelinkedAround(links0, links', b.m, b.efc, b.dd, id, l)
  {
    SameFlip(links0, links, l);
    assert SameOn(links', links', l);
    RelinkedElsewhere(links, links', links0, links', b.m, b.efc, b.dd, id, l);
  }

  lemma RelinkedBelow(links0: Links, links: Links, links': Links, b: Build, id: nat, l: nat)
    requires RelinkedAround(links0, links, b.m, b.efc, b.dd, id, l) && SameOn(links, links', l)
    ensures RelinkedAround(links0, links', b.m, b.efc, b.dd, id, l)
  {
    assert SameOn(links0, links0, l);
    RelinkedElsewhere(links0, links, links0, links', b.m, b.efc, b.dd, id, l);
  }
}
