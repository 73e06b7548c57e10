/** The greedy walk of the HNSW index down to the layer where a beam search starts. */
module HnswDescent {
  import opened Graphs
  import opened HnswLinks

  ghost predicate LocalMinimum(g: Layer, d: nat -> real, c: nat) {
    c in g && forall y :: y in g[c] ==> d(c) <= d(y)
  }

  ghost function Closer(g: Layer, d: nat -> real, r: real): set<nat> {
    set x | x in g.Keys && d(x) < r
  }

  /** The element in hand after one pass over a list: every strictly closer one replaces it. */
  function Pass(list: seq<nat>, d: nat -> real, cur: nat): (best: nat)
    ensures best == cur || best in list
    ensures d(best) <= d(cur) && (best != cur ==> d(best) < d(cur))
    ensures forall y :: y in list ==> d(best) <= d(y)
  {
    if list == [] then cur
    else
      var n := |list| - 1;
      var best := Pass(list[..n], d, cur);
      assert list == list[..n] + [list[n]];
      if d(list[n]) < d(best) then list[n] else best
  }

  /** Where the greedy walk within one layer ends: passes until one of them finds nobody closer. */
  function Greedy(g: Layer, d: nat -> real, cur: nat): (end: nat)
    requires Closed(g) && cur in g
    ensures end in g
    decreases Closer(g, d, d(cur))
  {
    var next := Pass(g[cur], d, cur);
    if next == cur then cur
    else
      assert next in Closer(g, d, d(cur)) && next !in Closer(g, d, d(next));
      assert Closer(g, d, d(next)) <= Closer(g, d, d(cur));
      Greedy(g, d, next)
  }

  lemma {:induction false} GreedyEndsAtMinimum(g: Layer, d: nat -> real, cur: nat)
    requires Closed(g) && cur in g
    ensures LocalMinimum(g, d, Greedy(g, d, cur)) && d(Greedy(g, d, cur)) <= d(cur)
    decreases Closer(g, d, d(cur))
  {
    var next := Pass(g[cur], d, cur);
    if next != cur {
      assert next in Closer(g, d, d(cur)) && next !in Closer(g, d, d(next));
      assert Closer(g, d, d(next)) <= Closer(g, d, d(cur));
      GreedyEndsAtMinimum(g, d, next);
    }
  }

  /** Greedy descent within one layer: keep moving to a closer neighbour until a whole pass finds none. */
  method Descend(g: Layer, start: nat, d: nat -> real) returns (cur: nat)
    requires Closed(g) && start in g
    ensures cur == Greedy(g, d, start)
  {
    cur := start;
    var curDist := d(start);
    var changed := true;
    while changed
      invariant cur in g && curDist == d(cur)
      invariant Greedy(g, d, start) == if changed then Greedy(g, d, cur) else cur
      decreases Closer(g, d, curDist), changed
    {
      changed := false;
      ghost var before := cur;
      var list := g[cur];
      for i := 0 to |list|
        invariant cur == Pass(list[..i], d, before) && curDist == d(cur)
        invariant changed <==> cur != before
      {
        assert list[..i + 1][..i] == list[..i];
        var cand := list[i];
        if d(cand) < curDist {
          curDist, cur, changed := d(cand), cand, true;
        }
      }
      assert list[..|list|] == list;
      assert Closer(g, d, curDist) <= Closer(g, d, d(before));
      assert changed ==> cur in Closer(g, d, d(before)) && cur !in Closer(g, d, curDist);
    }
  }

  /** Layers on top of one another, lowest first: links stay inside each, and higher ones have fewer elements. */
  ghost predicate IsStack(layers: seq<Layer>) {
    forall i :: 0 <= i < |layers| ==> Closed(layers[i]) && (i > 0 ==> layers[i].Keys <= layers[i - 1].Keys)
  }

  /** Where the walk down through a stack of layers ends. */
  function Walk(layers: seq<Layer>, d: nat -> real, cur: nat): (end: nat)
    requires IsStack(layers) && (layers != [] ==> cur in layers[|layers| - 1])
    ensures if layers == [] then end == cur else end in layers[0]
  {
    if layers == [] then cur
    else
      var n := |layers| - 1;
      Walk(layers[..n], d, Greedy(layers[n], d, cur))
  }

  /** The walk ends at a local minimum of the lowest layer, and no farther than it started. */
  lemma {:induction false} WalkEndsAtMinimum(layers: seq<Layer>, d: nat -> real, cur: nat)
    requires IsStack(layers) && (layers != [] ==> cur in layers[|layers| - 1])
    ensures d(Walk(layers, d, cur)) <= d(cur)
    ensures layers != [] ==> LocalMinimum(layers[0], d, Walk(layers, d, cur))
  {
    if layers != [] {
      var n := |layers| - 1;
      GreedyEndsAtMinimum(layers[n], d, cur);
      WalkEndsAtMinimum(layers[..n], d, Greedy(layers[n], d, cur));
    }
  }

  /** The layers above `to`, up to `from`. */
  function LayersAbove(links: Links, from: nat, to: nat): (layers: seq<Layer>)
    requires to <= from
    ensures |layers| == from - to
    ensures forall i :: 0 <= i < |layers| ==> layers[i] == LayerOf(links, to + 1 + i)
  {
    seq(from - to, i requires 0 <= i < from - to => LayerOf(links, to + 1 + i))
  }

  lemma LayersAreStack(links: Links, m: nat, from: nat, to: nat)
    requires Intact(links, m) && to <= from
    ensures IsStack(LayersAbove(links, from, to))
    ensures forall i: nat :: to < from && On(links, i, from) ==> i in LayersAbove(links, from, to)[from - to - 1]
    ensures forall i: nat :: to < from && i in LayersAbove(links, from, to)[0] ==> On(links, i, to)
  {
    var layers := LayersAbove(links, from, to);
    forall i | 0 <= i < |layers|
      ensures Closed(layers[i]) && (i > 0 ==> layers[i].Keys <= layers[i - 1].Keys)
    {
      LayerIsClosed(links, m, to + 1 + i);
      assert i > 0 ==> layers[i - 1] == LayerOf(links, to + i);
    }
  }

  /** Where the walk from `cur` on layer `from` down to layer `to` ends. */
  function Descent(links: Links, m: nat, d: nat -> real, cur: nat, from: nat, to: nat): (end: nat)
    requires Intact(links, m) && On(links, cur, from) && to <= from
    ensures On(links, end, to)
  {
    LayersAreStack(links, m, from, to);
    Walk(LayersAbove(links, from, to), d, cur)
  }

  /** The walk ends at a local minimum of the layer above, and no farther than it started. */
  lemma DescentEndsAtMinimum(links: Links, m: nat, d: nat -> real, cur: nat, from: nat, to: nat)
    requires Intact(links, m) && On(links, cur, from) && to <= from
    ensures d(Descent(links, m, d, cur, from, to)) <= d(cur)
    ensures to < from ==> LocalMinimum(LayerOf(links, to + 1), d, Descent(links, m, d, cur, from, to))
    ensures to == from ==> Descent(links, m, d, cur, from, to) == cur
  {
    LayersAreStack(links, m, from, to);
    WalkEndsAtMinimum(LayersAbove(links, from, to), d, cur);
  }

  /** The loop over the layers, from the highest down. */
  method WalkDown(layers: seq<Layer>, d: nat -> real, cur: nat) returns (obj: nat)
    requires IsStack(layers) && (layers != [] ==> cur in layers[|layers| - 1])
    ensures obj == Walk(layers, d, cur)
  {
    obj := cur;
    var n := |layers|;
    assert layers[..n] == layers;
    while n > 0
      invariant n <= |layers| && (n > 0 ==> obj in layers[n - 1])
      invariant Walk(layers, d, cur) == Walk(layers[..n], d, obj)
    {
      assert layers[..n][..n - 1] == layers[..n - 1];
      obj := Descend(layers[n - 1], obj, d);
      n := n - 1;
    }
  }

  /** From the top layer down to just above `level`, move to a local minimum of each layer in turn. */
  method DescendTo(links: Links, m: nat, d: nat -> real, entry: nat, maxLevel: nat, level: nat) returns (obj: nat)
    requires Intact(links, m) && On(links, entry, maxLevel) && level <= maxLevel
    ensures obj == Descent(links, m, d, entry, maxLevel, level)
  {
    LayersAreStack(links, m, maxLevel, level);
    obj := WalkDown(LayersAbove(links, maxLevel, level), d, entry);
  }

  lemma {:induction false} PassSeesList(list: seq<nat>, d: nat -> real, e: nat -> real, cur: nat)
    requires d(cur) == e(cur) && forall x :: x in list ==> d(x) == e(x)
    ensures Pass(list, d, cur) == Pass(list, e, cur)
  {
    if list != [] {
      var n := |list| - 1;
      assert list == list[..n] + [list[n]];
      PassSeesList(list[..n], d, e, cur);
    }
  }

  lemma {:induction false} GreedySeesLayer(g: Layer, d: nat -> real, e: nat -> real, cur: nat)
    requires Closed(g) && cur in g && forall x :: x in g ==> d(x) == e(x)
    ensures Greedy(g, d, cur) == Greedy(g, e, cur)
    decreases Closer(g, d, d(cur))
  {
    PassSeesList(g[cur], d, e, cur);
    var next := Pass(g[cur], d, cur);
    if next != cur {
      assert next in Closer(g, d, d(cur)) && next !in Closer(g, d, d(next));
      assert Closer(g, d, d(next)) <= Closer(g, d, d(cur));
      GreedySeesLayer(g, d, e, next);
    }
  }

  lemma {:induction false} WalkSeesLayers(layers: seq<Layer>, d: nat -> real, e: nat -> real, cur: nat)
    requires IsStack(layers) && (layers != [] ==> cur in layers[|layers| - 1])
    requires forall i, x :: 0 <= i < |layers| && x in layers[i] ==> d(x) == e(x)
    ensures Walk(layers, d, cur) == Walk(layers, e, cur)
  {
    if layers != [] {
      var n := |layers| - 1;
      GreedySeesLayer(layers[n], d, e, cur);
      WalkSeesLayers(layers[..n], d, e, Greedy(layers[n], d, cur));
    }
  }

  /** The walk looks at distances of elements only. */
  lemma DescentSeesElements(links: Links, m: nat, d: nat -> real, e: nat -> real, cur: nat, from: nat, to: nat)
    requires Intact(links, m) && On(links, cur, from) && to <= from
    requires forall x: nat :: x < |links| ==> d(x) == e(x)
    ensures Descent(links, m, d, cur, from, to) == Descent(links, m, e, cur, from, to)
  {
    LayersAreStack(links, m, from, to);
    WalkSeesLayers(LayersAbove(links, from, to), d, e, cur);
  }

  /** The walk sees the layers above `to` only. */
  lemma DescentSeesUpperLayers(a: Links, b: Links, m: nat, d: nat -> real, cur: nat, from: nat, to: nat)
    requires Intact(a, m) && Intact(b, m) && On(a, cur, from) && On(b, cur, from) && to <= from
    requires LayersAbove(a, from, to) == LayersAbove(b, from, to)
    ensures Descent(a, m, d, cur, from, to) == Descent(b, m, d, cur, from, to)
  {
  }
}
