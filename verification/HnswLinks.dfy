/** The layered link lists of the HNSW index and the operations that rewrite them. */
module HnswLinks {
  import opened Sequences
  import opened Graphs
  import opened Neighbors
  import BeamSearch

  /** For each element, one neighbour list per layer from 0 up to the element's level. */
  type Links = seq<seq<seq<nat>>>

  function Cap(m: nat, layer: nat): nat {
    if layer == 0 then 2 * m else m
  }

  predicate On(links: Links, i: nat, layer: nat) {
    i < |links| && layer < |links[i]|
  }

  /** What the index's own integrity check asks of one list, plus the capacity and level bounds. */
  ghost predicate GoodList(links: Links, m: nat, i: nat, layer: nat, s: seq<nat>) {
    && |s| <= (if layer == 0 then 2 * m else m)
    && Distinct(s)
    && forall j :: j in s ==> j != i && On(links, j, layer)
  }

  ghost predicate Intact(links: Links, m: nat) {
    && (forall i :: 0 <= i < |links| ==> |links[i]| > 0)
    && forall i, layer :: 0 <= i < |links| && 0 <= layer < |links[i]| ==> GoodList(links, m, i, layer, links[i][layer])
  }

  /** Same elements with the same levels. */
  ghost predicate SameShape(a: Links, b: Links) {
    |a| == |b| && forall i :: 0 <= i < |a| ==> |a[i]| == |b[i]|
  }

  function SetList(links: Links, i: nat, layer: nat, s: seq<nat>): Links
    requires On(links, i, layer)
  {
    links[i := links[i][layer := s]]
  }

  lemma SetListIsLocal(links: Links, i: nat, layer: nat, s: seq<nat>)
    requires On(links, i, layer)
    ensures SameShape(links, SetList(links, i, layer, s))
    ensures SetList(links, i, layer, s)[i][layer] == s
    ensures forall k: nat, l: nat ::
              On(links, k, l) && (k != i || l != layer) ==> SetList(links, i, layer, s)[k][l] == links[k][l]
  {
  }

  lemma GoodListKeepsShape(a: Links, b: Links, m: nat, i: nat, layer: nat, s: seq<nat>)
    requires SameShape(a, b) && GoodList(a, m, i, layer, s)
    ensures GoodList(b, m, i, layer, s)
  {
  }

  lemma SetListKeepsIntact(links: Links, m: nat, i: nat, layer: nat, s: seq<nat>)
    requires Intact(links, m) && On(links, i, layer) && GoodList(links, m, i, layer, s)
    ensures Intact(SetList(links, i, layer, s), m)
  {
    var links' := SetList(links, i, layer, s);
    SetListIsLocal(links, i, layer, s);
    forall k, l | 0 <= k < |links'| && 0 <= l < |links'[k]|
      ensures GoodList(links', m, k, l, links'[k][l])
    {
      assert On(links, k, l);
      GoodListKeepsShape(links, links', m, k, l, links'[k][l]);
    }
  }

  function LayerOf(links: Links, layer: nat): (g: Layer) {
    map i: nat | i < |links| && layer < |links[i]| :: links[i][layer]
  }

  lemma LayerIsClosed(links: Links, m: nat, layer: nat)
    requires Intact(links, m)
    ensures Closed(LayerOf(links, layer))
  {
    var g := LayerOf(links, layer);
    forall i, j | i in g && j in g[i]
      ensures j in g
    {
      assert GoodList(links, m, i, layer, links[i][layer]);
    }
  }

  /** Nobody on the layer links to `c`. */
  ghost predicate Unlinked(links: Links, c: nat, layer: nat) {
    forall i: nat :: On(links, i, layer) ==> c !in links[i][layer]
  }

  lemma UnlinkedIsUnreachable(links: Links, c: nat, layer: nat, start: nat)
    requires Unlinked(links, c, layer) && On(links, start, layer) && start != c
    requires Closed(LayerOf(links, layer))
    ensures c !in ReachSet(LayerOf(links, layer), start)
  {
    var g := LayerOf(links, layer);
    ClosedSetHoldsReach(g, g.Keys - {c}, start);
  }

  /** Distances to, and from, one element. */
  function DistTo(dd: (nat, nat) -> real, s: nat): nat -> real {
    (x: nat) => dd(x, s)
  }

  function DistFrom(dd: (nat, nat) -> real, s: nat): (d: nat -> real)
    ensures forall x :: d(x) == dd(s, x)
  {
    (x: nat) => dd(s, x)
  }

  /** The list of `s` after it was offered a link to `c`: kept, grown, or chosen anew among all of them. */
  ghost predicate Offered(before: seq<nat>, after: seq<nat>, dd: (nat, nat) -> real, s: nat, c: nat, cap: nat) {
    if c in before then after == before
    else if |before| < cap then after == before + [c]
    else IsSelection(Elems(after), {c} + Elems(before), DistTo(dd, s), dd, cap)
  }

  /** Offers the link `s -> c`: append while there is room, otherwise let the heuristic choose among all of them. */
  method Offer(links: Links, m: nat, dd: (nat, nat) -> real, s: nat, c: nat, layer: nat) returns (list: seq<nat>)
    requires Intact(links, m) && On(links, s, layer) && On(links, c, layer) && s != c
    ensures GoodList(links, m, s, layer, list)
    ensures Offered(links[s][layer], list, dd, s, c, Cap(m, layer))
  {
    list := links[s][layer];
    var cap := Cap(m, layer);
    assert GoodList(links, m, s, layer, list);
    if c in list {
      return;
    }
    if |list| < cap {
      list := list + [c];
    } else {
      var d := DistTo(dd, s);
      var cands := {c} + Elems(list);
      var kept := Select(cands, d, dd, cap);
      list := Drain(kept, d);
      assert Elems(list) == kept;
      assert forall j :: j in list ==> j in kept;
    }
  }

  /** The list of `i` on layer `l` is one that links to `x`. */
  ghost predicate Inbound(links: Links, x: nat, i: nat, l: nat) {
    On(links, i, l) && x in links[i][l]
  }

  ghost predicate HasInbound(links: Links, x: nat) {
    exists i: nat, l: nat :: Inbound(links, x, i, l)
  }

  /** The heuristic leaves `x` out of a full list of `s` that is offered `c`. */
  ghost predicate Drops(before: seq<nat>, dd: (nat, nat) -> real, s: nat, c: nat, cap: nat, x: nat) {
    && c !in before && |before| >= cap
    && exists kept :: IsSelection(kept, {c} + Elems(before), DistTo(dd, s), dd, cap) && x !in kept
  }

  /** An offer takes a link away exactly when the heuristic drops it. */
  lemma OfferDropsIff(before: seq<nat>, list: seq<nat>, dd: (nat, nat) -> real, s: nat, c: nat, cap: nat, x: nat)
    requires Offered(before, list, dd, s, c, cap) && x in before
    ensures x !in list <==> Drops(before, dd, s, c, cap, x)
  {
    if c !in before && |before| >= cap {
      var kept := Elems(list);
      assert x in kept <==> x in list;
      forall other | IsSelection(other, {c} + Elems(before), DistTo(dd, s), dd, cap) ensures other == kept {
        SelectionIsUnique(other, kept, {c} + Elems(before), DistTo(dd, s), dd, cap);
      }
    }
  }

  /** An offer leaves an element without inbound links exactly when it drops the only one. */
  lemma OfferOrphansIff(links: Links, dd: (nat, nat) -> real, s: nat, c: nat, layer: nat, cap: nat, list: seq<nat>,
                        x: nat)
    requires On(links, s, layer) && Offered(links[s][layer], list, dd, s, c, cap) && HasInbound(links, x)
    ensures !HasInbound(SetList(links, s, layer, list), x)
       <==> && (forall i: nat, l: nat :: Inbound(links, x, i, l) ==> i == s && l == layer)
            && Drops(links[s][layer], dd, s, c, cap, x)
  {
    var before, links' := links[s][layer], SetList(links, s, layer, list);
    SetListIsLocal(links, s, layer, list);
    var i: nat, l: nat :| Inbound(links, x, i, l);
    if x in before {
      OfferDropsIff(before, list, dd, s, c, cap, x);
    }
    if k: nat, e: nat :| Inbound(links, x, k, e) && !(k == s && e == layer) {
      assert Inbound(links', x, k, e);
    } else {
      assert x in before;
      assert x in list ==> Inbound(links', x, s, layer);
      forall k: nat, e: nat | Inbound(links', x, k, e) ensures k == s && e == layer {
        if k != s || e != layer {
          assert Inbound(links, x, k, e);
        }
      }
    }
  }

  /** The two link lists agree on one layer. */
  ghost predicate SameOn(a: Links, b: Links, layer: nat) {
    SameShape(a, b) && forall k: nat :: On(a, k, layer) ==> b[k][layer] == a[k][layer]
  }

  lemma SameLayer(a: Links, b: Links, layer: nat)
    requires SameOn(a, b, layer)
    ensures LayerOf(a, layer) == LayerOf(b, layer)
  {
  }

  /** Nothing but the lists on `layer` of `cur` and of the elements in `touched` changed. */
  ghost predicate OnlyTouched(a: Links, b: Links, layer: nat, cur: nat, touched: seq<nat>) {
    && SameShape(a, b)
    && forall k: nat, l: nat :: On(a, k, l) && !(l == layer && (k == cur || k in touched)) ==> b[k][l] == a[k][l]
  }

  lemma OtherLayersSame(a: Links, b: Links, layer: nat, cur: nat, touched: seq<nat>, l: nat)
    requires OnlyTouched(a, b, layer, cur, touched) && l != layer
    ensures SameOn(a, b, l)
  {
  }

  /** Each element of `touched` was offered a link to `cur`. */
  ghost predicate AllOffered(a: Links, b: Links, m: nat, dd: (nat, nat) -> real, layer: nat, cur: nat,
                             touched: seq<nat>) {
    forall k: nat :: k in touched && On(a, k, layer) && On(b, k, layer) ==>
      Offered(a[k][layer], b[k][layer], dd, k, cur, Cap(m, layer))
  }

  /**
    Gives `cur` a neighbour list on `layer` chosen from `cands` and offers each chosen neighbour the link back.
    Returns the new lists and the closest chosen neighbour, from which the layer below is entered.
   */
  method Connect(links: Links, m: nat, d: nat -> real, dd: (nat, nat) -> real, cur: nat, layer: nat, cands: set<nat>)
    returns (links': Links, next: nat)
    requires m > 0 && cands != {}
    requires Intact(links, m) && On(links, cur, layer)
    requires forall x :: x in cands ==> x != cur && On(links, x, layer)
    ensures Intact(links', m) && On(links', cur, layer)
    ensures OnlyTouched(links, links', layer, cur, links'[cur][layer])
    ensures AllOffered(links, links', m, dd, layer, cur, links'[cur][layer])
    ensures IsSelection(Elems(links'[cur][layer]), cands, d, dd, m)
    ensures IsDrain(links'[cur][layer], Elems(links'[cur][layer]), d) && links'[cur][layer] != []
    ensures next == links'[cur][layer][|links'[cur][layer]| - 1] && next in cands
  {
    var chosen := Select(cands, d, dd, m);
    var list := Drain(chosen, d);
    assert Elems(list) == chosen;
    assert forall x :: x in list <==> x in chosen;
    next := list[|list| - 1];
    SetListIsLocal(links, cur, layer, list);
    SetListKeepsIntact(links, m, cur, layer, list);
    links' := OfferAll(links, SetList(links, cur, layer, list), m, dd, cur, layer, list);
  }

  /** Offers the link back to each chosen neighbour in turn; `start` differs from `links` in the list of `cur` only. */
  method OfferAll(ghost links: Links, start: Links, m: nat, dd: (nat, nat) -> real, cur: nat, layer: nat,
                  list: seq<nat>)
    returns (links': Links)
    requires Intact(start, m) && On(links, cur, layer) && OnlyTouched(links, start, layer, cur, [])
    requires start[cur][layer] == list && Distinct(list) && forall x :: x in list ==> x != cur && On(links, x, layer)
    ensures Intact(links', m) && On(links', cur, layer) && links'[cur][layer] == list
    ensures OnlyTouched(links, links', layer, cur, list) && AllOffered(links, links', m, dd, layer, cur, list)
  {
    links' := start;
    var idx := 0;
    assert list[..0] == [];
    while idx < |list|
      invariant idx <= |list| && Intact(links', m)
      invariant OnlyTouched(links, links', layer, cur, list[..idx]) && links'[cur][layer] == list
      invariant AllOffered(links, links', m, dd, layer, cur, list[..idx])
    {
      var s := list[idx];
      assert s in list && s !in list[..idx];
      var offered := Offer(links', m, dd, s, cur, layer);
      SetListIsLocal(links', s, layer, offered);
      SetListKeepsIntact(links', m, s, layer, offered);
      var after := SetList(links', s, layer, offered);
      OfferStep(links, links', after, m, dd, layer, cur, list, idx);
      links' := after;
      idx := idx + 1;
    }
    assert list[..|list|] == list;
  }

  lemma OfferStep(links: Links, links': Links, after: Links, m: nat, dd: (nat, nat) -> real,
                  layer: nat, cur: nat, list: seq<nat>, idx: nat)
    requires idx < |list| && Distinct(list) && On(links, cur, layer) && list[idx] != cur && On(links, list[idx], layer)
    requires OnlyTouched(links, links', layer, cur, list[..idx])
    requires AllOffered(links, links', m, dd, layer, cur, list[..idx])
    requires SameShape(links', after)
    requires Offered(links'[list[idx]][layer], after[list[idx]][layer], dd, list[idx], cur, Cap(m, layer))
    requires forall k: nat, l: nat :: On(links', k, l) && (k != list[idx] || l != layer) ==> after[k][l] == links'[k][l]
    ensures OnlyTouched(links, after, layer, cur, list[..idx + 1])
    ensures AllOffered(links, after, m, dd, layer, cur, list[..idx + 1])
    ensures after[cur][layer] == links'[cur][layer]
  {
    assert list[..idx + 1] == list[..idx] + [list[idx]];
    assert list[idx] !in list[..idx];
  }

  /** The element, its neighbours on the layer, and theirs. */
  ghost function TwoHops(links: Links, id: nat, layer: nat): set<nat>
    requires On(links, id, layer)
  {
    set x: nat | x < |links| && (x == id || x in links[id][layer] || IsTwoHop(links, id, layer, x))
  }

  ghost predicate IsTwoHop(links: Links, id: nat, layer: nat, x: nat)
    requires On(links, id, layer)
  {
    exists h: nat :: h in links[id][layer] && On(links, h, layer) && x in links[h][layer]
  }

  /** The neighbour `n` of `id` got a fresh list, chosen from the closest elements at most two links away from `id`. */
  ghost predicate Relinked(links: Links, links': Links, m: nat, efc: nat, dd: (nat, nat) -> real, id: nat, layer: nat,
                           n: nat) {
    && On(links, id, layer) && On(links', n, layer)
    && exists close: set<nat> ::
         && BeamSearch.IsNearest(close, TwoHops(links, id, layer) - {n}, DistFrom(dd, n), efc)
         && IsSelection(Elems(links'[n][layer]), close, DistFrom(dd, n), dd, Cap(m, layer))
  }

  /** On the layer, exactly the neighbours of `id` got fresh lists. */
  ghost predicate RelinkedAround(links: Links, links': Links, m: nat, efc: nat, dd: (nat, nat) -> real, id: nat,
                                 layer: nat) {
    && SameShape(links, links') && On(links, id, layer)
    && (forall k: nat :: On(links, k, layer) && k !in links[id][layer] ==> links'[k][layer] == links[k][layer])
    && forall n :: n in links[id][layer] ==> Relinked(links, links', m, efc, dd, id, layer, n)
  }

  /** The candidates that the update collects: everything at most two links away. */
  method CollectTwoHops(links: Links, m: nat, id: nat, layer: nat) returns (sCand: set<nat>)
    requires Intact(links, m) && On(links, id, layer)
    ensures sCand == TwoHops(links, id, layer)
    ensures forall x :: x in sCand ==> On(links, x, layer)
  {
    var oneHop := links[id][layer];
    assert GoodList(links, m, id, layer, oneHop);
    sCand := {id} + Elems(oneHop);
    var i := 0;
    while i < |oneHop|
      invariant i <= |oneHop|
      invariant forall x :: x in sCand ==> On(links, x, layer)
      invariant forall x :: x in sCand <==>
                  || x == id || x in oneHop
                  || exists j :: 0 <= j < i && On(links, oneHop[j], layer) && x in links[oneHop[j]][layer]
    {
      var hop := oneHop[i];
      assert hop in oneHop && On(links, hop, layer);
      assert GoodList(links, m, hop, layer, links[hop][layer]);
      sCand := sCand + Elems(links[hop][layer]);
      i := i + 1;
    }
    forall x: nat
      ensures x in sCand <==> x in TwoHops(links, id, layer)
    {
      if IsTwoHop(links, id, layer, x) {
        var h: nat :| h in oneHop && On(links, h, layer) && x in links[h][layer];
        var j :| 0 <= j < |oneHop| && oneHop[j] == h;
      }
    }
  }

  /** What is left to do of an update on one layer. */
  ghost predicate Relinking(links: Links, links': Links, m: nat, efc: nat, dd: (nat, nat) -> real, id: nat,
                            layer: nat, todo: set<nat>) {
    && SameShape(links, links') && On(links, id, layer)
    && (forall k: nat, l: nat :: On(links, k, l) && !(l == layer && k in links[id][layer] && k !in todo) ==>
          links'[k][l] == links[k][l])
    && forall n :: n in links[id][layer] && n !in todo ==> Relinked(links, links', m, efc, dd, id, layer, n)
  }

  /**
    On one layer, gives every neighbour of `id` a fresh list chosen from the elements
    at most two links away from `id`, after the vector of `id` has changed.
   */
  method RelinkAround(links: Links, m: nat, efc: nat, dd: (nat, nat) -> real, id: nat, layer: nat)
    returns (links': Links)
    requires Intact(links, m) && On(links, id, layer)
    ensures Intact(links', m) && RelinkedAround(links, links', m, efc, dd, id, layer)
    ensures forall l: nat :: l != layer ==> SameOn(links, links', l)
  {
    links' := links;
    var sCand := CollectTwoHops(links, m, id, layer);
    var todo := Elems(links[id][layer]);
    while todo != {}
      invariant Intact(links', m) && Relinking(links, links', m, efc, dd, id, layer, todo)
      invariant forall x :: x in todo ==> x in links[id][layer]
    {
      var neigh :| neigh in todo;
      assert GoodList(links, m, id, layer, links[id][layer]);
      var list, close := FreshList(links, m, efc, dd, neigh, layer, sCand);
      GoodListKeepsShape(links, links', m, neigh, layer, list);
      SetListIsLocal(links', neigh, layer, list);
      SetListKeepsIntact(links', m, neigh, layer, list);
      RelinkStep(links, links', m, efc, dd, id, layer, todo, neigh, list, close);
      links' := SetList(links', neigh, layer, list);
      todo := todo - {neigh};
    }
  }

  method FreshList(links: Links, m: nat, efc: nat, dd: (nat, nat) -> real, neigh: nat, layer: nat, sCand: set<nat>)
    returns (list: seq<nat>, ghost close: set<nat>)
    requires forall x :: x in sCand ==> On(links, x, layer)
    ensures GoodList(links, m, neigh, layer, list)
    ensures BeamSearch.IsNearest(close, sCand - {neigh}, DistFrom(dd, neigh), efc)
    ensures IsSelection(Elems(list), close, DistFrom(dd, neigh), dd, Cap(m, layer))
  {
    var d := DistFrom(dd, neigh);
    var kept := BeamSearch.KeepNearest(sCand - {neigh}, d, efc);
    close := kept;
    var chosen := Select(kept, d, dd, Cap(m, layer));
    list := Drain(chosen, d);
    assert Elems(list) == chosen;
    assert forall x :: x in list ==> x in chosen;
  }

  lemma RelinkStep(links: Links, links': Links, m: nat, efc: nat, dd: (nat, nat) -> real, id: nat, layer: nat,
                   todo: set<nat>, neigh: nat, list: seq<nat>, close: set<nat>)
    requires Relinking(links, links', m, efc, dd, id, layer, todo) && On(links', neigh, layer)
    requires neigh in todo && neigh in links[id][layer]
    requires BeamSearch.IsNearest(close, TwoHops(links, id, layer) - {neigh}, DistFrom(dd, neigh), efc)
    requires IsSelection(Elems(list), close, DistFrom(dd, neigh), dd, Cap(m, layer))
    ensures Relinking(links, SetList(links', neigh, layer, list), m, efc, dd, id, layer, todo - {neigh})
  {
    var after := SetList(links', neigh, layer, list);
    SetListIsLocal(links', neigh, layer, list);
    forall n | n in links[id][layer] && n !in todo - {neigh}
      ensures Relinked(links, after, m, efc, dd, id, layer, n)
    {
      if n != neigh {
        assert Relinked(links, links', m, efc, dd, id, layer, n);
        assert after[n][layer] == links'[n][layer];
      }
    }
  }
}
