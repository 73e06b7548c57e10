/** The HNSW index: insertion, update, deletion marks, replacement of deleted elements, and the k-nearest search. */
module Hnsw {
  import opened Sequences
  import opened Graphs
  import opened HnswLinks
  import opened HnswDescent
  import opened HnswInsert
  import opened BeamSearch

  datatype AddResult =
    | Added(id: nat)
    | Updated(id: nat)
    | Replaced(id: nat)
    | IndexFull
    | LabelIsDeleted
    | ReplacementDisabled
    | NoCandidates

  datatype MarkResult = Marked | LabelNotFound | AlreadySo

  /** Labels and internal identifiers name each other one to one. */
  ghost predicate LabelsMatch(labels: seq<nat>, lookup: map<nat, nat>) {
    && (forall i :: 0 <= i < |labels| ==> labels[i] in lookup && lookup[labels[i]] == i)
    && forall x :: x in lookup ==> lookup[x] < |labels| && labels[lookup[x]] == x
  }

  /** Handing the slot `id` to a new label. */
  function Relabel(labels: seq<nat>, lookup: map<nat, nat>, id: nat, lbl: nat): (r: (seq<nat>, map<nat, nat>))
    requires id < |labels|
  {
    (labels[id := lbl], (lookup - {labels[id]})[lbl := id])
  }

  /** Relabelling keeps the one-to-one naming exactly when no other element already carries the new label. */
  lemma RelabelKeepsMatch(labels: seq<nat>, lookup: map<nat, nat>, id: nat, lbl: nat)
    requires LabelsMatch(labels, lookup) && id < |labels|
    ensures LabelsMatch(Relabel(labels, lookup, id, lbl).0, Relabel(labels, lookup, id, lbl).1)
       <==> (lbl in lookup ==> lookup[lbl] == id)
  {
    var (labels', lookup') := Relabel(labels, lookup, id, lbl);
    if lbl in lookup && lookup[lbl] != id {
      var other := lookup[lbl];
      assert labels'[other] == lbl && lookup'[lbl] != other;
    }
  }

  function ToQuery<V>(dist: (V, V) -> real, vecs: seq<V>, q: V): nat -> real {
    (i: nat) => if i < |vecs| then dist(q, vecs[i]) else 0.0
  }

  function Pairwise<V>(dist: (V, V) -> real, vecs: seq<V>): (nat, nat) -> real {
    (i: nat, j: nat) => if i < |vecs| && j < |vecs| then dist(vecs[i], vecs[j]) else 0.0
  }

  /** The blank lists of an element of the given level. */
  function BlankLists(level: nat): seq<seq<nat>> {
    seq(level + 1, _ => [])
  }

  function Max(a: nat, b: nat): (m: nat)
    ensures m >= a && m >= b && (m == a || m == b)
  {
    if a > b then a else b
  }

  /** Whom a search may return: live elements whose label passes the filter, if there is one. */
  function Wanted(deleted: set<nat>, labels: seq<nat>, filtered: bool, allowed: nat -> bool): nat -> bool {
    (i: nat) => i !in deleted && (!filtered || (i < |labels| && allowed(labels[i])))
  }

  /** `res` lists the kept elements as pairs of distance and label, each once. */
  ghost predicate Answers<V>(res: set<(real, nat)>, kept: set<nat>, dist: (V, V) -> real, vecs: seq<V>,
                             labels: seq<nat>, q: V) {
    && |vecs| == |labels|
    && (forall i :: i in kept ==> i < |vecs| && (dist(q, vecs[i]), labels[i]) in res)
    && (forall p :: p in res ==> exists i :: i in kept && i < |vecs| && p == (dist(q, vecs[i]), labels[i]))
    && |res| == |kept|
  }

  function Report<V>(ids: set<nat>, dist: (V, V) -> real, vecs: seq<V>, labels: seq<nat>, q: V): set<(real, nat)>
    requires |vecs| == |labels| && forall i :: i in ids ==> i < |vecs|
  {
    set i | i in ids :: (dist(q, vecs[i]), labels[i])
  }

  lemma ReportInsert<V>(rest: set<nat>, x: nat, dist: (V, V) -> real, vecs: seq<V>, labels: seq<nat>, q: V)
    requires |vecs| == |labels| && x < |vecs| && forall i :: i in rest ==> i < |vecs|
    ensures Report(rest + {x}, dist, vecs, labels, q)
         == Report(rest, dist, vecs, labels, q) + {(dist(q, vecs[x]), labels[x])}
  {
  }

  /** Labels being distinct, no two elements give the same pair. */
  lemma {:induction false} ReportSize<V>(ids: set<nat>, dist: (V, V) -> real, vecs: seq<V>, labels: seq<nat>, q: V)
    requires |vecs| == |labels| && forall i :: i in ids ==> i < |vecs|
    requires Distinct(labels)
    ensures |Report(ids, dist, vecs, labels, q)| == |ids|
  {
    if ids != {} {
      var x :| x in ids;
      var rest := ids - {x};
      assert ids == rest + {x};
      ReportSize(rest, dist, vecs, labels, q);
      ReportInsert(rest, x, dist, vecs, labels, q);
      forall i | i in rest ensures (dist(q, vecs[i]), labels[i]) != (dist(q, vecs[x]), labels[x]) {
        assert labels[i] != labels[x] by {
          assert i < x || x < i;
        }
      }
    }
  }

  lemma ReportAnswers<V>(ids: set<nat>, dist: (V, V) -> real, vecs: seq<V>, labels: seq<nat>, q: V)
    requires |vecs| == |labels| && forall i :: i in ids ==> i < |vecs|
    requires Distinct(labels)
    ensures Answers(Report(ids, dist, vecs, labels, q), ids, dist, vecs, labels, q)
  {
    ReportSize(ids, dist, vecs, labels, q);
    forall i | i in ids ensures i < |vecs| && (dist(q, vecs[i]), labels[i]) in Report(ids, dist, vecs, labels, q) {
    }
  }

  /** The element is not marked as deleted, and its label passes the filter, if there is one. */
  ghost predicate MayAnswer(labels: seq<nat>, deleted: set<nat>, filtered: bool, allowed: nat -> bool, i: nat) {
    i < |labels| && i !in deleted && (filtered ==> allowed(labels[i]))
  }

  /** The beam holds elements within reach that may answer, and all of them if it is not full. */
  ghost predicate IsBeam(links: Links, labels: seq<nat>, deleted: set<nat>, filtered: bool, allowed: nat -> bool,
                         start: nat, width: nat, beam: set<nat>) {
    && |beam| <= width
    && (forall i :: i in beam ==>
          MayAnswer(labels, deleted, filtered, allowed, i) && Reaches(LayerOf(links, 0), start, i))
    && (|beam| < width ==>
          forall i :: MayAnswer(labels, deleted, filtered, allowed, i) && Reaches(LayerOf(links, 0), start, i) ==>
            i in beam)
  }

  ghost predicate NoneIsFarther<V>(vecs: seq<V>, dist: (V, V) -> real, q: V, s: set<nat>, j: nat) {
    j < |vecs| && forall i :: i in s && i < |vecs| ==> dist(q, vecs[i]) <= dist(q, vecs[j])
  }

  /** A neighbour of the beam that may answer is in it, or at least as far away as all of it. */
  ghost predicate IsLocallyBest<V>(links: Links, vecs: seq<V>, labels: seq<nat>, deleted: set<nat>,
                                   dist: (V, V) -> real, q: V, filtered: bool, allowed: nat -> bool, beam: set<nat>) {
    forall i, j ::
      i in beam && On(links, i, 0) && j in links[i][0] && MayAnswer(labels, deleted, filtered, allowed, j) ==>
      j in beam || NoneIsFarther(vecs, dist, q, beam, j)
  }

  /** The kept elements are `k` closest ones of the beam, or all of it. */
  ghost predicate IsKept<V>(vecs: seq<V>, dist: (V, V) -> real, q: V, beam: set<nat>, kept: set<nat>, k: nat) {
    && kept <= beam && (|kept| == k || (kept == beam && |beam| <= k))
    && forall j :: j in beam && j !in kept ==> NoneIsFarther(vecs, dist, q, kept, j)
  }

  lemma BeamIsBest<V>(links: Links, vecs: seq<V>, labels: seq<nat>, deleted: set<nat>, dist: (V, V) -> real, q: V,
                      filtered: bool, allowed: nat -> bool, start: nat, width: nat, beam: set<nat>)
    requires |vecs| == |labels| == |links| && forall i :: 0 <= i < |links| ==> |links[i]| > 0
    requires Finished(LayerOf(links, 0), start, ToQuery(dist, vecs, q), width,
                      Wanted(deleted, labels, filtered, allowed), beam)
    ensures IsBeam(links, labels, deleted, filtered, allowed, start, width, beam)
    ensures IsLocallyBest(links, vecs, labels, deleted, dist, q, filtered, allowed, beam)
  {
    var g, d, el := LayerOf(links, 0), ToQuery(dist, vecs, q), Wanted(deleted, labels, filtered, allowed);
    BeamHoldsReached(g, start, d, width, el, beam);
    forall i, j | i in beam && On(links, i, 0) && j in links[i][0] && MayAnswer(labels, deleted, filtered, allowed, j)
      ensures j in beam || NoneIsFarther(vecs, dist, q, beam, j)
    {
      assert i in g && j in g[i] && el(j);
    }
  }

  lemma NearestIsKept<V>(vecs: seq<V>, dist: (V, V) -> real, q: V, beam: set<nat>, kept: set<nat>, k: nat)
    requires IsNearest(kept, beam, ToQuery(dist, vecs, q), k) && forall i :: i in beam ==> i < |vecs|
    ensures IsKept(vecs, dist, q, beam, kept, k)
  {
    SubsetSize(kept, beam);
  }

  class Index<V> {
    const dist: (V, V) -> real
    const maxDist: real
    const maxElements: nat
    const m: nat
    const efc: nat
    const allowReplace: bool
    var ef: nat
    var vecs: seq<V>
    var labels: seq<nat>
    var links: Links
    var entry: nat
    var maxLevel: int
    var deleted: set<nat>
    var numDeleted: nat
    var vacant: set<nat>
    var lookup: map<nat, nat>

    /** The link lists are intact and the deletion records agree. */
    ghost predicate Stored()
      reads this
    {
      && m > 0 && efc >= m
      && |vecs| == |labels| == |links| <= maxElements
      && Intact(links, m)
      && (forall i :: i in deleted ==> i < |links|)
      && numDeleted == |deleted|
      && vacant == (if allowReplace then deleted else {})
    }

    /** Everything but the naming: the stored elements are in order and the entry point tops them. */
    ghost predicate Sane()
      reads this
    {
      Stored() && if links == [] then maxLevel == -1 else maxLevel >= 0 && Topped(links, entry, maxLevel)
    }

    ghost predicate Valid()
      reads this
    {
      Sane() && LabelsMatch(labels, lookup)
    }

    constructor (dist: (V, V) -> real, maxDist: real, maxElements: nat, m: nat, efConstruction: nat, allowReplace: bool)
      ensures Valid() <==> m > 0
      ensures vecs == [] && labels == [] && links == [] && deleted == {} && lookup == map[] && ef == 10
      ensures this.dist == dist && this.maxDist == maxDist
      ensures this.maxElements == maxElements && this.allowReplace == allowReplace
      ensures this.m == Min(m, 10000) && efc == Max(efConstruction, Min(m, 10000))
    {
      this.dist, this.maxDist, this.maxElements, this.allowReplace := dist, maxDist, maxElements, allowReplace;
      var cap := if m <= 10000 then m else 10000;
      this.m := cap;
      efc := if efConstruction > cap then efConstruction else cap;
      ef := 10;
      vecs, labels, links := [], [], [];
      entry, maxLevel := 0, -1;
      deleted, numDeleted, vacant, lookup := {}, 0, {}, map[];
    }

    /** Puts an element with blank lists and no vector yet known to the others into the next free slot. */
    method Append(vec: V, lbl: nat, level: nat) returns (id: nat)
      requires Valid() && lbl !in lookup && |links| < maxElements
      modifies `vecs, `labels, `links, `lookup
      ensures id == old(|links|)
      ensures vecs == old(vecs) + [vec] && labels == old(labels) + [lbl] && lookup == old(lookup)[lbl := id]
      ensures links == old(links) + [BlankLists(level)]
      ensures Stored() && LabelsMatch(labels, lookup)
    {
      id := |links|;
      AppendKeepsIntact(links, m, level, level + maxLevel + 1);
      vecs, labels, lookup := vecs + [vec], labels + [lbl], lookup[lbl := id];
      links := links + [BlankLists(level)];
    }

    /** Gives the live element `id` a new vector and wires it afresh. */
    method UpdatePoint(vec: V, id: nat)
      requires Sane() && id < |links| && id !in deleted
      modifies `vecs, `links
      ensures Sane()
      ensures vecs == old(vecs)[id := vec] && SameShape(old(links), links)
      ensures MovedOrLone(old(links), links, Building(vec), id, maxLevel)
    {
      vecs := vecs[id := vec];
      links := Move(links, Building(vec), maxDist, id, maxLevel);
    }

    /** The wiring of an element with the given vector depends on this. */
    function Building(vec: V): Build
      reads this
    {
      Build(m, efc, ToQuery(dist, vecs, vec), Pairwise(dist, vecs), entry, deleted)
    }

    /** A new element of the given level would find no neighbour at all. */
    ghost predicate Stranded(vec: V, level: nat)
      requires Sane() && links != []
      reads this
    {
      FindsNobody(links, Building(vec), maxLevel, Min(level, maxLevel))
    }

    method Unmark(id: nat)
      requires Sane() && id in deleted
      modifies `deleted, `numDeleted, `vacant
      ensures Sane() && deleted == old(deleted) - {id}
    {
      deleted, numDeleted := deleted - {id}, numDeleted - 1;
      if allowReplace {
        vacant := vacant - {id};
      }
    }

    /** Marks the element of a label as deleted; the graph keeps it as a stepping stone. */
    method MarkDelete(lbl: nat) returns (r: MarkResult)
      requires Valid()
      modifies `deleted, `numDeleted, `vacant
      ensures Valid()
      ensures r == if lbl !in lookup then LabelNotFound else if old(lookup[lbl] in deleted) then AlreadySo else Marked
      ensures deleted == if r == Marked then old(deleted) + {lookup[lbl]} else old(deleted)
    {
      if lbl !in lookup {
        return LabelNotFound;
      }
      var id := lookup[lbl];
      if id in deleted {
        return AlreadySo;
      }
      deleted, numDeleted := deleted + {id}, numDeleted + 1;
      if allowReplace {
        vacant := vacant + {id};
      }
      r := Marked;
    }

    method UnmarkDelete(lbl: nat) returns (r: MarkResult)
      requires Valid()
      modifies `deleted, `numDeleted, `vacant
      ensures Valid()
      ensures r == if lbl !in lookup then LabelNotFound else if old(lookup[lbl] !in deleted) then AlreadySo else Marked
      ensures deleted == if r == Marked then old(deleted) - {lookup[lbl]} else old(deleted)
    {
      if lbl !in lookup {
        return LabelNotFound;
      }
      var id := lookup[lbl];
      if id !in deleted {
        return AlreadySo;
      }
      Unmark(id);
      r := Marked;
    }

    /** The live or just revived element `id` was given the vector and wired afresh; nothing else about it changed. */
    twostate predicate Relocated(vec: V, id: nat)
      reads this
    {
      && id < old(|vecs|) && vecs == old(vecs)[id := vec] && deleted == old(deleted) - {id}
      && entry == old(entry) && maxLevel == old(maxLevel) && maxLevel >= 0
      && MovedOrLone(old(links), links, Building(vec), id, maxLevel)
    }

    /**
      A new element was wired in below the old entry point, or is the first; it becomes the entry point if it is the
      highest.
     */
    twostate predicate Inserted(vec: V, lbl: nat, level: nat, id: nat)
      reads this
    {
      && id == old(|vecs|) && vecs == old(vecs) + [vec] && labels == old(labels) + [lbl] && deleted == old(deleted)
      && entry == (if level > old(maxLevel) then id else old(entry))
      && maxLevel == (if level > old(maxLevel) then level else old(maxLevel))
      && if old(maxLevel) < 0 then links == [BlankLists(level)]
         else WiredThrough(old(links) + [BlankLists(level)], links, Building(vec).(entry := old(entry)), id,
                           old(maxLevel), Min(level, old(maxLevel)), false)
    }

    /** The new element has its slot, its label and blank lists, but was not wired and is not the entry point. */
    twostate predicate Stalled(vec: V, lbl: nat, level: nat)
      reads this
    {
      && vecs == old(vecs) + [vec] && labels == old(labels) + [lbl] && lookup == old(lookup)[lbl := old(|vecs|)]
      && links == old(links) + [BlankLists(level)]
      && entry == old(entry) && maxLevel == old(maxLevel) && deleted == old(deleted)
    }

    /** The outcome of adding a point without replacement. */
    twostate predicate PointAdded(vec: V, lbl: nat, level: nat, r: AddResult)
      requires old(Valid())
      reads this
    {
      if old(lbl in lookup) then
        if old(allowReplace && lookup[lbl] in deleted) then r == LabelIsDeleted && unchanged(this)
        else r == Updated(old(lookup[lbl])) && Valid() && labels == old(labels) && Relocated(vec, r.id)
      else if old(|links| >= maxElements) then r == IndexFull && unchanged(this)
      else if old(links != [] && Stranded(vec, level)) then
        r == NoCandidates && Stalled(vec, lbl, level)
      else r == Added(old(|vecs|)) && Valid() && Inserted(vec, lbl, level, r.id)
    }

    /**
      Adds a point, in the place of some deleted element if replacement is asked for and one is vacant.
      A replacement under a label that another element still carries breaks the one-to-one naming.
     */
    method AddOrReplace(vec: V, lbl: nat, replaceDeleted: bool, level: nat) returns (r: AddResult)
      requires Valid()
      modifies `vecs, `labels, `links, `lookup, `entry, `maxLevel, `deleted, `numDeleted, `vacant
      ensures r.ReplacementDisabled? <==> !allowReplace && replaceDeleted
      ensures r.ReplacementDisabled? ==> unchanged(this)
      ensures r.Replaced? <==> allowReplace && replaceDeleted && old(deleted != {})
      ensures r.Replaced? ==> old(r.id in deleted) && ReplacedAt(vec, lbl, r.id)
      ensures !r.ReplacementDisabled? && !r.Replaced? ==> PointAdded(vec, lbl, level, r)
    {
      if !allowReplace && replaceDeleted {
        return ReplacementDisabled;
      }
      if !replaceDeleted || vacant == {} {
        r := AddPoint(vec, lbl, level);
        return;
      }
      var id :| id in vacant;
      Replace(vec, lbl, id);
      r := Replaced(id);
    }

    /** The slot `id` was handed to the label and its element moved. */
    twostate predicate ReplacedAt(vec: V, lbl: nat, id: nat)
      reads this
    {
      && Sane() && Relocated(vec, id) && id < old(|labels|) && labels == old(labels)[id := lbl]
      && (LabelsMatch(labels, lookup) <==> (lbl in old(lookup) ==> old(lookup)[lbl] == id))
    }

    method Replace(vec: V, lbl: nat, id: nat)
      requires Valid() && id in vacant
      modifies `vecs, `labels, `links, `lookup, `deleted, `numDeleted, `vacant
      ensures ReplacedAt(vec, lbl, id)
    {
      RelabelKeepsMatch(labels, lookup, id, lbl);
      labels, lookup := Relabel(labels, lookup, id, lbl).0, Relabel(labels, lookup, id, lbl).1;
      Unmark(id);
      UpdatePoint(vec, id);
    }

    /**
      Adds a point under a label that is new, or moves the point of a label that is known.
      `level` is the randomly drawn level of a new element.
     */
    method AddPoint(vec: V, lbl: nat, level: nat) returns (r: AddResult)
      requires Valid()
      modifies `vecs, `labels, `links, `lookup, `entry, `maxLevel, `deleted, `numDeleted, `vacant
      ensures PointAdded(vec, lbl, level, r)
    {
      if lbl in lookup {
        var id := lookup[lbl];
        if allowReplace && id in deleted {
          return LabelIsDeleted;
        }
        Revise(vec, id);
        return Updated(id);
      }
      if |links| >= maxElements {
        return IndexFull;
      }
      r := Insert(vec, lbl, level);
    }

    /** Gives a known element a new vector; if it was marked as deleted it comes back. */
    method Revise(vec: V, id: nat)
      requires Sane() && id < |links|
      modifies `vecs, `links, `deleted, `numDeleted, `vacant
      ensures Sane() && Relocated(vec, id)
    {
      if id in deleted {
        Unmark(id);
      }
      UpdatePoint(vec, id);
      assert deleted == old(deleted) - {id};
    }

    /** Adds an element under a new label. */
    method Insert(vec: V, lbl: nat, level: nat) returns (r: AddResult)
      requires Valid() && lbl !in lookup && |links| < maxElements
      modifies `vecs, `labels, `links, `lookup, `entry, `maxLevel
      ensures r == if old(links != [] && Stranded(vec, level)) then NoCandidates else Added(old(|vecs|))
      ensures r.Added? ==> Valid() && Inserted(vec, lbl, level, r.id)
      ensures r.NoCandidates? ==> Stalled(vec, lbl, level)
    {
      var id := Append(vec, lbl, level);
      if maxLevel >= 0 {
        var ok, wired := Attach(links, Building(vec), old(links), old(Building(vec)), maxDist, level, maxLevel);
        links := wired;
        if !ok {
          return NoCandidates;
        }
      }
      Crown(id, level);
      r := Added(id);
    }

    /** The newest element becomes the entry point if it reaches above all others. */
    method Crown(id: nat, level: nat)
      requires Stored() && links != []
      requires if level > maxLevel then Topped(links, id, level) else Topped(links, entry, maxLevel)
      modifies `entry, `maxLevel
      ensures Sane()
      ensures if old(level > maxLevel) then entry == id && maxLevel == level
              else entry == old(entry) && maxLevel == old(maxLevel)
    {
      if level > maxLevel {
        entry, maxLevel := id, level;
      }
    }

    /**
      The k-nearest search: greedy descent through the upper layers, beam search on the base layer, the `k` best kept.
      The ghost results expose where the beam search started, what it found, and which elements were kept.
     */
    method SearchKnn(q: V, k: nat, filtered: bool, allowed: nat -> bool)
      returns (res: set<(real, nat)>, ghost start: nat, ghost beam: set<nat>, ghost kept: set<nat>)
      requires Valid()
      ensures links == [] || Max(ef, k) == 0 ==> res == {}
      ensures links != [] && Max(ef, k) > 0 ==>
                && Finished(LayerOf(links, 0), start, ToQuery(dist, vecs, q), Max(ef, k),
                            Wanted(deleted, labels, filtered, allowed), beam)
                && start == Descent(links, m, ToQuery(dist, vecs, q), entry, maxLevel, 0)
                && IsNearest(kept, beam, ToQuery(dist, vecs, q), k)
                && Answers(res, kept, dist, vecs, labels, q)
                && IsBeam(links, labels, deleted, filtered, allowed, start, Max(ef, k), beam)
                && IsLocallyBest(links, vecs, labels, deleted, dist, q, filtered, allowed, beam)
                && IsKept(vecs, dist, q, beam, kept, k)
    {
      res, start, beam, kept := {}, 0, {}, {};
      if links == [] || Max(ef, k) == 0 {
        return;  // with k = 0 and ef = 0 the final truncation leaves nothing, whatever the walk does
      }
      var d := ToQuery(dist, vecs, q);
      var el := Wanted(deleted, labels, filtered, allowed);
      var obj := DescendTo(links, m, d, entry, maxLevel, 0);
      LayerIsClosed(links, m, 0);
      var top, walk := Search(LayerOf(links, 0), obj, d, maxDist, Max(ef, k), el, numDeleted == 0 && !filtered);
      start, beam := obj, top;
      var ids := KeepNearest(top, d, k);
      kept := ids;
      NearestIsKept(vecs, dist, q, top, ids, k);
      assert forall i :: i in top ==> i < |labels|;
      ReportAnswers(ids, dist, vecs, labels, q);
      res := Report(ids, dist, vecs, labels, q);
      BeamIsBest(links, vecs, labels, deleted, dist, q, filtered, allowed, start, Max(ef, k), beam);
    }
  }

  lemma BeamHoldsReached(g: Layer, start: nat, d: nat -> real, ef: nat, el: nat -> bool, beam: set<nat>)
    requires Finished(g, start, d, ef, el, beam)
    ensures forall i :: i in beam ==> i in g && el(i) && Reaches(g, start, i)
    ensures |beam| < ef ==> forall i :: i in g && el(i) && Reaches(g, start, i) ==> i in beam
  {
    if |beam| < ef {
      forall i | i in g && el(i) && Reaches(g, start, i) ensures i in beam {
        assert i in ReachSet(g, start);
      }
    }
  }

  lemma AppendKeepsIntact(links: Links, m: nat, level: nat, top: int)
    requires Intact(links, m)
    ensures Intact(links + [BlankLists(level)], m)
    ensures Blank(links + [BlankLists(level)], |links|, top)
  {
    var links' := links + [BlankLists(level)];
    forall i, l | 0 <= i < |links'| && 0 <= l < |links'[i]|
      ensures GoodList(links', m, i, l, links'[i][l]) && |links| !in links'[i][l]
    {
      if i < |links| {
        assert GoodList(links, m, i, l, links[i][l]);
      }
    }
  }

  lemma AppendKeepsUpperLayer(links: Links, level: nat, l: nat)
    requires l > level
    ensures LayerOf(links + [BlankLists(level)], l) == LayerOf(links, l)
  {
  }

  lemma AppendKeepsUpperLayers(links: Links, level: nat, from: nat, to: nat)
    requires to == Min(level, from)
    ensures LayersAbove(links + [BlankLists(level)], from, to) == LayersAbove(links, from, to)
  {
    var before, after := LayersAbove(links, from, to), LayersAbove(links + [BlankLists(level)], from, to);
    forall i | 0 <= i < |before| ensures after[i] == before[i] {
      AppendKeepsUpperLayer(links, level, to + 1 + i);
    }
  }

  /** The newest element, blank and unlinked, is on no walk that starts elsewhere. */
  lemma AppendKeepsReach(links: Links, m: nat, level: nat, l: nat, start: nat)
    requires Intact(links, m) && On(links, start, l) && l <= level
    ensures ReachSet(LayerOf(links + [BlankLists(level)], l), start) == ReachSet(LayerOf(links, l), start)
  {
    var links' := links + [BlankLists(level)];
    var g, g' := LayerOf(links, l), LayerOf(links', l);
    AppendKeepsIntact(links, m, level, l);
    LayerIsClosed(links, m, l);
    LayerIsClosed(links', m, l);
    ReachesSelf(g, start);
    ReachesSelf(g', start);
    forall i, j | i in ReachSet(g, start) && i in g' && j in g'[i] ensures j in ReachSet(g, start) {
      ReachesStep(g, start, i, j);
    }
    ClosedSetHoldsReach(g', ReachSet(g, start), start);
    UnlinkedIsUnreachable(links', |links|, l, start);
    forall i, j | i in ReachSet(g', start) && i in g && j in g[i] ensures j in ReachSet(g', start) {
      ReachesStep(g', start, i, j);
    }
    ClosedSetHoldsReach(g, ReachSet(g', start), start);
  }

  /** Whether a new element finds a neighbour can be told before it is there. */
  lemma NewestIsNoBridge(links: Links, level: nat, b: Build, b': Build, maxLevel: nat)
    requires Intact(links, b.m) && Topped(links, b.entry, maxLevel)
    requires b'.m == b.m && b'.entry == b.entry && b'.deleted == b.deleted
    requires forall x: nat :: x < |links| ==> b.d(x) == b'.d(x)
    ensures Intact(links + [BlankLists(level)], b.m)
    ensures FindsNobody(links + [BlankLists(level)], b', maxLevel, Min(level, maxLevel))
       <==> FindsNobody(links, b, maxLevel, Min(level, maxLevel))
  {
    var links', top := links + [BlankLists(level)], Min(level, maxLevel);
    AppendKeepsIntact(links, b.m, level, maxLevel);
    AppendKeepsUpperLayers(links, level, maxLevel, top);
    DescentSeesUpperLayers(links', links, b.m, b'.d, b.entry, maxLevel, top);
    DescentSeesElements(links, b.m, b'.d, b.d, b.entry, maxLevel, top);
    AppendKeepsReach(links, b.m, level, top, Descent(links, b.m, b.d, b.entry, maxLevel, top));
  }

  /** Wires the newest element; `links0` and `b0` are the links and the build without it. */
  method Attach(links: Links, b: Build, ghost links0: Links, ghost b0: Build, maxDist: real, level: nat, maxLevel: nat)
    returns (ok: bool, wired: Links)
    requires b.m > 0 && b.efc > 0 && Intact(links0, b0.m) && Topped(links0, b0.entry, maxLevel)
    requires links == links0 + [BlankLists(level)]
    requires b.m == b0.m && b.entry == b0.entry && b.deleted == b0.deleted
    requires forall x: nat :: x < |links0| ==> b0.d(x) == b.d(x)
    ensures Intact(wired, b.m) && SameShape(links, wired)
    ensures Topped(wired, if level > maxLevel then |links0| else b.entry, Max(level, maxLevel))
    ensures ok <==> !FindsNobody(links0, b0, maxLevel, Min(level, maxLevel))
    ensures if ok then WiredThrough(links, wired, b, |links0|, maxLevel, Min(level, maxLevel), false)
            else wired == links
  {
    AppendKeepsIntact(links0, b.m, level, maxLevel);
    NewestIsNoBridge(links0, level, b0, b, maxLevel);
    assert links[..|links0|] == links0;
    ok, wired := Wire(links, b, maxDist, |links| - 1, level, maxLevel);
  }

  /**
    On a base layer where everything is reachable from the start of the beam search, a beam at least as wide as
    the set of wanted elements makes the approximate search exact: it returns the true `k` nearest.
   */
  lemma ConnectedSearchIsExact(links: Links, start: nat, d: nat -> real, ef: nat, k: nat, el: nat -> bool,
                               beam: set<nat>, kept: set<nat>, wanted: set<nat>)
    requires forall i: nat :: i < |links| ==> |links[i]| > 0 && Reaches(LayerOf(links, 0), start, i)
    requires wanted == (set i: nat | i < |links| && el(i)) && |wanted| <= ef
    requires Finished(LayerOf(links, 0), start, d, ef, el, beam)
    requires IsNearest(kept, beam, d, k)
    ensures IsNearest(kept, wanted, d, k)
  {
    assert Findable(LayerOf(links, 0), start, el) == wanted;
    WideBeamIsExact(LayerOf(links, 0), start, d, ef, el, beam);
  }
}
