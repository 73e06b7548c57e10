/** One layer of a proximity graph, walks in it, and the finite-set facts the searches rest on. */
module Graphs {
  import opened Orders

  /** A layer maps each element that lives on it to its neighbour list. */
  type Layer = map<nat, seq<nat>>

  /** Every neighbour of an element of the layer is itself an element of the layer. */
  ghost predicate Closed(g: Layer) {
    forall i, j :: i in g && j in g[i] ==> j in g
  }

  ghost predicate IsWalk(g: Layer, p: seq<nat>) {
    && |p| > 0
    && (forall i :: 0 <= i < |p| ==> p[i] in g)
    && forall i, j :: 0 <= i < j < |p| && j == i + 1 ==> p[j] in g[p[i]]
  }

  ghost predicate Reaches(g: Layer, a: nat, b: nat) {
    exists p :: IsWalk(g, p) && p[0] == a && p[|p| - 1] == b
  }

  ghost function ReachSet(g: Layer, a: nat): set<nat> {
    set b | b in g && Reaches(g, a, b)
  }

  lemma ReachesSelf(g: Layer, a: nat)
    requires a in g
    ensures Reaches(g, a, a)
  {
    assert IsWalk(g, [a]);
  }

  lemma ReachesStep(g: Layer, a: nat, b: nat, c: nat)
    requires Closed(g) && Reaches(g, a, b) && b in g && c in g[b]
    ensures Reaches(g, a, c)
  {
    var p :| IsWalk(g, p) && p[0] == a && p[|p| - 1] == b;
    var q := p + [c];
    assert IsWalk(g, q);
  }

  /** A set of elements that is closed under links and holds the start holds everything reachable. */
  lemma {:induction false} WalkStaysInside(g: Layer, s: set<nat>, p: seq<nat>, k: nat)
    requires IsWalk(g, p) && p[0] in s && k < |p|
    requires forall i, j :: i in s && i in g && j in g[i] ==> j in s
    ensures p[k] in s
  {
    if k > 0 {
      WalkStaysInside(g, s, p, k - 1);
    }
  }

  lemma ClosedSetHoldsReach(g: Layer, s: set<nat>, a: nat)
    requires a in s
    requires forall i, j :: i in s && i in g && j in g[i] ==> j in s
    ensures ReachSet(g, a) <= s
  {
    forall b | b in ReachSet(g, a)
      ensures b in s
    {
      var p :| IsWalk(g, p) && p[0] == a && p[|p| - 1] == b;
      WalkStaysInside(g, s, p, |p| - 1);
    }
  }

  lemma LeastExists(s: set<nat>, key: nat -> real)
    requires s != {}
    ensures exists m :: m in s && forall t :: t in s ==> key(m) <= key(t)
  {
    var m := MinimumExists(s, (a: nat, b: nat) => key(a) <= key(b));
    assert forall t :: t in s ==> key(m) <= key(t);
  }

  lemma GreatestExists(s: set<nat>, key: nat -> real)
    requires s != {}
    ensures exists m :: m in s && forall t :: t in s ==> key(t) <= key(m)
  {
    var m := MinimumExists(s, (a: nat, b: nat) => key(b) <= key(a));
    assert forall t :: t in s ==> key(t) <= key(m);
  }

  lemma {:induction false} SubsetSize(a: set<nat>, b: set<nat>)
    requires a <= b
    ensures |a| <= |b|
    ensures |a| == |b| ==> a == b
  {
    assert b == a + (b - a);
    if |a| == |b| {
      assert |b - a| == 0;
    }
  }
}
