/** The neighbour selection heuristic of the HNSW index. */
module Neighbors {
  import opened Orders
  import opened Sequences
  import opened Graphs

  /** The order in which the heuristic looks at candidates: closest first, larger identifier first among equals. */
  predicate Before(d: nat -> real, a: nat, b: nat) {
    d(a) < d(b) || (d(a) == d(b) && a > b)
  }

  /** `a` makes `b` redundant: it is looked at earlier and is closer to `b` than the query is. */
  predicate Covers(d: nat -> real, dd: (nat, nat) -> real, a: nat, b: nat) {
    Before(d, a, b) && dd(a, b) < d(b)
  }

  ghost predicate Unrelated(s: set<nat>, d: nat -> real, dd: (nat, nat) -> real) {
    forall a, b :: a in s && b in s ==> !Covers(d, dd, a, b)
  }

  /** Why a candidate outside the selection was passed over. */
  ghost predicate PassedOver(s: set<nat>, d: nat -> real, dd: (nat, nat) -> real, m: nat, x: nat) {
    || (|s| == m && forall a :: a in s ==> Before(d, a, x))
    || exists a :: a in s && Covers(d, dd, a, x)
  }

  /** The selection: everything if there are fewer than `m`, otherwise the greedy pruned set. */
  ghost predicate IsSelection(s: set<nat>, c: set<nat>, d: nat -> real, dd: (nat, nat) -> real, m: nat) {
    && s <= c
    && |s| <= m
    && (|c| < m ==> s == c)
    && (|c| >= m ==> Unrelated(s, d, dd) && forall x :: x in c && x !in s ==> PassedOver(s, d, dd, m, x))
  }

  lemma FirstExists(s: set<nat>, d: nat -> real)
    requires s != {}
    ensures exists m :: m in s && forall t :: t in s && t != m ==> Before(d, m, t)
  {
    var m := MinimumExists(s, (a: nat, b: nat) => a == b || Before(d, a, b));
    assert forall t :: t in s && t != m ==> Before(d, m, t);
  }

  /** Between two candidates: what is taken precedes what is queued, and covers what was skipped. */
  ghost predicate Selecting(s: set<nat>, queue: set<nat>, c: set<nat>, d: nat -> real, dd: (nat, nat) -> real) {
    && s <= c && queue <= c && s !! queue
    && (forall a, x :: a in s && x in queue ==> Before(d, a, x))
    && Unrelated(s, d, dd)
    && (forall x :: x in c && x !in s && x !in queue ==> exists a :: a in s && Covers(d, dd, a, x))
    && (s == {} ==> queue == c)
  }

  lemma SelectStep(s: set<nat>, queue: set<nat>, c: set<nat>, d: nat -> real, dd: (nat, nat) -> real, x: nat)
    requires Selecting(s, queue, c, d, dd) && x in queue && forall t :: t in queue && t != x ==> Before(d, x, t)
    ensures if forall a :: a in s ==> !(dd(a, x) < d(x)) then Selecting(s + {x}, queue - {x}, c, d, dd)
            else Selecting(s, queue - {x}, c, d, dd)
  {
    if a :| a in s && dd(a, x) < d(x) {
      assert Covers(d, dd, a, x);
    }
  }

  /** The heuristic itself: take candidates closest first, skip the redundant ones, stop at `m`. */
  method Select(c: set<nat>, d: nat -> real, dd: (nat, nat) -> real, m: nat) returns (s: set<nat>)
    ensures IsSelection(s, c, d, dd, m)
    ensures c != {} && m > 0 ==> s != {}
  {
    if |c| < m {
      return c;
    }
    var queue := c;
    s := {};
    while queue != {} && |s| < m
      invariant |s| <= m && Selecting(s, queue, c, d, dd)
    {
      FirstExists(queue, d);
      var x :| x in queue && forall t :: t in queue && t != x ==> Before(d, x, t);
      SelectStep(s, queue, c, d, dd, x);
      queue := queue - {x};
      var good := forall a | a in s :: !(dd(a, x) < d(x));
      if good {
        s := s + {x};
      }
    }
  }

  /** Two selections that agree on everything looked at before `x` agree on `x`. */
  lemma NextAgrees(s: set<nat>, t: set<nat>, c: set<nat>, d: nat -> real, dd: (nat, nat) -> real, m: nat, x: nat)
    requires IsSelection(s, c, d, dd, m) && IsSelection(t, c, d, dd, m) && |c| >= m
    requires forall y :: Before(d, y, x) ==> (y in s <==> y in t)
    requires x in s
    ensures x in t
  {
    forall a | a in t
      ensures !Covers(d, dd, a, x)
    {
      assert Before(d, a, x) ==> a in s;
    }
    if forall a :: a in t ==> Before(d, a, x) {
      SubsetSize(t + {x}, s);
    }
    assert !PassedOver(t, d, dd, m, x);
  }

  /** The selection is determined by its description, so the heuristic has exactly one outcome. */
  lemma SelectionIsUnique(s: set<nat>, t: set<nat>, c: set<nat>, d: nat -> real, dd: (nat, nat) -> real, m: nat)
    requires IsSelection(s, c, d, dd, m) && IsSelection(t, c, d, dd, m)
    ensures s == t
  {
    var odd := (s - t) + (t - s);
    if odd != {} && |c| >= m {
      FirstExists(odd, d);
      var x :| x in odd && forall y :: y in odd && y != x ==> Before(d, x, y);
      assert forall y :: Before(d, y, x) ==> (y in s <==> y in t);
      if x in s {
        NextAgrees(s, t, c, d, dd, m, x);
      } else {
        NextAgrees(t, s, c, d, dd, m, x);
      }
    }
  }

  /**
    The selection among two candidates with room for both: the one looked at first, that is the closer one or, of two
    equally close ones, the one with the larger identifier; and the other one unless it is closer to the first than to
    the query.
   */
  lemma SelectionOfTwo(s: set<nat>, a: nat, b: nat, d: nat -> real, dd: (nat, nat) -> real)
    requires d(a) < d(b) || (d(a) == d(b) && a > b)
    requires IsSelection(s, {a, b}, d, dd, 2)
    ensures s == if dd(a, b) < d(b) then {a} else {a, b}
  {
    assert |{a, b}| == 2;
    assert !PassedOver(s, d, dd, 2, a) by {
      if |s| == 2 {
        SubsetSize(s, {a, b});
      }
    }
    assert a in s;
    if b !in s {
      SubsetSize(s, {a});
    }
  }

  /** A heap emptied from the top: its elements, farthest first. */
  ghost predicate IsDrain(s: seq<nat>, h: set<nat>, d: nat -> real) {
    && Elems(s) == h
    && |s| == |h|
    && Distinct(s)
    && forall i, j :: 0 <= i < j < |s| ==> d(s[i]) >= d(s[j])
  }

  method Drain(h: set<nat>, d: nat -> real) returns (s: seq<nat>)
    ensures IsDrain(s, h, d)
  {
    s := [];
    var rest := h;
    while rest != {}
      invariant forall x :: x in h <==> x in rest || x in s
      invariant forall i :: 0 <= i < |s| ==> s[i] !in rest
      invariant |s| + |rest| == |h|
      invariant Distinct(s)
      invariant forall i, j :: 0 <= i < j < |s| ==> d(s[i]) >= d(s[j])
      invariant forall i, x :: 0 <= i < |s| && x in rest ==> d(s[i]) >= d(x)
    {
      GreatestExists(rest, d);
      var m :| m in rest && forall t :: t in rest ==> d(t) <= d(m);
      rest := rest - {m};
      s := s + [m];
    }
  }
}
