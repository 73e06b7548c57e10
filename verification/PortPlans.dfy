/** When the greedy pass over the connections succeeds: exactly when some choice of directions does. */
module PortPlans {
  import opened Sequences
  import opened PortBinder

  /** The connections that start, and those that end, at the named port. */
  ghost function StartsAt(made: seq<Conn>, n: Name): set<nat> {
    set k | 0 <= k < |made| && made[k].a.name == n
  }

  ghost function EndsAt(made: seq<Conn>, n: Name): set<nat> {
    set k | 0 <= k < |made| && made[k].b.name == n
  }

  lemma {:induction false} UsedIsCount(made: seq<Conn>, n: Name)
    ensures Used(made, n) == |StartsAt(made, n)| + |EndsAt(made, n)|
  {
    if made != [] {
      var k := |made| - 1;
      UsedIsCount(made[..k], n);
      StartsNext(made, n);
      EndsNext(made, n);
    }
  }

  lemma StartsNext(made: seq<Conn>, n: Name)
    requires made != []
    ensures var k := |made| - 1; |StartsAt(made, n)| == |StartsAt(made[..k], n)| + if made[k].a.name == n then 1 else 0
  {
    var k := |made| - 1;
    if made[k].a.name == n {
      assert StartsAt(made, n) == StartsAt(made[..k], n) + {k};
    } else {
      assert StartsAt(made, n) == StartsAt(made[..k], n);
    }
  }

  lemma EndsNext(made: seq<Conn>, n: Name)
    requires made != []
    ensures var k := |made| - 1; |EndsAt(made, n)| == |EndsAt(made[..k], n)| + if made[k].b.name == n then 1 else 0
  {
    var k := |made| - 1;
    if made[k].b.name == n {
      assert EndsAt(made, n) == EndsAt(made[..k], n) + {k};
    } else {
      assert EndsAt(made, n) == EndsAt(made[..k], n);
    }
  }

  /** The port index is next in line: as many ends as its index says are at the port already. */
  ghost predicate IsNext(made: seq<Conn>, p: Port) {
    |StartsAt(made, p.name)| + |EndsAt(made, p.name)| == p.index
  }

  /** Each entry of the list is made exactly when both its ends are next in line. */
  lemma MadeIffNext(order: seq<Conn>, i: nat)
    requires i < |order|
    ensures var made, c := Bound(order[..i]), order[i];
            Bound(order[..i + 1]) == if IsNext(made, c.a) && IsNext(made, c.b) then made + [c] else made
  {
    var made, c := Bound(order[..i]), order[i];
    assert order[..i + 1] == order[..i] + [c];
    BoundNext(order[..i], c);
    UsedIsCount(made, c.a.name);
    UsedIsCount(made, c.b.name);
  }

  lemma {:induction false} BoundGrows(order: seq<Conn>, i: nat, j: nat)
    requires i <= j <= |order|
    ensures Bound(order[..i]) <= Bound(order[..j])
    decreases j
  {
    if i < j {
      BoundGrows(order, i, j - 1);
      MadeIffNext(order, j - 1);
    }
  }

  /** An entry whose ends are next in line when its turn comes is among the connections made. */
  lemma NextInLineIsMade(order: seq<Conn>, i: nat)
    requires i < |order| && IsNext(Bound(order[..i]), order[i].a) && IsNext(Bound(order[..i]), order[i].b)
    ensures order[i] in Bound(order)
  {
    MadeIffNext(order, i);
    BoundGrows(order, i + 1, |order|);
    assert order[..|order|] == order;
    var made := Bound(order[..i]);
    assert (made + [order[i]])[|made|] == order[i];
  }

  /** The entries that follow the plan, in order. */
  ghost function Picked(order: seq<Conn>, plan: set<Conn>): seq<Conn> {
    if order == [] then []
    else
      var c, before := order[|order| - 1], Picked(order[..|order| - 1], plan);
      if c in plan then before + [c] else before
  }

  /**
    A plan takes one direction of every link, and at its turn each end of a planned entry is next in line among the
    planned ones: at every port the indices come as 0, 1, 2, and so on.
   */
  ghost predicate IsPlan(order: seq<Conn>, plan: set<Conn>) {
    && (forall c :: c in order ==> (c in plan <==> Flip(c) !in plan))
    && forall i :: 0 <= i < |order| && order[i] in plan ==>
         IsNext(Picked(order[..i], plan), order[i].a) && IsNext(Picked(order[..i], plan), order[i].b)
  }

  /** How many planned ends the first `i` entries have at a port. */
  ghost function Planned(order: seq<Conn>, plan: set<Conn>, i: nat, n: Name): nat
    requires i <= |order|
  {
    Used(Picked(order[..i], plan), n)
  }

  lemma PlannedNext(order: seq<Conn>, plan: set<Conn>, i: nat, n: Name)
    requires i < |order|
    ensures var c := order[i];
            Planned(order, plan, i + 1, n) == Planned(order, plan, i, n) +
              if c in plan then (if c.a.name == n then 1 else 0) + (if c.b.name == n then 1 else 0) else 0
  {
    assert order[..i + 1][..i] == order[..i];
    UsedNext(Picked(order[..i], plan), order[i], n);
  }

  /** Both ends of a planned entry carry the count of their port, and they are at different ports. */
  lemma PlannedEntry(order: seq<Conn>, plan: set<Conn>, i: nat)
    requires IsPlan(order, plan) && i < |order| && order[i] in plan
    ensures var c := order[i];
            && c.a.index == Planned(order, plan, i, c.a.name) && c.b.index == Planned(order, plan, i, c.b.name)
            && c.a.name != c.b.name
  {
    var c := order[i];
    assert c in order;
    UsedIsCount(Picked(order[..i], plan), c.a.name);
    UsedIsCount(Picked(order[..i], plan), c.b.name);
  }

  lemma {:induction false} PlannedGrows(order: seq<Conn>, plan: set<Conn>, i: nat, j: nat, n: Name)
    requires i <= j <= |order|
    ensures Planned(order, plan, i, n) <= Planned(order, plan, j, n)
    decreases j
  {
    if i < j {
      PlannedGrows(order, plan, i, j - 1, n);
      PlannedNext(order, plan, j - 1, n);
    }
  }

  /** No two planned entries share a port index. */
  lemma PlannedOnce(order: seq<Conn>, plan: set<Conn>, i: nat, j: nat, p: Port)
    requires IsPlan(order, plan) && i < j < |order| && order[i] in plan && order[j] in plan
    requires Touches(order[i], p)
    ensures !Touches(order[j], p)
  {
    PlannedEntry(order, plan, i);
    PlannedEntry(order, plan, j);
    PlannedNext(order, plan, i, p.name);
    PlannedGrows(order, plan, i + 1, j, p.name);
  }

  /** Every index below the count was planned before. */
  lemma {:induction false} PlannedBefore(order: seq<Conn>, plan: set<Conn>, i: nat, p: Port) returns (j: nat)
    requires IsPlan(order, plan) && i <= |order| && p.index < Planned(order, plan, i, p.name)
    ensures j < i && order[j] in plan && Touches(order[j], p)
  {
    PlannedNext(order, plan, i - 1, p.name);
    if p.index < Planned(order, plan, i - 1, p.name) {
      j := PlannedBefore(order, plan, i - 1, p);
    } else {
      j := i - 1;
      PlannedEntry(order, plan, j);
    }
  }

  /** Every index below the counter of a port was used by a connection made. */
  lemma {:induction false} UsedWasMade(order: seq<Conn>, p: Port) returns (k: nat)
    requires NoSelfLinks(order) && p.index < Used(Bound(order), p.name)
    ensures k < |Bound(order)| && Touches(Bound(order)[k], p)
    decreases |order|
  {
    var init, c := order[..|order| - 1], order[|order| - 1];
    assert forall x :: x in init ==> x in order;
    assert c in order;
    var before := Bound(init);
    BoundAppend(order);
    if p.index < Used(before, p.name) {
      k := UsedWasMade(init, p);
    } else {
      NewestTouches(before, c, p);
      k := |before|;
    }
  }

  lemma NewestTouches(made: seq<Conn>, c: Conn, p: Port)
    requires Bindable(made, c) && c.a != c.b && Used(made, p.name) <= p.index < Used(made + [c], p.name)
    ensures Touches(c, p)
  {
    UsedNext(made, c, p.name);
  }

  /** The connection, in one direction or the other, is among those made. */
  ghost predicate Joined(made: seq<Conn>, c: Conn) {
    c in made || Flip(c) in made
  }

  /** All planned entries up to `i` have been made, one way or the other. */
  ghost predicate OnPlan(order: seq<Conn>, plan: set<Conn>, i: nat)
    requires i <= |order|
  {
    forall j :: 0 <= j < i && order[j] in plan ==> Joined(Bound(order[..i]), order[j])
  }

  lemma PlannedEndIsNext(order: seq<Conn>, plan: set<Conn>, i: nat, p: Port)
    requires WellListed(order) && IsPlan(order, plan) && i < |order| && OnPlan(order, plan, i)
    requires order[i] in plan && Touches(order[i], p) && !Joined(Bound(order[..i]), order[i])
    ensures Used(Bound(order[..i]), p.name) == p.index
  {
    var part := order[..i];
    PlannedEntry(order, plan, i);
    if p.index > 0 {
      ReachesIndex(order, plan, i, Port(p.name, p.index - 1));
    }
    if Used(Bound(part), p.name) > p.index {
      PlanHasNoSelfLinks(order, plan, i);
      var k := UsedWasMade(part, p);
      MadeIsPlanned(order, plan, i, k, p);
    }
  }

  lemma PlanHasNoSelfLinks(order: seq<Conn>, plan: set<Conn>, i: nat)
    requires IsPlan(order, plan) && i <= |order|
    ensures NoSelfLinks(order[..i])
  {
    forall c | c in order[..i] ensures c.a != c.b {
      assert c in order;
    }
  }

  /** An index that was planned before is behind the counter. */
  lemma ReachesIndex(order: seq<Conn>, plan: set<Conn>, i: nat, p: Port)
    requires IsPlan(order, plan) && i <= |order| && OnPlan(order, plan, i)
    requires p.index < Planned(order, plan, i, p.name)
    ensures Used(Bound(order[..i]), p.name) > p.index
  {
    var j := PlannedBefore(order, plan, i, p);
    var made := Bound(order[..i]);
    var e := if order[j] in made then order[j] else Flip(order[j]);
    var k :| 0 <= k < |made| && made[k] == e;
    UsedIndexIsPast(order[..i], k, p);
  }

  /** What was made at the port index of a planned entry is that entry. */
  lemma MadeIsPlanned(order: seq<Conn>, plan: set<Conn>, i: nat, k: nat, p: Port)
    requires WellListed(order) && IsPlan(order, plan) && i < |order| && order[i] in plan && Touches(order[i], p)
    requires k < |Bound(order[..i])| && Touches(Bound(order[..i])[k], p)
    ensures Joined(Bound(order[..i]), order[i])
  {
    var c := Bound(order[..i])[k];
    BoundIsFromList(order[..i]);
    assert c in order[..i] && c in order && Flip(c) in order;
    var e := if c in plan then c else Flip(c);
    var j :| 0 <= j < |order| && order[j] == e;
    if j < i {
      PlannedOnce(order, plan, j, i, p);
    } else if i < j {
      PlannedOnce(order, plan, i, j, p);
    }
  }

  lemma {:induction false} StaysOnPlan(order: seq<Conn>, plan: set<Conn>, i: nat)
    requires WellListed(order) && IsPlan(order, plan) && i <= |order|
    ensures OnPlan(order, plan, i)
  {
    if i > 0 {
      StaysOnPlan(order, plan, i - 1);
      BoundGrows(order, i - 1, i);
      PrefixJoins(Bound(order[..i - 1]), Bound(order[..i]));
      if order[i - 1] in plan {
        NextIsJoined(order, plan, i - 1);
      }
    }
  }

  lemma NextIsJoined(order: seq<Conn>, plan: set<Conn>, i: nat)
    requires WellListed(order) && IsPlan(order, plan) && i < |order| && order[i] in plan && OnPlan(order, plan, i)
    ensures Joined(Bound(order[..i + 1]), order[i])
  {
    var made, c := Bound(order[..i]), order[i];
    if Joined(made, c) {
      BoundGrows(order, i, i + 1);
      PrefixJoins(made, Bound(order[..i + 1]));
    } else {
      PlannedEndIsNext(order, plan, i, c.a);
      PlannedEndIsNext(order, plan, i, c.b);
      assert order[..i + 1] == order[..i] + [c];
      BoundNext(order[..i], c);
    }
  }

  lemma PrefixJoins(a: seq<Conn>, b: seq<Conn>)
    requires a <= b
    ensures forall c :: Joined(a, c) ==> Joined(b, c)
  {
    forall c | c in a ensures c in b {
      var k :| 0 <= k < |a| && a[k] == c;
      assert b[k] == c;
    }
  }

  /** The greedy pass makes every link of a list that has a plan. */
  lemma PlanIsMade(order: seq<Conn>, plan: set<Conn>)
    requires WellListed(order) && IsPlan(order, plan)
    ensures NoSelfLinks(order) && 2 * |Bound(order)| == |order|
  {
    StaysOnPlan(order, plan, |order|);
    PlanHasNoSelfLinks(order, plan, |order|);
    assert order[..|order|] == order;
    forall c | c in order ensures IsMade(order, c) {
      var e := if c in plan then c else Flip(c);
      assert e in order;
      var j :| 0 <= j < |order| && order[j] == e;
      assert Joined(Bound(order), e);
    }
    HalfCountIff(order);
  }

  /** An entry that is made at all is made when its turn comes. */
  lemma {:induction false} MadeAtItsTurn(order: seq<Conn>, i: nat, j: nat)
    requires Distinct(order) && i < j <= |order| && order[i] in Bound(order[..j])
    ensures order[i] in Bound(order[..i + 1])
    decreases j
  {
    if i + 1 < j {
      MadeIffNext(order, j - 1);
      assert order[i] != order[j - 1];
      MadeAtItsTurn(order, i, j - 1);
    }
  }

  lemma NotMadeBefore(order: seq<Conn>, i: nat)
    requires Distinct(order) && i < |order|
    ensures order[i] !in Bound(order[..i])
  {
    BoundIsFromList(order[..i]);
  }

  /** The connections made, as a plan, are picked as they were made. */
  lemma {:induction false} PickedIsMade(order: seq<Conn>, i: nat)
    requires Distinct(order) && i <= |order|
    ensures Picked(order[..i], Elems(Bound(order))) == Bound(order[..i])
  {
    if i > 0 {
      var k := i - 1;
      PickedIsMade(order, k);
      assert order[..i][..k] == order[..k] && order[..|order|] == order;
      MadeIffNext(order, k);
      NotMadeBefore(order, k);
      if order[k] in Bound(order) {
        MadeAtItsTurn(order, k, |order|);
      } else {
        BoundGrows(order, i, |order|);
        PrefixMembers(Bound(order[..i]), Bound(order), order[k]);
      }
    }
  }

  lemma PrefixMembers(a: seq<Conn>, b: seq<Conn>, c: Conn)
    requires a <= b && c !in b
    ensures c !in a
  {
    assert forall k :: 0 <= k < |a| ==> b[k] == a[k];
  }

  /** A list whose links are all made was made by plan. */
  lemma MadeIsPlan(order: seq<Conn>)
    requires WellListed(order) && NoSelfLinks(order) && 2 * |Bound(order)| == |order|
    ensures IsPlan(order, Elems(Bound(order)))
  {
    var made, plan := Bound(order), Elems(Bound(order));
    HalfCountIff(order);
    forall c | c in order ensures c in plan <==> Flip(c) !in plan {
      assert IsMade(order, c);
      if c in made {
        OneDirection(order, c);
      }
    }
    forall i | 0 <= i < |order| && order[i] in plan
      ensures IsNext(Picked(order[..i], plan), order[i].a) && IsNext(Picked(order[..i], plan), order[i].b)
    {
      PickedIsMade(order, i);
      assert order[..|order|] == order;
      MadeAtItsTurn(order, i, |order|);
      MadeIffNext(order, i);
      NotMadeBefore(order, i);
    }
  }

  lemma OneDirection(order: seq<Conn>, c: Conn)
    requires NoSelfLinks(order) && c in order && c in Bound(order)
    ensures Flip(c) !in Bound(order)
  {
    var made := Bound(order);
    if Flip(c) in made {
      var i :| 0 <= i < |made| && made[i] == c;
      var j :| 0 <= j < |made| && made[j] == Flip(c);
      assert c.a != c.b;
      if i < j {
        MadeDiffer(order, i, j);
      } else {
        MadeDiffer(order, j, i);
      }
    }
  }

  /**
    The greedy pass is as good as any choice of directions: on a list without self links it passes the half-count check
    exactly when there is a plan.
   */
  lemma BindsIffPlan(order: seq<Conn>)
    requires WellListed(order) && NoSelfLinks(order)
    ensures 2 * |Bound(order)| == |order| <==> exists plan :: IsPlan(order, plan)
  {
    if 2 * |Bound(order)| == |order| {
      MadeIsPlan(order);
    }
    if plan :| IsPlan(order, plan) {
      PlanIsMade(order, plan);
    }
  }
}
