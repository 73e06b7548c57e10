/**
  Binding ports from a list of connections: a greedy pass that respects port indices, and the half-count check behind
  it.
 */
module PortBinder {
  import opened Sequences

  /** An object's port, and one index of it. */
  datatype Name = Name(obj: string, port: string)
  datatype Port = Port(name: Name, index: nat)
  datatype Conn = Conn(a: Port, b: Port)

  function Flip(c: Conn): Conn {
    Conn(c.b, c.a)
  }

  /** How many ends at the named port the connections have. */
  function Used(made: seq<Conn>, n: Name): nat {
    if made == [] then 0
    else
      var c := made[|made| - 1];
      Used(made[..|made| - 1], n) + (if c.a.name == n then 1 else 0) + (if c.b.name == n then 1 else 0)
  }

  /** Both ends are next in line at their ports. */
  predicate Bindable(made: seq<Conn>, c: Conn) {
    Used(made, c.a.name) == c.a.index && Used(made, c.b.name) == c.b.index
  }

  /** The connections the pass makes, in the order it meets them. */
  function Bound(order: seq<Conn>): seq<Conn> {
    if order == [] then []
    else
      var made := Bound(order[..|order| - 1]);
      if Bindable(made, order[|order| - 1]) then made + [order[|order| - 1]] else made
  }

  /** Every connection is listed in both directions, none twice. */
  ghost predicate WellListed(order: seq<Conn>) {
    && (forall c :: c in order ==> Flip(c) in order)
    && Distinct(order)
  }

  /** No port index is connected to itself. */
  ghost predicate NoSelfLinks(order: seq<Conn>) {
    forall c :: c in order ==> c.a != c.b
  }

  datatype Outcome = Bindings(made: seq<Conn>) | CannotOrder

  /** The pass over the connections and the check that half of them were made. */
  method BindPorts(order: seq<Conn>) returns (r: Outcome)
    requires WellListed(order)
    ensures r == if 2 * |Bound(order)| == |order| then Bindings(Bound(order)) else CannotOrder
  {
    var counts: map<Name, nat> := map[];
    for i := 0 to |order|
      invariant forall j :: 0 <= j < i ==> order[j].a.name in counts
      invariant forall n :: n in counts ==> counts[n] == 0
    {
      counts := counts[order[i].a.name := 0];
    }
    assert AllCounted(order, counts) by {
      forall j | 0 <= j < |order|
        ensures order[j].b.name in counts
      {
        assert order[j] in order;
        var k :| 0 <= k < |order| && order[k] == Flip(order[j]);
      }
    }
    var made: seq<Conn> := [];
    for i := 0 to |order|
      invariant made == Bound(order[..i]) && AllCounted(order, counts)
      invariant forall n :: n in counts ==> counts[n] == Used(made, n)
    {
      var c := order[i];
      assert order[..i + 1][..i] == order[..i];
      if counts[c.a.name] == c.a.index && counts[c.b.name] == c.b.index {
        assert (made + [c])[..|made|] == made;
        made := made + [c];
        counts := counts[c.a.name := counts[c.a.name] + 1];
        counts := counts[c.b.name := counts[c.b.name] + 1];
      }
    }
    assert order[..|order|] == order;
    r := if 2 * |made| == |order| then Bindings(made) else CannotOrder;
  }

  ghost predicate AllCounted(order: seq<Conn>, counts: map<Name, nat>) {
    forall j :: 0 <= j < |order| ==> order[j].a.name in counts && order[j].b.name in counts
  }

  /** The indices at a port in the order in which the connections use them. */
  function Indices(made: seq<Conn>, n: Name): (s: seq<nat>)
    ensures |s| == Used(made, n)
  {
    if made == [] then []
    else
      var c := made[|made| - 1];
      Indices(made[..|made| - 1], n)
        + (if c.a.name == n then [c.a.index] else []) + (if c.b.name == n then [c.b.index] else [])
  }

  lemma BoundAppend(order: seq<Conn>)
    requires order != []
    ensures var init := Bound(order[..|order| - 1]);
            Bound(order) == init || (Bindable(init, order[|order| - 1]) && Bound(order) == init + [order[|order| - 1]]
                                     && Bound(order)[..|init|] == init)
  {
  }

  /** At every port the connections made use the indices 0, 1, 2, ... in this order, without gaps. */
  lemma {:induction false} IndicesInOrder(order: seq<Conn>, n: Name)
    requires NoSelfLinks(order)
    ensures forall k :: 0 <= k < |Indices(Bound(order), n)| ==> Indices(Bound(order), n)[k] == k
    decreases |order|
  {
    if order != [] {
      var init, c := order[..|order| - 1], order[|order| - 1];
      assert forall x :: x in init ==> x in order;
      assert c in order;
      IndicesInOrder(init, n);
      BoundAppend(order);
    }
  }

  lemma {:induction false} BoundIsFromList(order: seq<Conn>)
    ensures |Bound(order)| <= |order| && forall c :: c in Bound(order) ==> c in order
    decreases |order|
  {
    if order != [] {
      BoundIsFromList(order[..|order| - 1]);
      assert forall c :: c in order[..|order| - 1] ==> c in order;
    }
  }

  ghost predicate Touches(c: Conn, p: Port) {
    c.a == p || c.b == p
  }

  /** An index that was used stays behind the counter of its port. */
  lemma {:induction false} UsedIndexIsPast(order: seq<Conn>, i: nat, p: Port)
    requires i < |Bound(order)| && Touches(Bound(order)[i], p)
    ensures Used(Bound(order), p.name) > p.index
    decreases |order|
  {
    if order != [] {
      var init, all := Bound(order[..|order| - 1]), Bound(order);
      BoundAppend(order);
      if i < |init| {
        UsedIndexIsPast(order[..|order| - 1], i, p);
      }
      if |all| > |init| {
        StaysPast(init, order[|order| - 1], i, p);
      }
    }
  }

  lemma StaysPast(made: seq<Conn>, c: Conn, i: nat, p: Port)
    requires i <= |made| && Touches((made + [c])[i], p) && Bindable(made, c)
    requires i < |made| ==> Used(made, p.name) > p.index
    ensures Used(made + [c], p.name) > p.index
  {
    UsedNext(made, c, p.name);
  }

  lemma UsedNext(made: seq<Conn>, c: Conn, n: Name)
    ensures Used(made + [c], n) == Used(made, n) + (if c.a.name == n then 1 else 0) + (if c.b.name == n then 1 else 0)
  {
    assert (made + [c])[..|made|] == made;
  }

  /** No port index is used by two of the connections made; in particular at most one direction of a link is made. */
  lemma {:induction false} EndsAreDisjoint(order: seq<Conn>, i: nat, j: nat, p: Port)
    requires i < j < |Bound(order)| && Touches(Bound(order)[i], p)
    ensures !Touches(Bound(order)[j], p)
    decreases |order|
  {
    if order != [] {
      var init := Bound(order[..|order| - 1]);
      BoundAppend(order);
      if j < |init| {
        EndsAreDisjoint(order[..|order| - 1], i, j, p);
      } else {
        UsedIndexIsPast(order[..|order| - 1], i, p);
      }
    }
  }

  function Flipped(s: seq<Conn>): (f: seq<Conn>)
    ensures |f| == |s|
  {
    seq(|s|, i requires 0 <= i < |s| => Flip(s[i]))
  }

  lemma {:induction false} DistinctSize(s: seq<Conn>)
    requires Distinct(s)
    ensures |Elems(s)| == |s|
  {
    if s != [] {
      var n := |s| - 1;
      DistinctSize(s[..n]);
      assert Elems(s) == Elems(s[..n]) + {s[n]};
    }
  }

  /** A link is made when the pass chose one of its two directions. */
  ghost predicate IsMade(order: seq<Conn>, c: Conn) {
    c in Bound(order) || Flip(c) in Bound(order)
  }

  lemma MadeDiffer(order: seq<Conn>, i: nat, j: nat)
    requires i < j < |Bound(order)|
    ensures FarApart(Bound(order)[i], Bound(order)[j])
  {
    EndsAreDisjoint(order, i, j, Bound(order)[i].a);
  }

  /** The directions of the links made are twice as many as those links, all listed. */
  lemma MadeBothWays(order: seq<Conn>)
    requires WellListed(order) && NoSelfLinks(order)
    ensures |Elems(Bound(order)) + Elems(Flipped(Bound(order)))| == 2 * |Bound(order)|
    ensures Elems(Bound(order)) + Elems(Flipped(Bound(order))) <= Elems(order)
  {
    var made := Bound(order);
    BoundIsFromList(order);
    forall i, j | 0 <= i < j < |made|
      ensures FarApart(made[i], made[j])
    {
      MadeDiffer(order, i, j);
    }
    forall i | 0 <= i < |made|
      ensures made[i] in order && Flip(made[i]) in order && made[i] != Flip(made[i])
    {
      assert made[i] in made;
    }
    BothWaysSize(made);
  }

  /** Two connections that differ in either direction. */
  ghost predicate FarApart(c: Conn, e: Conn) {
    c != e && Flip(c) != Flip(e) && c != Flip(e) && e != Flip(c)
  }

  lemma BothWaysSize(made: seq<Conn>)
    requires forall i, j :: 0 <= i < j < |made| ==> FarApart(made[i], made[j])
    requires forall i :: 0 <= i < |made| ==> made[i] != Flip(made[i])
    ensures |Elems(made) + Elems(Flipped(made))| == 2 * |made|
  {
    var back := Flipped(made);
    DistinctSize(made);
    DistinctSize(back);
    forall i, j | 0 <= i < |made| && 0 <= j < |made|
      ensures made[i] != back[j]
    {
      assert i < j || i == j || j < i;
    }
    assert Elems(made) !! Elems(back);
  }

  /** The half-count check passes exactly when every listed link was made, in one direction. */
  lemma HalfCountIff(order: seq<Conn>)
    requires WellListed(order) && NoSelfLinks(order)
    ensures 2 * |Bound(order)| == |order| <==> forall c :: c in order ==> IsMade(order, c)
  {
    MadeBothWays(order);
    DistinctSize(order);
    var made, both, all := Bound(order), Elems(Bound(order)) + Elems(Flipped(Bound(order))), Elems(order);
    assert all == both + (all - both);
    forall c
      ensures c in both <==> IsMade(order, c)
    {
      FlippedMember(made, c);
    }
    if 2 * |made| == |order| {
      assert |all - both| == 0;
    }
    if forall c :: c in order ==> IsMade(order, c) {
      assert all <= both;
      assert all == both;
    }
  }

  lemma FlippedMember(s: seq<Conn>, c: Conn)
    ensures c in Flipped(s) <==> Flip(c) in s
  {
    if Flip(c) in s {
      var i :| 0 <= i < |s| && s[i] == Flip(c);
      assert Flipped(s)[i] == c;
    }
  }

  lemma {:induction false} UnionIsSmaller(a: set<Conn>, b: set<Conn>, c: Conn)
    requires c in a && c in b
    ensures |a + b| < |a| + |b|
  {
    assert a + b == a + (b - a) && b - a <= b - {c};
    SubsetHasFewer(b - a, b - {c});
    assert |a + (b - a)| == |a| + |b - a|;
  }

  lemma SubsetHasFewer(a: set<Conn>, b: set<Conn>)
    requires a <= b
    ensures |a| <= |b|
  {
    assert b == a + (b - a);
  }

  /** With a self link among them, the links made have fewer than twice as many directions. */
  lemma SelfLinkCountsOnce(order: seq<Conn>, c: Conn)
    requires c in Bound(order) && Flip(c) == c
    ensures |Elems(Bound(order)) + Elems(Flipped(Bound(order)))| < 2 * |Bound(order)|
  {
    var made := Bound(order);
    FlippedMember(made, c);
    UnionIsSmaller(Elems(made), Elems(Flipped(made)), c);
    ElemsAtMost(made);
    ElemsAtMost(Flipped(made));
  }

  lemma {:induction false} ElemsAtMost(s: seq<Conn>)
    ensures |Elems(s)| <= |s|
  {
    if s != [] {
      var n := |s| - 1;
      ElemsAtMost(s[..n]);
      assert Elems(s) == Elems(s[..n]) + {s[n]};
    }
  }

  lemma AllMadeLeavesNoSelfLink(order: seq<Conn>, c: Conn)
    requires WellListed(order) && 2 * |Bound(order)| == |order|
    requires (forall e :: e in order ==> IsMade(order, e)) && c in order
    ensures Flip(c) != c
  {
    if Flip(c) == c {
      var made := Bound(order);
      var both := Elems(made) + Elems(Flipped(made));
      assert IsMade(order, c);
      SelfLinkCountsOnce(order, c);
      forall e | e in order ensures e in both {
        FlippedMember(made, e);
        assert IsMade(order, e);
      }
      DistinctSize(order);
      SubsetHasFewer(Elems(order), both);
    }
  }

  /** When the half-count check passes, every listed link was made exactly if no port index was linked to itself. */
  lemma PassedCheckIff(order: seq<Conn>)
    requires WellListed(order) && 2 * |Bound(order)| == |order|
    ensures (forall c :: c in order ==> IsMade(order, c)) <==> NoSelfLinks(order)
  {
    if NoSelfLinks(order) {
      HalfCountIff(order);
    }
    if forall c :: c in order ==> IsMade(order, c) {
      forall c | c in order ensures c.a != c.b {
        AllMadeLeavesNoSelfLink(order, c);
      }
    }
  }

  /** At each port the listed indices start at 0 and leave no gap. */
  ghost predicate Contiguous(order: seq<Conn>) {
    forall c, k :: c in order && 0 <= k < c.a.index ==> exists e :: e in order && e.a == Port(c.a.name, k)
  }

  function SelfLink(n: Name): Conn {
    Conn(Port(n, 0), Port(n, 0))
  }

  /** The first index of `p` goes to the second of `q`, and the other way round; neither can ever be bound. */
  function Crossed(p: Name, q: Name): seq<Conn> {
    [Conn(Port(p, 0), Port(q, 1)), Conn(Port(p, 1), Port(q, 0)),
     Conn(Port(q, 0), Port(p, 1)), Conn(Port(q, 1), Port(p, 0))]
  }

  function SelfLinks(names: seq<Name>): seq<Conn> {
    seq(|names|, i requires 0 <= i < |names| => SelfLink(names[i]))
  }

  ghost predicate NotUsed(made: seq<Conn>, n: Name) {
    forall i :: 0 <= i < |made| ==> made[i].a.name != n && made[i].b.name != n
  }

  lemma {:induction false} UsedNone(made: seq<Conn>, n: Name)
    requires NotUsed(made, n)
    ensures Used(made, n) == 0
  {
    if made != [] {
      UsedNone(made[..|made| - 1], n);
    }
  }

  lemma {:induction false} SelfLinksAreMade(names: seq<Name>)
    requires Distinct(names)
    ensures Bound(SelfLinks(names)) == SelfLinks(names)
  {
    if names != [] {
      var n := |names| - 1;
      SelfLinksAreMade(names[..n]);
      assert SelfLinks(names) == SelfLinks(names[..n]) + [SelfLink(names[n])];
      UsedNone(SelfLinks(names[..n]), names[n]);
      BoundNext(SelfLinks(names[..n]), SelfLink(names[n]));
    }
  }

  lemma CrossedIsNotMade(init: seq<Conn>, p: Name, q: Name)
    requires p != q && NotUsed(Bound(init), p) && NotUsed(Bound(init), q)
    ensures Bound(init + Crossed(p, q)) == Bound(init)
  {
    var cs := Crossed(p, q);
    UsedNone(Bound(init), p);
    UsedNone(Bound(init), q);
    SkipAll(init, cs);
  }

  lemma {:induction false} SkipAll(init: seq<Conn>, cs: seq<Conn>)
    requires forall c :: c in cs ==> !Bindable(Bound(init), c)
    ensures Bound(init + cs) == Bound(init)
  {
    if cs == [] {
      assert init + cs == init;
    } else {
      var n := |cs| - 1;
      SkipAll(init, cs[..n]);
      assert init + cs == init + cs[..n] + [cs[n]];
      BoundNext(init + cs[..n], cs[n]);
    }
  }

  /** Four self links outweigh two crossed links that can never be bound, and the check passes without them. */
  lemma SelfLinksFoolTheCheck(names: seq<Name>, p: Name, q: Name)
    requires |names| == 4 && p != q && p !in names && q !in names
    requires Distinct(names)
    ensures var order := SelfLinks(names) + Crossed(p, q);
            && WellListed(order) && Contiguous(order)
            && 2 * |Bound(order)| == |order| && forall c :: c in Crossed(p, q) ==> !IsMade(order, c)
  {
    var selves, crossed := SelfLinks(names), Crossed(p, q);
    SelfLinksAreMade(names);
    CrossedIsNotMade(selves, p, q);
    FoolingListIsWell(names, p, q);
    forall c | c in crossed ensures c !in selves && Flip(c) !in selves {
    }
  }

  lemma FoolingListIsWell(names: seq<Name>, p: Name, q: Name)
    requires |names| == 4 && p != q && p !in names && q !in names
    requires Distinct(names)
    ensures WellListed(SelfLinks(names) + Crossed(p, q)) && Contiguous(SelfLinks(names) + Crossed(p, q))
  {
    var selves, crossed := SelfLinks(names), Crossed(p, q);
    var order := selves + crossed;
    forall c | c in order ensures Flip(c) in order {
      if c in crossed {
        assert Flip(crossed[0]) == crossed[3] && Flip(crossed[1]) == crossed[2];
        assert Flip(c) in crossed;
      } else {
        assert Flip(c) == c;
      }
    }
    forall c, k | c in order && 0 <= k < c.a.index ensures exists e :: e in order && e.a == Port(c.a.name, k) {
      assert crossed[0] in order && crossed[2] in order;
      assert c in crossed;
    }
  }

  lemma BoundNext(init: seq<Conn>, c: Conn)
    ensures Bound(init + [c]) == if Bindable(Bound(init), c) then Bound(init) + [c] else Bound(init)
  {
    assert (init + [c])[..|init|] == init;
  }
}
