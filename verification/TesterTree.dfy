/** The tree of caches and testers that the memory test scripts build. */
module TesterTree {
  import opened Sequences
  import opened Arithmetic

  /** A valid pair of specifications: counts from the memory side outwards, one tester count more than caches. */
  ghost predicate ValidSpec(caches: seq<nat>, testers: seq<nat>) {
    && |testers| == |caches| + 1
    && (forall i :: 0 <= i < |caches| ==> caches[i] >= 1)
    && testers[|caches|] >= 1
  }

  /** The product of the first `k` counts. */
  function Product(caches: seq<nat>, k: nat): nat
    requires k <= |caches|
  {
    if k == 0 then 1 else Product(caches, k - 1) * caches[k - 1]
  }

  /** The testers below one subsystem: its own, and those below each of its caches. */
  function TestersBelow(caches: seq<nat>, testers: seq<nat>): nat
    requires |testers| == |caches| + 1
  {
    if caches == [] then testers[0] else testers[0] + caches[0] * TestersBelow(caches[1..], testers[1..])
  }

  /** The number of subsystems of a level that building one subsystem of level |caches| creates. */
  function SubsystemsBelow(caches: seq<nat>, level: nat): nat {
    if level == |caches| then 1
    else if level > |caches| then 0
    else caches[0] * SubsystemsBelow(caches[1..], level)
  }

  /** The closed-form count: the levels' tester counts weighted by how often the tree has fanned out. */
  method NumTesters(caches: seq<nat>, testers: seq<nat>) returns (total: nat)
    requires |testers| == |caches| + 1
    ensures total == TestersBelow(caches, testers)
  {
    var multiplier := [1];
    for i := 0 to |caches|
      invariant |multiplier| == i + 1 && forall k :: 0 <= k <= i ==> multiplier[k] == Product(caches, k)
    {
      multiplier := multiplier + [multiplier[i] * caches[i]];
    }
    total := 0;
    for i := 0 to |testers|
      invariant total + Remaining(caches, testers, i) == Remaining(caches, testers, 0)
    {
      RemainingStep(caches, testers, i);
      total := total + testers[i] * multiplier[i];
    }
    RemainingAtStart(caches, testers);
  }

  /** The testers at depth `i` and below, in the whole tree. */
  function Remaining(caches: seq<nat>, testers: seq<nat>, i: nat): nat
    requires |testers| == |caches| + 1 && i <= |testers|
  {
    if i == |testers| then 0 else Product(caches, i) * TestersBelow(caches[i..], testers[i..])
  }

  lemma RemainingStep(caches: seq<nat>, testers: seq<nat>, i: nat)
    requires |testers| == |caches| + 1 && i < |testers|
    ensures Remaining(caches, testers, i) == testers[i] * Product(caches, i) + Remaining(caches, testers, i + 1)
  {
    if i < |caches| {
      Unfold(caches, testers, i);
    } else {
      assert caches[i..] == [] && testers[i..][0] == testers[i];
      Commute(Product(caches, i), testers[i]);
    }
  }

  lemma RemainingAtStart(caches: seq<nat>, testers: seq<nat>)
    requires |testers| == |caches| + 1
    ensures Remaining(caches, testers, 0) == TestersBelow(caches, testers)
  {
    assert caches[0..] == caches && testers[0..] == testers;
  }

  lemma Unfold(caches: seq<nat>, testers: seq<nat>, i: nat)
    requires |testers| == |caches| + 1 && i < |caches|
    ensures Product(caches, i) * TestersBelow(caches[i..], testers[i..])
         == testers[i] * Product(caches, i) + Product(caches, i + 1) * TestersBelow(caches[i + 1..], testers[i + 1..])
  {
    assert caches[i..][1..] == caches[i + 1..] && testers[i..][1..] == testers[i + 1..];
    Distribute(Product(caches, i), testers[i], caches[i], TestersBelow(caches[i + 1..], testers[i + 1..]));
  }

  lemma Distribute(p: nat, t: nat, c: nat, b: nat)
    ensures p * (t + c * b) == t * p + p * c * b
  {
  }

  lemma {:induction false} SubsystemsAreProduct(caches: seq<nat>, level: nat)
    requires level <= |caches|
    ensures SubsystemsBelow(caches, level) == Product(caches, |caches| - level)
  {
    if level < |caches| {
      SubsystemsAreProduct(caches[1..], level);
      ProductFromFront(caches, |caches| - level);
    }
  }

  lemma {:induction false} ProductFromFront(caches: seq<nat>, k: nat)
    requires 0 < k <= |caches|
    ensures Product(caches, k) == caches[0] * Product(caches[1..], k - 1)
  {
    if k > 1 {
      ProductFromFront(caches, k - 1);
      assert caches[1..][k - 2] == caches[k - 1];
      Reassociate(caches[0], Product(caches[1..], k - 2), caches[k - 1]);
    }
  }

  lemma Reassociate(a: nat, b: nat, c: nat)
    ensures a * b * c == a * (b * c)
  {
  }

  /** The parameters of a prototype cache that scaling changes. */
  datatype Proto = Proto(size: nat, latency: nat, assoc: nat, mshrs: nat, inclusive: bool, writebackClean: bool)

  /** One prototype per level, each scaled from the one nearer the testers; the first is the one next to memory. */
  method ScalePrototypes(caches: seq<nat>, l1: Proto) returns (protos: seq<Proto>)
    requires caches != []
    ensures |protos| == |caches| && protos[|caches| - 1] == l1
    ensures forall i :: 0 <= i < |protos| ==> IsScaled(protos[i], l1, caches, |caches| - 1 - i)
  {
    protos := [l1];
    for k := 0 to |caches| - 1
      invariant |protos| == k + 1 && protos[k] == l1
      invariant forall i :: 0 <= i <= k ==> IsScaled(protos[i], l1, caches, k - i)
    {
      var prev, scale := protos[0], caches[k];
      var next := Proto(prev.size * scale, prev.latency * 10, prev.assoc * scale, prev.mshrs * scale, !prev.inclusive,
                        !prev.writebackClean);
      ScaleStep(prev, next, l1, caches, k);
      protos := [next] + protos;
    }
  }

  function Pow10(n: nat): nat {
    if n == 0 then 1 else 10 * Pow10(n - 1)
  }

  /**
    The prototype `n` levels away from the testers: sized for all it serves, ten times slower per level, clusivity
    alternating.
   */
  ghost predicate IsScaled(p: Proto, l1: Proto, caches: seq<nat>, n: nat)
    requires n <= |caches|
  {
    && p.size == l1.size * Product(caches, n)
    && p.assoc == l1.assoc * Product(caches, n)
    && p.mshrs == l1.mshrs * Product(caches, n)
    && p.latency == l1.latency * Pow10(n)
    && (p.inclusive == l1.inclusive <==> n % 2 == 0)
    && (p.writebackClean == l1.writebackClean <==> n % 2 == 0)
  }

  lemma ScaleStep(p: Proto, next: Proto, l1: Proto, caches: seq<nat>, n: nat)
    requires n < |caches| && IsScaled(p, l1, caches, n)
    requires next == Proto(p.size * caches[n], p.latency * 10, p.assoc * caches[n], p.mshrs * caches[n], !p.inclusive,
                           !p.writebackClean)
    ensures IsScaled(next, l1, caches, n + 1)
  {
    Reassociate(l1.size, Product(caches, n), caches[n]);
    Reassociate(l1.assoc, Product(caches, n), caches[n]);
    Reassociate(l1.mshrs, Product(caches, n), caches[n]);
    Reassociate(l1.latency, Pow10(n), 10);
  }

  class Builder {
    const caches: seq<nat>
    const testers: seq<nat>
    var nextIndex: seq<nat>
    var names: seq<(nat, nat)>
    var created: nat

    /** Every level and index below that level's counter names one subsystem; no name is used twice. */
    ghost predicate Valid()
      reads this
    {
      && ValidSpec(caches, testers)
      && |nextIndex| == |caches| + 1
      && Distinct(names)
      && forall l: nat, i: nat :: (l, i) in names <==> l < |nextIndex| && i < nextIndex[l]
    }

    constructor (caches: seq<nat>, testers: seq<nat>)
      requires ValidSpec(caches, testers)
      ensures Valid() && this.caches == caches && this.testers == testers && created == 0
      ensures forall l :: 0 <= l <= |caches| ==> nextIndex[l] == 0
    {
      this.caches, this.testers := caches, testers;
      nextIndex := seq(|caches| + 1, _ => 0);
      names, created := [], 0;
    }

    /** Takes the next index of a level and names a new subsystem with it. */
    method NewSubsystem(level: nat)
      requires Valid() && level <= |caches|
      modifies this
      ensures Valid() && created == old(created)
      ensures nextIndex == old(nextIndex)[level := old(nextIndex)[level] + 1]
      ensures names == old(names) + [(level, old(nextIndex)[level])]
    {
      names := names + [(level, nextIndex[level])];
      nextIndex := nextIndex[level := nextIndex[level] + 1];
    }

    /** Builds the subtree of one subsystem; the lists hold what is left of the specification and of the prototypes. */
    method MakeLevel(ncaches: seq<nat>, prototypes: seq<Proto>, level: nat, hasNext: bool)
      requires Valid() && level <= |caches| && ncaches == caches[|caches| - level..]
      requires |prototypes| >= level && (level == 0 ==> hasNext)
      modifies this
      ensures Valid() && old(names) <= names
      ensures created == old(created) + TestersBelow(ncaches, testers[|caches| - level..])
      ensures Grew(old(nextIndex), nextIndex, ncaches, 1)
      decreases level, 1
    {
      NewSubsystem(level);
      ghost var base := nextIndex;
      var ntesters := testers[|caches| - level];
      created := created + ntesters;
      if level == 0 {
        assert hasNext && ntesters >= 1;
        return;
      }
      assert testers[|caches| - level..][1..] == testers[|caches| - (level - 1)..];
      MakeBranches(ncaches[0], ncaches[1..], prototypes[1..], level - 1);
      GrewAround(old(nextIndex), base, nextIndex, ncaches, level);
    }

    /** One subtree per cache that fans out from a subsystem. */
    method MakeBranches(fanout: nat, ncaches: seq<nat>, prototypes: seq<Proto>, level: nat)
      requires Valid() && level < |caches| && ncaches == caches[|caches| - level..] && |prototypes| >= level
      modifies this
      ensures Valid() && old(names) <= names
      ensures created == old(created) + fanout * TestersBelow(ncaches, testers[|caches| - level..])
      ensures Grew(old(nextIndex), nextIndex, ncaches, fanout)
      decreases level, 2
    {
      for k := 0 to fanout
        invariant Valid() && old(names) <= names
        invariant created == old(created) + k * TestersBelow(ncaches, testers[|caches| - level..])
        invariant Grew(old(nextIndex), nextIndex, ncaches, k)
      {
        ghost var mid := nextIndex;
        MakeLevel(ncaches, prototypes, level, true);
        GrewMore(old(nextIndex), mid, nextIndex, ncaches, k);
        Distribute(1, TestersBelow(ncaches, testers[|caches| - level..]), k,
                   TestersBelow(ncaches, testers[|caches| - level..]));
      }
    }
  }

  /** Every level's counter grew by `k` subtrees' worth of subsystems. */
  ghost predicate Grew(before: seq<nat>, after: seq<nat>, caches: seq<nat>, k: nat) {
    |before| == |after| && forall l :: 0 <= l < |before| ==> after[l] == before[l] + k * SubsystemsBelow(caches, l)
  }

  lemma GrewMore(a: seq<nat>, b: seq<nat>, c: seq<nat>, caches: seq<nat>, k: nat)
    requires Grew(a, b, caches, k) && Grew(b, c, caches, 1)
    ensures Grew(a, c, caches, k + 1)
  {
    forall l | 0 <= l < |a|
      ensures c[l] == a[l] + (k + 1) * SubsystemsBelow(caches, l)
    {
      Distribute(1, SubsystemsBelow(caches, l), k, SubsystemsBelow(caches, l));
    }
  }

  /** One subsystem and the subtrees of its caches make one subtree of the level above. */
  lemma GrewAround(a: seq<nat>, b: seq<nat>, c: seq<nat>, caches: seq<nat>, level: nat)
    requires level < |a| && b == a[level := a[level] + 1] && caches != [] && level == |caches|
    requires Grew(b, c, caches[1..], caches[0])
    ensures Grew(a, c, caches, 1)
  {
    forall l | 0 <= l < |a|
      ensures c[l] == a[l] + SubsystemsBelow(caches, l)
    {
      assert c[l] == b[l] + caches[0] * SubsystemsBelow(caches[1..], l);
    }
  }

  /**
    The whole tree: as many testers as the closed form says, at each depth the product of the counts up to there,
    every subsystem under a name of its own.
   */
  method Build(caches: seq<nat>, testers: seq<nat>, l1: Proto) returns (b: Builder, total: nat)
    requires ValidSpec(caches, testers) && caches != []
    ensures fresh(b) && b.Valid() && b.caches == caches
    ensures b.created == total == TestersBelow(caches, testers)
    ensures forall l :: 0 <= l <= |caches| ==> b.nextIndex[l] == Product(caches, |caches| - l)
  {
    total := NumTesters(caches, testers);
    var protos := ScalePrototypes(caches, l1);
    b := new Builder(caches, testers);
    assert caches[0..] == caches && testers[0..] == testers;
    b.MakeLevel(caches, protos, |caches|, false);
    forall l | 0 <= l <= |caches|
      ensures b.nextIndex[l] == Product(caches, |caches| - l)
    {
      SubsystemsAreProduct(caches, l);
    }
  }
}
