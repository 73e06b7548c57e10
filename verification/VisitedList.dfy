/** The visited marks of the HNSW searches: an array of 16-bit stamps compared with a running stamp. */
module VisitedLists {

  /** One past the largest value of the 16-bit stamp type. */
  const STAMPS := 0x1_0000

  class VisitedList {
    var stamp: nat
    const mass: array<nat>
    ghost var everReset: bool

    /** Stamps fit 16 bits, and once reset no slot holds a stamp from the future. */
    ghost predicate Valid()
      reads this, mass
    {
      && stamp < STAMPS
      && (everReset ==> 0 < stamp && forall i :: 0 <= i < mass.Length ==> mass[i] <= stamp)
      && (!everReset ==> stamp == STAMPS - 1)
    }

    /** The elements visited since the last reset. */
    ghost function Marked(): set<nat>
      reads this, mass
    {
      set i: nat | i < mass.Length && mass[i] == stamp
    }

    /** The memory is not cleared: the slots start with whatever `junk` it held. */
    constructor (junk: seq<nat>)
      ensures Valid() && fresh(mass) && mass.Length == |junk| && !everReset
    {
      stamp := STAMPS - 1;
      mass := new nat[|junk|](i requires 0 <= i < |junk| => junk[i]);
      everReset := false;
    }

    /** Starts a new search; the slots are cleared only when the stamp wraps around. */
    method Reset()
      requires Valid()
      modifies this, mass
      ensures Valid() && everReset && Marked() == {}
    {
      stamp := (stamp + 1) % STAMPS;
      if stamp == 0 {
        forall i | 0 <= i < mass.Length {
          mass[i] := 0;
        }
        stamp := 1;
      }
      everReset := true;
    }

    method Mark(i: nat)
      requires Valid() && everReset && i < mass.Length
      modifies mass
      ensures Valid() && Marked() == old(Marked()) + {i}
    {
      mass[i] := stamp;
    }

    method IsMarked(i: nat) returns (b: bool)
      requires Valid() && everReset && i < mass.Length
      ensures b <==> i in Marked()
    {
      b := mass[i] == stamp;
    }
  }

  /** One search visiting the elements of `v` in order, counting those it had not seen before. */
  method RunSearch(vl: VisitedList, v: seq<nat>) returns (count: nat)
    requires vl.Valid()
    requires forall j :: 0 <= j < |v| ==> v[j] < vl.mass.Length
    modifies vl, vl.mass
    ensures vl.Valid() && vl.Marked() == set x | x in v
    ensures count == |set x | x in v|
  {
    vl.Reset();
    count := 0;
    for j := 0 to |v|
      invariant vl.Valid() && vl.everReset
      invariant vl.Marked() == set x | x in v[..j]
      invariant count == |vl.Marked()|
    {
      var seen := vl.IsMarked(v[j]);
      if !seen {
        vl.Mark(v[j]);
        count := count + 1;
      }
      assert v[..j + 1] == v[..j] + [v[j]];
    }
    assert v[..|v|] == v;
  }
}
