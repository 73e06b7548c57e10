/** The exact search that produces the ground truth: a flat store of labelled vectors, scanned in full. */
module BruteForce {

  datatype Slot<V> = Blank | Holds(vec: V, lbl: nat)

  /** The buffer, how much of it is in use, and the dictionary from labels to slots. */
  datatype Store<V> = Store(slots: seq<Slot<V>>, count: nat, dict: map<nat, nat>)

  /** The dictionary names exactly the slots in use, one label each. */
  ghost predicate Consistent<V>(s: Store<V>) {
    && s.count <= |s.slots|
    && (forall i :: 0 <= i < s.count ==> s.slots[i].Holds? && s.slots[i].lbl in s.dict && s.dict[s.slots[i].lbl] == i)
    && forall x :: x in s.dict ==> s.dict[x] < s.count && s.slots[s.dict[x]].Holds? && s.slots[s.dict[x]].lbl == x
  }

  /** What the store holds, by label. */
  ghost function Contents<V>(s: Store<V>): map<nat, V>
    requires Consistent(s)
  {
    map x | x in s.dict :: s.slots[s.dict[x]].vec
  }

  /**
    Adding, or overwriting in place when the dictionary knows the label; the slot it names may lie beyond the count.
   */
  function Added<V>(s: Store<V>, vec: V, lbl: nat): Store<V>
    requires lbl in s.dict ==> s.dict[lbl] < |s.slots|
    requires lbl !in s.dict ==> s.count < |s.slots|
  {
    if lbl in s.dict then
      s.(slots := s.slots[s.dict[lbl] := Holds(vec, lbl)])
    else
      Store(s.slots[s.count := Holds(vec, lbl)], s.count + 1, s.dict[lbl := s.count])
  }

  /** Removing: the last slot moves into the freed one and the dictionary is told where it went. */
  function Removed<V>(s: Store<V>, lbl: nat): Store<V>
    requires lbl in s.dict && 0 < s.count <= |s.slots| && s.dict[lbl] < |s.slots|
    requires s.slots[s.count - 1].Holds?
  {
    var freed := s.dict[lbl];
    var last := s.slots[s.count - 1];
    Store(s.slots[freed := last], s.count - 1, (s.dict - {lbl})[last.lbl := freed])
  }

  class Index<V> {
    var store: Store<V>

    constructor (maxElements: nat)
      ensures Consistent(store) && Contents(store) == map[] && |store.slots| == maxElements
    {
      store := Store(seq(maxElements, _ => Blank), 0, map[]);
    }

    method AddPoint(vec: V, lbl: nat) returns (ok: bool)
      requires Consistent(store)
      modifies this
      ensures Consistent(store)
      ensures ok <==> old(lbl in store.dict || store.count < |store.slots|)
      ensures if ok then Contents(store) == old(Contents(store))[lbl := vec] else store == old(store)
    {
      if lbl !in store.dict && store.count >= |store.slots| {
        return false;
      }
      AddedIsInsert(store, vec, lbl);
      store := Added(store, vec, lbl);
      ok := true;
    }

    method RemovePoint(lbl: nat)
      requires Consistent(store)
      modifies this
      ensures old(lbl !in store.dict) ==> store == old(store)
      ensures old(lbl in store.dict) ==> store == Removed(old(store), lbl)
      ensures Consistent(store) <==> old(lbl !in store.dict || store.dict[lbl] != store.count - 1)
      ensures Consistent(store) ==> Contents(store) == old(Contents(store)) - {lbl}
    {
      if lbl in store.dict {
        RemovedIsDelete(store, lbl);
        store := Removed(store, lbl);
      }
    }
  }

  lemma AddedIsInsert<V>(s: Store<V>, vec: V, lbl: nat)
    requires Consistent(s) && (lbl in s.dict || s.count < |s.slots|)
    ensures Consistent(Added(s, vec, lbl))
    ensures Contents(Added(s, vec, lbl)) == Contents(s)[lbl := vec]
  {
    AddingKeepsConsistency(s, vec, lbl);
    var t := Added(s, vec, lbl);
    assert t.dict.Keys == s.dict.Keys + {lbl};
    forall x | x in t.dict ensures t.slots[t.dict[x]].vec == if x == lbl then vec else s.slots[s.dict[x]].vec {
      assert x != lbl ==> t.dict[x] == s.dict[x] != t.dict[lbl];
    }
  }

  lemma AddingKeepsConsistency<V>(s: Store<V>, vec: V, lbl: nat)
    requires Consistent(s) && (lbl in s.dict || s.count < |s.slots|)
    ensures Consistent(Added(s, vec, lbl))
  {
  }

  /** Removal does its job exactly when the removed label does not sit in the last slot in use. */
  lemma RemovedIsDelete<V>(s: Store<V>, lbl: nat)
    requires Consistent(s) && lbl in s.dict
    ensures Consistent(Removed(s, lbl)) <==> s.dict[lbl] != s.count - 1
    ensures s.dict[lbl] != s.count - 1 ==> Contents(Removed(s, lbl)) == Contents(s) - {lbl}
  {
    if s.dict[lbl] == s.count - 1 {
      assert Removed(s, lbl).dict[lbl] == Removed(s, lbl).count;
    } else {
      RemovalKeepsConsistency(s, lbl);
      RemovalKeepsTheRest(s, lbl);
    }
  }

  lemma RemovalKeepsConsistency<V>(s: Store<V>, lbl: nat)
    requires Consistent(s) && lbl in s.dict && s.dict[lbl] != s.count - 1
    ensures Consistent(Removed(s, lbl))
  {
    var t := Removed(s, lbl);
    var last := s.slots[s.count - 1].lbl;
    assert last != lbl && s.dict[last] == s.count - 1;
    assert forall x :: x in s.dict && x != lbl && x != last ==> t.dict[x] == s.dict[x] && s.dict[x] != s.dict[lbl];
  }

  lemma RemovalKeepsTheRest<V>(s: Store<V>, lbl: nat)
    requires Consistent(s) && lbl in s.dict && s.dict[lbl] != s.count - 1 && Consistent(Removed(s, lbl))
    ensures Contents(Removed(s, lbl)) == Contents(s) - {lbl}
  {
    var t := Removed(s, lbl);
    var last := s.slots[s.count - 1].lbl;
    assert t.dict[last] == s.dict[lbl] && s.dict[last] == s.count - 1;
    assert t.dict.Keys == s.dict.Keys - {lbl};
    forall x | x in t.dict ensures t.slots[t.dict[x]].vec == s.slots[s.dict[x]].vec {
      assert x != last ==> t.dict[x] == s.dict[x] != s.dict[lbl];
    }
  }

  /**
    What goes wrong otherwise: after the label in the last slot is removed, adding that label again
    writes behind the slots in use, so no search will ever see the point.
   */
  lemma ReaddedAfterLastRemovalIsLost<V>(s: Store<V>, lbl: nat, vec: V)
    requires Consistent(s) && lbl in s.dict && s.dict[lbl] == s.count - 1
    ensures var t := Added(Removed(s, lbl), vec, lbl);
            t.count == s.count - 1 && forall i :: 0 <= i < t.count ==> t.slots[i].Holds? && t.slots[i].lbl != lbl
  {
    assert forall i :: 0 <= i < s.count - 1 ==> s.slots[i].lbl != lbl;
  }
}
