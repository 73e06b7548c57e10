/** The scan of the exact search over slots 0, 1, ..., count - 1, with an optional filter on labels. */
module ExactSearch {
  import opened Orders
  import opened Graphs

  /** The order of the result heap: by distance, then by label. */
  predicate Less(d: nat -> real, lab: nat -> nat, a: nat, b: nat) {
    d(a) < d(b) || (d(a) == d(b) && lab(a) < lab(b))
  }

  ghost predicate Injective(lab: nat -> nat, r: set<nat>) {
    forall a, b :: a in r && b in r && a != b ==> lab(a) != lab(b)
  }

  /** `s` holds the `k` first elements of `r`, or all of them if there are fewer. */
  ghost predicate IsSmallest(s: set<nat>, r: set<nat>, d: nat -> real, lab: nat -> nat, k: nat) {
    && s <= r
    && |s| == (if |r| < k then |r| else k)
    && forall a, b :: a in s && b in r && b !in s ==> Less(d, lab, a, b)
  }

  /** Whatever is left out is farther away than everything chosen or, at the same distance, has a larger label. */
  lemma SmallestMeans(s: set<nat>, r: set<nat>, d: nat -> real, lab: nat -> nat, k: nat, a: nat, b: nat)
    requires IsSmallest(s, r, d, lab, k) && a in s && b in r && b !in s
    ensures d(a) <= d(b) && (d(a) == d(b) ==> lab(a) < lab(b))
  {
  }

  /** The answer to an exact search is unique. */
  lemma SmallestIsUnique(s: set<nat>, t: set<nat>, r: set<nat>, d: nat -> real, lab: nat -> nat, k: nat)
    requires IsSmallest(s, r, d, lab, k) && IsSmallest(t, r, d, lab, k)
    ensures s == t
  {
    if s <= t {
      SubsetSize(s, t);
    } else {
      var a :| a in s && a !in t;
      if t <= s {
        SubsetSize(t, s);
      }
      assert forall b :: b in t ==> b in s || (Less(d, lab, a, b) && Less(d, lab, b, a));
    }
  }

  lemma LastExists(s: set<nat>, d: nat -> real, lab: nat -> nat)
    requires s != {} && Injective(lab, s)
    ensures exists m :: m in s && forall t :: t in s && t != m ==> Less(d, lab, t, m)
  {
    var m := MinimumExists(s, (a: nat, b: nat) => a == b || Less(d, lab, b, a));
    assert forall t :: t in s && t != m ==> Less(d, lab, t, m);
  }

  /** The slots among the first `n` whose label is allowed. */
  ghost function AllowedBelow(n: nat, ok: nat -> bool): set<nat> {
    set i: nat | i < n && ok(i)
  }

  /** The part of `r` within distance `limit`. */
  ghost function Within(r: set<nat>, d: nat -> real, limit: real): set<nat> {
    set i | i in r && d(i) <= limit
  }

  ghost predicate IsFarthest(r: set<nat>, d: nat -> real, limit: real) {
    (forall i :: i in r ==> d(i) <= limit) && exists i :: i in r && d(i) == limit
  }

  /**
    The distance beyond which the scan drops elements even while the heap has room: the worst allowed distance
    among the first `k` slots or, if none of them is allowed, the distance of the first allowed slot.
   */
  ghost predicate IsCutoff(count: nat, k: nat, d: nat -> real, ok: nat -> bool, limit: real) {
    if AllowedBelow(k, ok) != {} then
      IsFarthest(AllowedBelow(k, ok), d, limit)
    else
      forall i: nat :: i < count && IsFirstAllowed(i, ok) ==> d(i) == limit
  }

  ghost predicate IsFirstAllowed(i: nat, ok: nat -> bool) {
    ok(i) && AllowedBelow(i, ok) == {}
  }

  /** The heap holds the `k` first of the allowed slots so far within the cutoff, and knows its worst distance. */
  ghost predicate ScanState(i: nat, k: nat, d: nat -> real, lab: nat -> nat, ok: nat -> bool, maxDist: real,
                            heap: set<nat>, last: real, limit: real)
  {
    && IsSmallest(heap, Within(AllowedBelow(i, ok), d, limit), d, lab, k)
    && (heap != {} ==> IsFarthest(heap, d, last))
    && (heap == {} ==> last == maxDist)
    && (0 < |heap| < k ==> last == limit)
    && (k > 0 && heap == {} ==> AllowedBelow(i, ok) == {})
  }

  /** Adding one more slot to the pool either leaves the answer alone or puts the slot in place of the last one. */
  lemma PushPop(heap: set<nat>, pool: set<nat>, d: nat -> real, lab: nat -> nat, k: nat, x: nat, m: nat)
    requires IsSmallest(heap, pool, d, lab, k) && x !in pool
    requires |heap| == k && m in heap + {x} && forall t :: t in heap + {x} && t != m ==> Less(d, lab, t, m)
    ensures IsSmallest(heap + {x} - {m}, pool + {x}, d, lab, k)
  {
    SubsetSize(heap, pool);
    assert heap + {x} - {m} + {m} == heap + {x};
    assert |pool + {x}| == |pool| + 1;
  }

  lemma PushOnly(heap: set<nat>, pool: set<nat>, d: nat -> real, lab: nat -> nat, k: nat, x: nat)
    requires IsSmallest(heap, pool, d, lab, k) && x !in pool && |heap| < k
    ensures heap == pool && IsSmallest(heap + {x}, pool + {x}, d, lab, k)
  {
    SubsetSize(heap, pool);
    assert |pool + {x}| == |pool| + 1;
  }

  lemma TooFar(heap: set<nat>, pool: set<nat>, d: nat -> real, lab: nat -> nat, k: nat, x: nat)
    requires IsSmallest(heap, pool, d, lab, k) && x !in pool && |heap| == k
    requires forall t :: t in heap ==> d(t) < d(x)
    ensures IsSmallest(heap, pool + {x}, d, lab, k)
  {
    SubsetSize(heap, pool);
    assert |pool + {x}| == |pool| + 1;
  }

  lemma PoolGrows(i: nat, d: nat -> real, ok: nat -> bool, limit: real)
    ensures Within(AllowedBelow(i + 1, ok), d, limit)
         == Within(AllowedBelow(i, ok), d, limit) + if ok(i) && d(i) <= limit then {i} else {}
    ensures AllowedBelow(i + 1, ok) == AllowedBelow(i, ok) + if ok(i) then {i} else {}
  {
  }

  /** A slot that enters the heap lies within the cutoff, unless the heap keeps nothing at all. */
  lemma EnteringIsWithin(i: nat, count: nat, k: nat, d: nat -> real, lab: nat -> nat, ok: nat -> bool, maxDist: real,
                         heap: set<nat>, last: real, limit: real)
    requires 0 < k <= i < count && IsCutoff(count, k, d, ok, limit)
    requires ScanState(i, k, d, lab, ok, maxDist, heap, last, limit)
    requires d(i) <= last && ok(i)
    ensures d(i) <= limit
    ensures |heap| < k ==> heap == {} || last == limit
    ensures heap == {} ==> d(i) == limit
  {
    if heap == {} {
      assert AllowedBelow(k, ok) <= AllowedBelow(i, ok);
      assert IsFirstAllowed(i, ok);
    }
  }

  /** Pushes `x` onto the heap of the `k` first of `pool` and pops the last one if that makes more than `k`. */
  method PushBounded(heap: set<nat>, ghost pool: set<nat>, d: nat -> real, lab: nat -> nat, k: nat, x: nat)
    returns (heap': set<nat>)
    requires IsSmallest(heap, pool, d, lab, k) && x !in pool && Injective(lab, pool + {x})
    ensures IsSmallest(heap', pool + {x}, d, lab, k)
    ensures |heap| < k ==> heap' == heap + {x}
  {
    SubsetSize(heap, pool);
    heap' := heap + {x};
    assert |heap'| == |heap| + 1;
    if |heap'| > k {
      assert Injective(lab, heap');
      LastExists(heap', d, lab);
      var m :| m in heap' && forall t :: t in heap' && t != m ==> Less(d, lab, t, m);
      PushPop(heap, pool, d, lab, k, x, m);
      heap' := heap' - {m};
    } else {
      PushOnly(heap, pool, d, lab, k, x);
    }
  }

  /** After a slot entered a heap that keeps something, the state describes one slot more. */
  lemma EnteringKeeps(i: nat, count: nat, k: nat, d: nat -> real, lab: nat -> nat, ok: nat -> bool, maxDist: real,
                      heap: set<nat>, last: real, limit: real, heap': set<nat>, last': real)
    requires 0 < k <= i < count && IsCutoff(count, k, d, ok, limit)
    requires ScanState(i, k, d, lab, ok, maxDist, heap, last, limit)
    requires d(i) <= last && ok(i)
    requires IsSmallest(heap', Within(AllowedBelow(i, ok), d, limit) + {i}, d, lab, k)
    requires |heap| < k ==> heap' == heap + {i}
    requires heap' != {} ==> IsFarthest(heap', d, last')
    ensures ScanState(i + 1, k, d, lab, ok, maxDist, heap', last', limit)
  {
    EnteringIsWithin(i, count, k, d, lab, ok, maxDist, heap, last, limit);
    PoolGrows(i, d, ok, limit);
    SubsetSize({i}, Within(AllowedBelow(i + 1, ok), d, limit));
    SubsetSize(heap, Within(AllowedBelow(i, ok), d, limit));
    assert |Within(AllowedBelow(i, ok), d, limit) + {i}| == |Within(AllowedBelow(i, ok), d, limit)| + 1;
  }

  lemma SkippingKeeps(i: nat, k: nat, d: nat -> real, lab: nat -> nat, ok: nat -> bool, maxDist: real,
                      heap: set<nat>, last: real, limit: real)
    requires ScanState(i, k, d, lab, ok, maxDist, heap, last, limit) && d(i) <= maxDist
    requires ok(i) ==> d(i) > last
    ensures ScanState(i + 1, k, d, lab, ok, maxDist, heap, last, limit)
  {
    PoolGrows(i, d, ok, limit);
    if ok(i) && d(i) <= limit {
      SubsetSize(heap, Within(AllowedBelow(i, ok), d, limit));
      TooFar(heap, Within(AllowedBelow(i, ok), d, limit), d, lab, k, i);
    }
  }

  /** One slot of the second phase of the scan. */
  method Consider(i: nat, ghost count: nat, k: nat, d: nat -> real, lab: nat -> nat, ok: nat -> bool,
                  ghost maxDist: real, heap: set<nat>, last: real, ghost limit: real)
    returns (heap': set<nat>, last': real)
    requires k <= i < count && Injective(lab, AllowedBelow(count, ok))
    requires d(i) <= maxDist && IsCutoff(count, k, d, ok, limit)
    requires ScanState(i, k, d, lab, ok, maxDist, heap, last, limit)
    ensures ScanState(i + 1, k, d, lab, ok, maxDist, heap', last', limit)
  {
    heap', last' := heap, last;
    if k == 0 {
      NothingKeeps(i, d, lab, ok, maxDist, heap, last, limit);  // whatever is pushed is popped again
    } else if d(i) <= last && ok(i) {
      heap', last' := Enter(i, count, k, d, lab, ok, heap, last, limit);
      EnteringKeeps(i, count, k, d, lab, ok, maxDist, heap, last, limit, heap', last');
    } else {
      SkippingKeeps(i, k, d, lab, ok, maxDist, heap, last, limit);
    }
  }

  /** The push of a slot, and the new last distance. */
  method Enter(i: nat, ghost count: nat, k: nat, d: nat -> real, lab: nat -> nat, ok: nat -> bool,
               heap: set<nat>, last: real, ghost limit: real)
    returns (heap': set<nat>, last': real)
    requires i < count && ok(i) && Injective(lab, AllowedBelow(count, ok))
    requires IsSmallest(heap, Within(AllowedBelow(i, ok), d, limit), d, lab, k)
    ensures IsSmallest(heap', Within(AllowedBelow(i, ok), d, limit) + {i}, d, lab, k)
    ensures |heap| < k ==> heap' == heap + {i}
    ensures heap' != {} ==> IsFarthest(heap', d, last')
  {
    ghost var pool := Within(AllowedBelow(i, ok), d, limit);
    assert pool + {i} <= AllowedBelow(count, ok);
    heap' := PushBounded(heap, pool, d, lab, k, i);
    last' := last;
    if heap' != {} {
      last' := Farthest(heap', d);
    }
  }

  lemma NothingKeeps(i: nat, d: nat -> real, lab: nat -> nat, ok: nat -> bool, maxDist: real, heap: set<nat>,
                     last: real, limit: real)
    requires ScanState(i, 0, d, lab, ok, maxDist, heap, last, limit)
    ensures ScanState(i + 1, 0, d, lab, ok, maxDist, heap, last, limit)
  {
    PoolGrows(i, d, ok, limit);
  }

  method Farthest(heap: set<nat>, d: nat -> real) returns (last: real)
    requires heap != {}
    ensures IsFarthest(heap, d, last)
  {
    GreatestExists(heap, d);
    var w :| w in heap && forall t :: t in heap ==> d(t) <= d(w);
    last := d(w);
  }

  method FirstBatch(k: nat, ok: nat -> bool) returns (heap: set<nat>)
    ensures heap == AllowedBelow(k, ok) && |heap| <= k
  {
    heap := {};
    for i := 0 to k
      invariant heap == AllowedBelow(i, ok) && |heap| <= i
    {
      if ok(i) {
        heap := heap + {i};
      }
    }
  }

  /** The `k` first of the allowed slots within the cutoff. */
  ghost predicate IsScanned(heap: set<nat>, count: nat, k: nat, d: nat -> real, lab: nat -> nat, ok: nat -> bool,
                            limit: real) {
    IsCutoff(count, k, d, ok, limit) && IsSmallest(heap, Within(AllowedBelow(count, ok), d, limit), d, lab, k)
  }

  /** The state after the first batch. */
  lemma FirstState(count: nat, k: nat, d: nat -> real, lab: nat -> nat, ok: nat -> bool, maxDist: real,
                   heap: set<nat>, last: real, limit: real)
    requires k <= count && heap == AllowedBelow(k, ok) && |heap| <= k && IsCutoff(count, k, d, ok, limit)
    requires if heap == {} then last == maxDist else IsFarthest(heap, d, last)
    requires forall i :: 0 <= i < count ==> d(i) <= maxDist
    ensures ScanState(k, k, d, lab, ok, maxDist, heap, last, limit)
  {
    assert Within(AllowedBelow(k, ok), d, limit) == heap;
  }

  /** The whole scan. */
  method Scan(count: nat, k: nat, d: nat -> real, lab: nat -> nat, ok: nat -> bool, maxDist: real)
    returns (heap: set<nat>)
    requires k <= count && Injective(lab, AllowedBelow(count, ok))
    requires forall i :: 0 <= i < count ==> d(i) <= maxDist
    ensures exists limit :: IsScanned(heap, count, k, d, lab, ok, limit)
  {
    var last;
    ghost var limit;
    heap, last, limit := Begin(count, k, d, lab, ok, maxDist);
    for i := k to count
      invariant ScanState(i, k, d, lab, ok, maxDist, heap, last, limit)
    {
      heap, last := Consider(i, count, k, d, lab, ok, maxDist, heap, last, limit);
    }
    LastState(count, k, d, lab, ok, maxDist, heap, last, limit);
  }

  lemma LastState(count: nat, k: nat, d: nat -> real, lab: nat -> nat, ok: nat -> bool, maxDist: real, heap: set<nat>,
                  last: real, limit: real)
    requires ScanState(count, k, d, lab, ok, maxDist, heap, last, limit) && IsCutoff(count, k, d, ok, limit)
    ensures IsScanned(heap, count, k, d, lab, ok, limit)
  {
  }

  /** The first `k` slots, and the last distance they leave. */
  method Begin(ghost count: nat, k: nat, d: nat -> real, ghost lab: nat -> nat, ok: nat -> bool, maxDist: real)
    returns (heap: set<nat>, last: real, ghost limit: real)
    requires k <= count && Injective(lab, AllowedBelow(count, ok))
    requires forall i :: 0 <= i < count ==> d(i) <= maxDist
    ensures IsCutoff(count, k, d, ok, limit) && ScanState(k, k, d, lab, ok, maxDist, heap, last, limit)
  {
    heap := FirstBatch(k, ok);
    last := maxDist;
    if heap != {} {
      last := Farthest(heap, d);
    }
    limit := Cutoff(count, k, d, ok, maxDist);
    FirstState(count, k, d, lab, ok, maxDist, heap, last, limit);
  }

  lemma Cutoff(count: nat, k: nat, d: nat -> real, ok: nat -> bool, maxDist: real) returns (limit: real)
    ensures IsCutoff(count, k, d, ok, limit)
  {
    if AllowedBelow(k, ok) != {} {
      GreatestExists(AllowedBelow(k, ok), d);
      var w :| w in AllowedBelow(k, ok) && forall t :: t in AllowedBelow(k, ok) ==> d(t) <= d(w);
      limit := d(w);
    } else if AllowedBelow(count, ok) != {} {
      var i := 0;
      while !ok(i)
        invariant i < count && AllowedBelow(i, ok) == {}
        decreases count - i
      {
        PoolGrows(i, d, ok, 0.0);
        assert exists j: nat :: j < count && ok(j) by {
          var j :| j in AllowedBelow(count, ok);
        }
        i := i + 1;
      }
      assert forall j: nat :: j > i ==> i in AllowedBelow(j, ok);
      assert forall j: nat :: j < i && ok(j) ==> j in AllowedBelow(i, ok);
      limit := d(i);
    } else {
      assert forall j: nat :: j < count && ok(j) ==> j in AllowedBelow(count, ok);
      limit := maxDist;
    }
  }

  /**
    The scan answers the filtered query correctly exactly when the cutoff keeps enough: `k` allowed slots lie
    within it, or all of them do.
   */
  lemma FilteredScanIsExactIff(s: set<nat>, all: set<nat>, d: nat -> real, lab: nat -> nat, k: nat, limit: real)
    requires IsSmallest(s, Within(all, d, limit), d, lab, k)
    ensures IsSmallest(s, all, d, lab, k) <==> |Within(all, d, limit)| >= k || Within(all, d, limit) == all
  {
    SubsetSize(Within(all, d, limit), all);
  }

  /** The filter of a search without one. */
  predicate Unfiltered(i: nat) {
    true
  }

  ghost function AllBelow(n: nat): set<nat> {
    AllowedBelow(n, Unfiltered)
  }

  /** Without a filter the scan is always exact. */
  lemma UnfilteredScanIsExact(s: set<nat>, count: nat, d: nat -> real, lab: nat -> nat, k: nat, limit: real)
    requires k <= count && IsScanned(s, count, k, d, lab, Unfiltered, limit)
    ensures IsSmallest(s, AllBelow(count), d, lab, k) && |s| == k
  {
    AllBelowSize(k);
    AllBelowSize(count);
    SubsetSize(AllBelow(k), Within(AllBelow(count), d, limit));
    FilteredScanIsExactIff(s, AllBelow(count), d, lab, k, limit);
  }

  lemma {:induction false} AllBelowSize(n: nat)
    ensures |AllBelow(n)| == n
  {
    if n > 0 {
      AllBelowSize(n - 1);
      assert AllBelow(n) == AllBelow(n - 1) + {n - 1};
    }
  }

  /**
    A filtered query the scan answers wrongly: of three slots at distances 1, 2 and 3 the first and the last are
    allowed, two are asked for, and the last is dropped although the heap has room.
   */
  lemma FilteredScanCanMiss(s: set<nat>, d: nat -> real, ok: nat -> bool, limit: real)
    requires d(0) == 1.0 && d(1) == 2.0 && d(2) == 3.0
    requires ok(0) && !ok(1) && ok(2)
    requires IsScanned(s, 3, 2, d, (i: nat) => i, ok, limit)
    ensures s == {0} && !IsSmallest(s, AllowedBelow(3, ok), d, (i: nat) => i, 2)
  {
    assert AllowedBelow(2, ok) == {0};
    assert AllowedBelow(3, ok) == {0, 2};
    assert Within(AllowedBelow(3, ok), d, limit) == {0};
    FilteredScanIsExactIff(s, {0, 2}, d, (i: nat) => i, 2, limit);
    SubsetSize(s, {0});
  }
}
