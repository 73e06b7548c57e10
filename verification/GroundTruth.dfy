/** Creating the ground truth of a dataset, checking it, and counting recall against it. */
module GroundTruth {
  import opened Arithmetic
  import opened Sequences
  import opened Options
  import opened Graphs
  import opened ExactSearch
  import opened Neighbors
  import opened DatasetFile
  import opened Floats
  import opened Words
  import BeamSearch

  function Self(i: nat): nat { i }

  /** The train points in ascending order of distance, then label. */
  ghost predicate Ascending(row: seq<nat>, d: nat -> real) {
    forall a, b :: 0 <= a < b < |row| ==> Less(d, Self, row[a], row[b])
  }

  ghost predicate IsRow(row: seq<nat>, heap: set<nat>, d: nat -> real) {
    |row| == |heap| && Ascending(row, d) && forall x :: x in row <==> x in heap
  }

  /** The `k` cells of query `i` in a flat array lie inside the array, behind those of all earlier queries. */
  lemma CellInBounds(i: nat, n: nat, k: nat)
    requires i < n
    ensures 0 <= i * k && i * k + k <= n * k && (i + 1) * k == i * k + k
  {
    assert (i + 1) * k <= n * k;
  }

  /** Part-way through emptying a heap from the top: `row` is popped, `rest` is still to come. */
  ghost predicate Draining(heap: set<nat>, rest: set<nat>, row: seq<nat>, d: nat -> real) {
    && |rest| + |row| == |heap|
    && (forall x :: x in heap <==> x in rest || x in row)
    && Ascending(row, d)
    && forall x, y :: x in rest && y in row ==> Less(d, Self, x, y)
  }

  method PopTop(ghost heap: set<nat>, rest: set<nat>, ghost row: seq<nat>, d: nat -> real)
    returns (top: nat, rest': set<nat>)
    requires Draining(heap, rest, row, d) && rest != {}
    ensures rest' == rest - {top} && |rest'| == |rest| - 1
    ensures Draining(heap, rest', [top] + row, d)
  {
    LastExists(rest, d, Self);
    top :| top in rest && forall t :: t in rest && t != top ==> Less(d, Self, t, top);
    rest' := rest - {top};
  }

  /** Empties a heap into the `k` cells behind `base`, writing from the back. */
  method DrainInto(neighbors: array<Word>, distances: array<real>, base: nat, k: nat, heap: set<nat>,
                   d: nat -> real, store: nat -> Word)
    returns (ghost row: seq<nat>)
    requires |heap| == k && base + k <= neighbors.Length && base + k <= distances.Length
    modifies neighbors, distances
    ensures IsRow(row, heap, d)
    ensures forall j :: 0 <= j < k ==> neighbors[base + j] == store(row[j]) && distances[base + j] == d(row[j])
    ensures forall x :: 0 <= x < base ==> neighbors[x] == old(neighbors[x]) && distances[x] == old(distances[x])
  {
    var rest := heap;
    var j := k;
    row := [];
    while j > 0
      invariant j <= k && |rest| == j && |row| == k - j && Draining(heap, rest, row, d)
      invariant forall r ::
                  0 <= r < |row| ==> neighbors[base + j + r] == store(row[r]) && distances[base + j + r] == d(row[r])
      invariant forall x :: 0 <= x < base ==> neighbors[x] == old(neighbors[x]) && distances[x] == old(distances[x])
    {
      j := j - 1;
      var top, rest' := PopTop(heap, rest, row, d);
      neighbors[base + j] := store(top);
      distances[base + j] := d(top);
      assert forall r :: 0 < r < |row| + 1 ==> ([top] + row)[r] == row[r - 1];
      rest, row := rest', [top] + row;
    }
  }

  /** Row `i` of the flat arrays holds the `k` nearest train points of query `i`, nearest first. */
  ghost predicate RowIsTrue<T>(neighbors: seq<T>, distances: seq<real>, i: nat, k: nat, train: nat, d: nat -> real,
                               store: nat -> T)
  {
    exists row: seq<nat> :: IsTrueRow(row, neighbors, distances, i * k, k, train, d, store)
  }

  ghost predicate IsTrueRow<T>(row: seq<nat>, neighbors: seq<T>, distances: seq<real>, base: int, k: nat, train: nat,
                            d: nat -> real, store: nat -> T)
  {
    && |row| == k && Ascending(row, d) && IsSmallest(Elems(row), AllBelow(train), d, Self, k)
    && 0 <= base && base + k <= |neighbors| && base + k <= |distances|
    && forall j :: 0 <= j < k ==> neighbors[base + j] == store(row[j]) && distances[base + j] == d(row[j])
  }

  ghost predicate RowsAreTrue<T>(neighbors: seq<T>, distances: seq<real>, n: nat, k: nat, train: nat,
                              dist: nat -> nat -> real, store: nat -> T)
  {
    forall i :: 0 <= i < n ==> RowIsTrue(neighbors, distances, i, k, train, dist(i), store)
  }

  /** The scan without a filter, on points labelled by their positions. */
  method ExactAnswer(train: nat, topk: nat, d: nat -> real, maxDist: real) returns (heap: set<nat>)
    requires topk <= train && forall j :: 0 <= j < train ==> d(j) <= maxDist
    ensures |heap| == topk && IsSmallest(heap, AllBelow(train), d, Self, topk)
  {
    heap := Scan(train, topk, d, Self, Unfiltered, maxDist);
    ghost var limit :| IsScanned(heap, train, topk, d, Self, Unfiltered, limit);
    UnfilteredScanIsExact(heap, train, d, Self, topk, limit);
  }

  /** One query of the creator: an exact search drained into its cells. */
  method TruthRow(neighbors: array<Word>, distances: array<real>, base: nat, train: nat, topk: nat, d: nat -> real,
                  maxDist: real, store: nat -> Word)
    requires topk <= train && base + topk <= neighbors.Length && base + topk <= distances.Length
    requires forall j :: 0 <= j < train ==> d(j) <= maxDist
    modifies neighbors, distances
    ensures exists row: seq<nat> :: IsTrueRow(row, neighbors[..], distances[..], base, topk, train, d, store)
    ensures forall x :: 0 <= x < base ==> neighbors[x] == old(neighbors[x]) && distances[x] == old(distances[x])
  {
    var heap := ExactAnswer(train, topk, d, maxDist);
    ghost var row := DrainInto(neighbors, distances, base, topk, heap, d, store);
    assert Elems(row) == heap;
    assert IsTrueRow(row, neighbors[..], distances[..], base, topk, train, d, store);
  }

  /** The creator's loop: one exact search per query, drained into the flat arrays. */
  method CreateTruth(tests: nat, train: nat, topk: nat, dist: nat -> nat -> real, maxDist: real, store: nat -> Word)
    returns (neighbors: array<Word>, distances: array<real>)
    requires topk <= train
    requires forall i, j :: 0 <= i < tests && 0 <= j < train ==> dist(i)(j) <= maxDist
    ensures fresh(neighbors) && fresh(distances)
    ensures neighbors.Length == tests * topk && distances.Length == tests * topk
    ensures RowsAreTrue(neighbors[..], distances[..], tests, topk, train, dist, store)
  {
    var cells := tests * topk;
    neighbors := new Word[cells];
    distances := new real[cells];
    for i := 0 to tests
      invariant RowsAreTrue(neighbors[..], distances[..], i, topk, train, dist, store)
    {
      CellInBounds(i, tests, topk);
      ghost var n0, d0 := neighbors[..], distances[..];
      TruthRow(neighbors, distances, i * topk, train, topk, dist(i), maxDist, store);
      OneMoreRow(n0, d0, neighbors[..], distances[..], i, topk, train, dist, store);
    }
  }

  lemma EarlierRowKept<T>(n0: seq<T>, d0: seq<real>, n1: seq<T>, d1: seq<real>, q: nat, i: nat, k: nat, train: nat,
                       d: nat -> real, store: nat -> T)
    requires q < i && RowIsTrue(n0, d0, q, k, train, d, store) && |n0| == |n1| && |d0| == |d1|
    requires forall x :: 0 <= x < |n0| && x < i * k ==> n1[x] == n0[x]
    requires forall x :: 0 <= x < |d0| && x < i * k ==> d1[x] == d0[x]
    ensures RowIsTrue(n1, d1, q, k, train, d, store)
  {
    CellInBounds(q, i, k);
    var r :| IsTrueRow(r, n0, d0, q * k, k, train, d, store);
    assert IsTrueRow(r, n1, d1, q * k, k, train, d, store);
  }

  lemma OneMoreRow<T>(n0: seq<T>, d0: seq<real>, n1: seq<T>, d1: seq<real>, i: nat, k: nat, train: nat,
                   dist: nat -> nat -> real, store: nat -> T)
    requires RowsAreTrue(n0, d0, i, k, train, dist, store) && |n0| == |n1| && |d0| == |d1|
    requires forall x :: 0 <= x < |n0| && x < i * k ==> n1[x] == n0[x]
    requires forall x :: 0 <= x < |d0| && x < i * k ==> d1[x] == d0[x]
    requires RowIsTrue(n1, d1, i, k, train, dist(i), store)
    ensures RowsAreTrue(n1, d1, i + 1, k, train, dist, store)
  {
    forall q | 0 <= q < i
      ensures RowIsTrue(n1, d1, q, k, train, dist(q), store)
    {
      EarlierRowKept(n0, d0, n1, d1, q, i, k, train, dist(q), store);
    }
  }

  /** Every prefix of a true row is the true answer for that smaller number of neighbours. */
  lemma PrefixIsTrueAnswer(row: seq<nat>, train: nat, d: nat -> real, k: nat)
    requires k <= |row| && Ascending(row, d) && IsSmallest(Elems(row), AllBelow(train), d, Self, |row|)
    ensures |Elems(row[..k])| == k && IsSmallest(Elems(row[..k]), AllBelow(train), d, Self, k)
  {
    ElemsSize(row[..k]);
    ElemsSize(row);
    SubsetSize(Elems(row), AllBelow(train));
    forall a, b | a in Elems(row[..k]) && b in AllBelow(train) && b !in Elems(row[..k])
      ensures Less(d, Self, a, b)
    {
      if b in row {
        var y :| 0 <= y < |row| && row[y] == b;
        assert y >= k;
      }
    }
  }

  lemma {:induction false} ElemsSize(row: seq<nat>)
    requires Distinct(row)
    ensures |Elems(row)| == |row|
  {
    if row != [] {
      var n := |row| - 1;
      ElemsSize(row[..n]);
      assert Elems(row) == Elems(row[..n]) + {row[n]};
    }
  }

  /** How many found labels occur in the ground truth. */
  function Hits(found: seq<nat>, truth: seq<nat>): (h: nat)
    ensures h <= |found|
    ensures h == |found| <==> forall x :: x in found ==> x in truth
  {
    if found == [] then 0
    else
      var n := |found| - 1;
      assert forall x :: x in found <==> x in found[..n] || x == found[n];
      Hits(found[..n], truth) + if found[n] in truth then 1 else 0
  }

  /** Where the found labels that are in the ground truth stand. */
  ghost function HitPlaces(found: seq<nat>, truth: seq<nat>): set<nat> {
    set i | 0 <= i < |found| && found[i] in truth
  }

  lemma {:induction false} HitsAreCounted(found: seq<nat>, truth: seq<nat>)
    ensures Hits(found, truth) == |HitPlaces(found, truth)|
  {
    if found != [] {
      var n := |found| - 1;
      HitsAreCounted(found[..n], truth);
      assert HitPlaces(found, truth) == HitPlaces(found[..n], truth) + if found[n] in truth then {n} else {};
    }
  }

  method CountHits(found: seq<nat>, truth: seq<nat>) returns (correct: nat)
    ensures correct == Hits(found, truth) == |HitPlaces(found, truth)|
  {
    correct := 0;
    for i := 0 to |found|
      invariant correct == Hits(found[..i], truth)
    {
      assert found[..i + 1][..i] == found[..i];
      if found[i] in truth {
        correct := correct + 1;
      }
    }
    assert found[..|found|] == found;
    HitsAreCounted(found, truth);
  }

  /** The flat array reaches to the last of the `topk` cells, `stored` apart, of all `n` queries. */
  ghost predicate Fits(neighbors: Option<seq<nat>>, n: nat, topk: nat, stored: nat) {
    neighbors.Some? && n > 0 ==> (n - 1) * stored + topk <= |neighbors.value|
  }

  lemma FitsEach(len: nat, n: nat, topk: nat, stored: nat, i: nat)
    requires i < n && (n - 1) * stored + topk <= len
    ensures 0 <= i * stored && i * stored + topk <= len
  {
    assert i * stored <= (n - 1) * stored;
  }

  /** The ground truth of query `i`: the first `topk` cells from its row on or, without any, the query itself. */
  function Truth(neighbors: Option<seq<nat>>, n: nat, i: nat, topk: nat, stored: nat): seq<nat>
    requires Fits(neighbors, n, topk, stored) && i < n
  {
    match neighbors
    case None => seq(topk, _ => i)
    case Some(cells) =>
      FitsEach(|cells|, n, topk, stored, i);
      cells[i * stored..i * stored + topk]
  }

  function Truths(neighbors: Option<seq<nat>>, n: nat, topk: nat, stored: nat): (t: seq<seq<nat>>)
    requires Fits(neighbors, n, topk, stored)
  {
    seq(n, i requires 0 <= i < n => Truth(neighbors, n, i, topk, stored))
  }

  function TotalHits(results: seq<seq<nat>>, truths: seq<seq<nat>>): nat
    requires |results| <= |truths|
  {
    if results == [] then 0
    else
      var n := |results| - 1;
      TotalHits(results[..n], truths) + Hits(results[n], truths[n])
  }

  /** A true neighbour of query `i` stands in one of its `topk` cells or, if there are no cells, is `i` itself. */
  ghost predicate IsTrue(neighbors: Option<seq<nat>>, topk: nat, stored: nat, i: nat, x: nat) {
    match neighbors
    case None => topk > 0 && x == i
    case Some(cells) => exists t :: 0 <= i * stored <= t < i * stored + topk && t < |cells| && cells[t] == x
  }

  /** Which of the labels found, by query and position, are true neighbours. */
  ghost function TrueFinds(results: seq<seq<nat>>, neighbors: Option<seq<nat>>, topk: nat, stored: nat)
    : set<(nat, nat)>
  {
    set i: nat, j: nat |
      i < |results| && j < |results[i]| && IsTrue(neighbors, topk, stored, i, results[i][j]) :: (i, j)
  }

  lemma TruthHoldsTrue(neighbors: Option<seq<nat>>, n: nat, i: nat, topk: nat, stored: nat, x: nat)
    requires Fits(neighbors, n, topk, stored) && i < n
    ensures x in Truth(neighbors, n, i, topk, stored) <==> IsTrue(neighbors, topk, stored, i, x)
  {
    var truth := Truth(neighbors, n, i, topk, stored);
    match neighbors
    case None =>
      assert topk > 0 ==> truth[0] == i;
    case Some(cells) =>
      FitsEach(|cells|, n, topk, stored, i);
      forall t | i * stored <= t < i * stored + topk ensures cells[t] in truth {
        assert truth[t - i * stored] == cells[t];
      }
      if x in truth {
        var k :| 0 <= k < |truth| && truth[k] == x;
        assert cells[i * stored + k] == x;
      }
  }

  ghost function Paired(n: nat, s: set<nat>): set<(nat, nat)> {
    set j | j in s :: (n, j)
  }

  lemma {:induction false} PairedSize(n: nat, s: set<nat>)
    ensures |Paired(n, s)| == |s|
  {
    if s == {} {
      assert Paired(n, s) == {};
    } else {
      var x :| x in s;
      PairedSize(n, s - {x});
      assert Paired(n, s) == Paired(n, s - {x}) + {(n, x)};
    }
  }

  /** The total counts every true find once. */
  lemma {:induction false} TotalIsCounted(results: seq<seq<nat>>, neighbors: Option<seq<nat>>, n: nat, topk: nat,
                                          stored: nat)
    requires Fits(neighbors, n, topk, stored) && |results| <= n
    ensures TotalHits(results, Truths(neighbors, n, topk, stored)) == |TrueFinds(results, neighbors, topk, stored)|
  {
    if results == [] {
      assert TrueFinds(results, neighbors, topk, stored) == {};
    } else {
      var k := |results| - 1;
      TotalIsCounted(results[..k], neighbors, n, topk, stored);
      LastFinds(results, neighbors, n, topk, stored, Truth(neighbors, n, k, topk, stored));
    }
  }

  lemma LastFinds(results: seq<seq<nat>>, neighbors: Option<seq<nat>>, n: nat, topk: nat, stored: nat, truth: seq<nat>)
    requires 0 < |results| <= n && Fits(neighbors, n, topk, stored)
    requires truth == Truth(neighbors, n, |results| - 1, topk, stored)
    ensures var k := |results| - 1;
            |TrueFinds(results, neighbors, topk, stored)|
            == |TrueFinds(results[..k], neighbors, topk, stored)| + Hits(results[k], truth)
  {
    var k := |results| - 1;
    forall j | 0 <= j < |results[k]|
      ensures results[k][j] in truth <==> IsTrue(neighbors, topk, stored, k, results[k][j])
    {
      TruthHoldsTrue(neighbors, n, k, topk, stored, results[k][j]);
    }
    HitsAreCounted(results[k], truth);
    PairedSize(k, HitPlaces(results[k], truth));
    FindsSplit(results, k, results[k], neighbors, topk, stored, truth);
  }

  lemma FindsSplit(results: seq<seq<nat>>, k: nat, found: seq<nat>, neighbors: Option<seq<nat>>, topk: nat, stored: nat,
                   truth: seq<nat>)
    requires |results| == k + 1 && found == results[k]
    requires forall j :: 0 <= j < |found| ==> (found[j] in truth <==> IsTrue(neighbors, topk, stored, k, found[j]))
    ensures |TrueFinds(results, neighbors, topk, stored)|
         == |TrueFinds(results[..k], neighbors, topk, stored)| + |Paired(k, HitPlaces(found, truth))|
  {
    var before, latest := TrueFinds(results[..k], neighbors, topk, stored), Paired(k, HitPlaces(found, truth));
    assert TrueFinds(results, neighbors, topk, stored) == before + latest;
    assert before !! latest;
  }

  /**
    The recall loop over the labels each query found; fails when there is no ground truth for more than one neighbour.
   */
  method CalculateRecall(results: seq<seq<nat>>, neighbors: Option<seq<nat>>, topk: nat, stored: nat)
    returns (total: Option<nat>)
    requires Fits(neighbors, |results|, topk, stored)
    ensures total.None? <==> neighbors.None? && topk > 1 && results != []
    ensures total.Some? ==> total.value == TotalHits(results, Truths(neighbors, |results|, topk, stored))
    ensures total.Some? ==> total.value == |TrueFinds(results, neighbors, topk, stored)|
  {
    var correct := 0;
    ghost var truths := Truths(neighbors, |results|, topk, stored);
    for i := 0 to |results|
      invariant correct == TotalHits(results[..i], truths)
      invariant i > 0 ==> !(neighbors.None? && topk > 1)
    {
      if neighbors.None? && topk > 1 {
        return None;
      }
      var truth := Truth(neighbors, |results|, i, topk, stored);
      var hits := CountHits(results[i], truth);
      assert truths[i] == truth && results[..i + 1][..i] == results[..i];
      correct := correct + hits;
    }
    assert results[..|results|] == results;
    TotalIsCounted(results, neighbors, |results|, topk, stored);
    total := Some(correct);
  }

  /**
    The count never exceeds queries times `topk`, and reaches it exactly when every query found `topk` true neighbours.
   */
  lemma {:induction false} RecallBound(results: seq<seq<nat>>, truths: seq<seq<nat>>, topk: nat)
    requires |results| <= |truths|
    requires forall i :: 0 <= i < |results| ==> |results[i]| <= topk
    ensures TotalHits(results, truths) <= |results| * topk
    ensures TotalHits(results, truths) == |results| * topk <==>
            forall i :: 0 <= i < |results| ==> |results[i]| == topk && forall x :: x in results[i] ==> x in truths[i]
  {
    if results != [] {
      var n := |results| - 1;
      var init := results[..n];
      RecallBound(init, truths, topk);
      CellInBounds(n, |results|, topk);
      assert forall i :: 0 <= i < n ==> init[i] == results[i];
      assert Hits(results[n], truths[n]) <= |results[n]| <= topk;
    }
  }

  /** A true row holds, in its first `topk` cells, every label that an exact search for `topk` neighbours finds. */
  lemma TrueRowCoversAnswer(neighbors: seq<nat>, distances: seq<real>, i: nat, stored: nat, train: nat, d: nat -> real,
                            store: nat -> nat, topk: nat, answer: set<nat>, truth: seq<nat>)
    requires RowIsTrue(neighbors, distances, i, stored, train, d, store) && topk <= stored
    requires forall x: nat :: x < train ==> store(x) == x
    requires IsSmallest(answer, AllBelow(train), d, Self, topk)
    requires 0 <= i * stored && i * stored + stored <= |neighbors| && truth == neighbors[i * stored..i * stored + topk]
    ensures forall x :: x in answer ==> x in truth
  {
    var base := i * stored;
    var row :| IsTrueRow(row, neighbors, distances, base, stored, train, d, store);
    PrefixIsTrueAnswer(row, train, d, topk);
    SmallestIsUnique(answer, Elems(row[..topk]), AllBelow(train), d, Self, topk);
    forall x | x in answer
      ensures x in truth
    {
      assert x in Elems(row[..topk]);
      var j :| 0 <= j < topk && row[j] == x;
      assert truth[j] == neighbors[base + j] == store(row[j]);
    }
  }

  /** The labels of the one exact answer, in some order. */
  ghost predicate IsAnswer(found: seq<nat>, train: nat, d: nat -> real, topk: nat) {
    Distinct(found) && |found| == topk && IsSmallest(Elems(found), AllBelow(train), d, Self, topk)
  }

  ghost predicate AreAnswers(results: seq<seq<nat>>, train: nat, topk: nat, dist: nat -> nat -> real) {
    forall i :: 0 <= i < |results| ==> IsAnswer(results[i], train, dist(i), topk)
  }

  /** The checker's loop: for each query it counts the labels of the exact answer among the first `topk` stored ones. */
  method CheckTruth(neighbors: seq<nat>, tests: nat, train: nat, topk: nat, stored: nat, dist: nat -> nat -> real,
                    maxDist: real)
    returns (correct: nat)
    requires topk <= stored && topk <= train && Fits(Some(neighbors), tests, topk, stored)
    requires forall i, j :: 0 <= i < tests && 0 <= j < train ==> dist(i)(j) <= maxDist
    ensures exists results ::
              && ScoresAs(correct, results, Truths(Some(neighbors), tests, topk, stored), train, topk, dist)
              && correct == |TrueFinds(results, Some(neighbors), topk, stored)|
  {
    correct := 0;
    ghost var results: seq<seq<nat>> := [];
    ghost var truths := Truths(Some(neighbors), tests, topk, stored);
    for i := 0 to tests
      invariant |results| == i && AreAnswers(results, train, topk, dist)
      invariant correct == TotalHits(results, truths)
    {
      CellInBounds(i, tests, stored);
      var truth := neighbors[i * stored..i * stored + topk];
      var hits, found := CheckQuery(truth, train, topk, dist(i), maxDist);
      assert truths[i] == truth;
      OneMoreResult(results, found, truths);
      OneMoreAnswer(results, found, train, topk, dist);
      correct, results := correct + hits, results + [found];
    }
    TotalIsCounted(results, Some(neighbors), tests, topk, stored);
    assert ScoresAs(correct, results, truths, train, topk, dist);
  }

  lemma OneMoreResult(results: seq<seq<nat>>, found: seq<nat>, truths: seq<seq<nat>>)
    requires |results| < |truths|
    ensures TotalHits(results + [found], truths) == TotalHits(results, truths) + Hits(found, truths[|results|])
  {
    assert (results + [found])[..|results|] == results;
  }

  lemma OneMoreAnswer(results: seq<seq<nat>>, found: seq<nat>, train: nat, topk: nat, dist: nat -> nat -> real)
    requires AreAnswers(results, train, topk, dist) && IsAnswer(found, train, dist(|results|), topk)
    ensures AreAnswers(results + [found], train, topk, dist)
  {
    forall i | 0 <= i < |results + [found]|
      ensures IsAnswer((results + [found])[i], train, dist(i), topk)
    {
      assert i < |results| ==> (results + [found])[i] == results[i];
    }
  }

  /** The count is that of the exact answers against the stored ones. */
  ghost predicate ScoresAs(correct: nat, results: seq<seq<nat>>, truths: seq<seq<nat>>, train: nat, topk: nat,
                           dist: nat -> nat -> real) {
    |results| == |truths| && AreAnswers(results, train, topk, dist) && correct == TotalHits(results, truths)
  }

  method CheckQuery(truth: seq<nat>, train: nat, topk: nat, d: nat -> real, maxDist: real)
    returns (hits: nat, ghost found: seq<nat>)
    requires topk <= train && forall j :: 0 <= j < train ==> d(j) <= maxDist
    ensures IsAnswer(found, train, d, topk) && hits == Hits(found, truth)
  {
    var heap := ExactAnswer(train, topk, d, maxDist);
    var labels := Drain(heap, d);
    assert Elems(labels) == heap;
    ElemsSize(labels);
    hits := CountHits(labels, truth);
    found := labels;
  }

  /** The check scores in full exactly when every query's exact answer is stored. */
  lemma FullScoreIff(results: seq<seq<nat>>, truths: seq<seq<nat>>, train: nat, topk: nat, dist: nat -> nat -> real)
    requires AreAnswers(results, train, topk, dist) && |results| <= |truths|
    ensures TotalHits(results, truths) == |results| * topk <==>
            forall i :: 0 <= i < |results| ==> forall x :: x in results[i] ==> x in truths[i]
  {
    RecallBound(results, truths, topk);
  }

  /**
    A ground truth made by the creator, whose labels survived storage, scores in full for every `topk` up to the stored
    one.
   */
  lemma CreatedTruthScoresInFull(results: seq<seq<nat>>, neighbors: seq<nat>, distances: seq<real>, tests: nat,
                                 train: nat, topk: nat, stored: nat, dist: nat -> nat -> real, store: nat -> nat)
    requires topk <= stored && |neighbors| == tests * stored && |results| == tests
    requires AreAnswers(results, train, topk, dist)
    requires RowsAreTrue(neighbors, distances, tests, stored, train, dist, store)
    requires forall x: nat :: x < train ==> store(x) == x
    ensures TotalHits(results, Truths(Some(neighbors), tests, topk, stored)) == tests * topk
  {
    var truths := Truths(Some(neighbors), tests, topk, stored);
    forall i | 0 <= i < tests
      ensures forall x :: x in results[i] ==> x in truths[i]
    {
      CellInBounds(i, tests, stored);
      assert RowIsTrue(neighbors, distances, i, stored, train, dist(i), store);
      TrueRowCoversAnswer(neighbors, distances, i, stored, train, dist(i), store, topk, Elems(results[i]), truths[i]);
      assert forall x :: x in results[i] ==> x in Elems(results[i]);
    }
    FullScoreIff(results, truths, train, topk, dist);
  }

  /**
    When no two train points are equally far from the query, a search that returned a nearest set, in any order,
    scores in full against a ground truth made by the creator.
   */
  lemma NearestScoresInFull(found: seq<nat>, neighbors: seq<nat>, distances: seq<real>, i: nat, stored: nat, train: nat,
                            d: nat -> real, store: nat -> nat, topk: nat, truth: seq<nat>)
    requires forall a, b :: a in AllBelow(train) && b in AllBelow(train) && a != b ==> d(a) != d(b)
    requires topk <= train && Distinct(found) && BeamSearch.IsNearest(Elems(found), AllBelow(train), d, topk)
    requires RowIsTrue(neighbors, distances, i, stored, train, d, store) && topk <= stored
    requires forall x: nat :: x < train ==> store(x) == x
    requires 0 <= i * stored && i * stored + stored <= |neighbors| && truth == neighbors[i * stored..i * stored + topk]
    ensures Hits(found, truth) == topk
  {
    ElemsSize(found);
    AllBelowSize(train);
    TrueRowCoversAnswer(neighbors, distances, i, stored, train, d, store, topk, Elems(found), truth);
    assert forall x :: x in found ==> x in Elems(found);
  }

  /** The labels that the cells of a file stand for. */
  function Labels(cells: seq<Word>): (labels: seq<nat>)
    ensures |labels| == |cells|
  {
    seq(|cells|, j requires 0 <= j < |cells| => Truncated(cells[j]))
  }

  lemma DecodedCell(cells: seq<Word>, c: nat, n: nat)
    requires c < |cells| && cells[c] == LabelCell(n) && n < 0x8000_0000
    ensures Labels(cells)[c] == Stored(n)
  {
    LabelReadsBack(n);
  }

  /** Read back as labels, rows of floats are rows of rounded labels. */
  lemma DecodedRow(row: seq<nat>, cells: seq<Word>, distances: seq<real>, base: int, k: nat, train: nat, d: nat -> real)
    requires train <= 0x8000_0000 && IsTrueRow(row, cells, distances, base, k, train, d, LabelCell)
    ensures IsTrueRow(row, Labels(cells), distances, base, k, train, d, Stored)
  {
    forall j | 0 <= j < k ensures Labels(cells)[base + j] == Stored(row[j]) {
      assert row[j] in Elems(row);
      assert row[j] in AllBelow(train);
      DecodedCell(cells, base + j, row[j]);
    }
  }

  lemma DecodedRowIsTrue(cells: seq<Word>, distances: seq<real>, i: nat, k: nat, train: nat, d: nat -> real)
    requires train <= 0x8000_0000 && RowIsTrue(cells, distances, i, k, train, d, LabelCell)
    ensures RowIsTrue(Labels(cells), distances, i, k, train, d, Stored)
  {
    var row: seq<nat> :| IsTrueRow(row, cells, distances, i * k, k, train, d, LabelCell);
    DecodedRow(row, cells, distances, i * k, k, train, d);
  }

  lemma DecodedRowsAreTrue(cells: seq<Word>, distances: seq<real>, n: nat, k: nat, train: nat, dist: nat -> nat -> real)
    requires train <= 0x8000_0000 && RowsAreTrue(cells, distances, n, k, train, dist, LabelCell)
    ensures RowsAreTrue(Labels(cells), distances, n, k, train, dist, Stored)
  {
    forall i | 0 <= i < n ensures RowIsTrue(Labels(cells), distances, i, k, train, dist(i), Stored) {
      DecodedRowIsTrue(cells, distances, i, k, train, dist(i));
    }
  }

  /** A file whose neighbour block is the creator's scores in full, for at most 2^24 + 1 train points. */
  lemma WrittenTruthScoresInFull(s: Dataset, results: seq<seq<nat>>, distances: seq<real>, topk: nat,
                                 dist: nat -> nat -> real)
    requires WellSized(s) && s.trainCount <= MANTISSA + 1 && topk <= s.topk && |results| == s.testCount
    requires RowsAreTrue(s.neighbors, distances, s.testCount, s.topk, s.trainCount, dist, LabelCell)
    requires AreAnswers(results, s.trainCount, topk, dist)
    ensures Parsed(FileOf(s)) == Some(s)
    ensures Fits(Some(Labels(s.neighbors)), s.testCount, topk, s.topk)
    ensures TotalHits(results, Truths(Some(Labels(s.neighbors)), s.testCount, topk, s.topk)) == s.testCount * topk
  {
    FileReadsBack(s);
    LabelsSurviveIff(s.trainCount);
    Commute(s.topk, s.testCount);
    if s.testCount > 0 {
      CellInBounds(s.testCount - 1, s.testCount, s.topk);
    }
    DecodedRowsAreTrue(s.neighbors, distances, s.testCount, s.topk, s.trainCount, dist);
    CreatedTruthScoresInFull(results, Labels(s.neighbors), distances, s.testCount, s.trainCount, topk, s.topk, dist,
                             Stored);
  }

  /** Row `i` of a block of vectors. */
  function Vector(block: seq<Word>, dim: nat, i: nat): seq<Word> {
    if 0 <= i * dim && i * dim + dim <= |block| then block[i * dim..i * dim + dim] else []
  }

  /** From each query to each train point. */
  function Distances(train: seq<Word>, test: seq<Word>, dim: nat, metric: (seq<Word>, seq<Word>) -> real)
    : nat -> nat -> real
  {
    (i: nat) => (j: nat) => metric(Vector(test, dim, i), Vector(train, dim, j))
  }

  /** Row `i` of a block holds its own `dim` cells and no others. */
  lemma VectorIsRow(block: seq<Word>, dim: nat, n: nat, i: nat, k: nat)
    requires |block| == dim * n && i < n && k < dim
    ensures |Vector(block, dim, i)| == dim && 0 <= i * dim + k < |block|
    ensures Vector(block, dim, i)[k] == block[i * dim + k]
  {
    CellInBounds(i, n, dim);
    Commute(dim, n);
  }

  /**
    The whole way: the creator's ground truth is stored as floats, written to a file, read back and checked with the
    vectors of the file. The check scores in full as long as there are at most 2^24 + 1 train points.
   */
  method CreateAndCheck(dim: nat, train: seq<Word>, test: seq<Word>, trainCount: nat, testCount: nat, stored: nat,
                        topk: nat, metric: (seq<Word>, seq<Word>) -> real, maxDist: real, asFloat: real -> Word)
    returns (correct: nat, ghost s: Dataset, ghost exact: seq<real>)
    requires topk <= stored <= trainCount < 0x8000_0000 && dim < 0x8000_0000 && testCount < 0x8000_0000
    requires |train| == dim * trainCount && |test| == dim * testCount
    requires forall x, y :: metric(x, y) <= maxDist
    ensures WellSized(s) && s.dim == dim && s.train == train && s.test == test && s.topk == stored
    ensures s.trainCount == trainCount && s.testCount == testCount
    ensures forall i: nat, j: nat :: i < testCount && j < trainCount ==>
              Distances(train, test, dim, metric)(i)(j) == metric(Vector(test, dim, i), Vector(train, dim, j))
    ensures RowsAreTrue(s.neighbors, exact, testCount, stored, trainCount, Distances(train, test, dim, metric),
                        LabelCell)
    ensures trainCount <= MANTISSA + 1 ==> correct == testCount * topk
  {
    var dist := Distances(train, test, dim, metric);
    assert forall i: nat, j: nat {:trigger dist(i)(j)} ::
        dist(i)(j) == metric(Vector(test, dim, i), Vector(train, dim, j));
    var neighbors, distances := CreateTruth(testCount, trainCount, stored, dist, maxDist, LabelCell);
    exact := distances[..];
    var floats := seq(distances.Length, j requires 0 <= j < distances.Length reads distances => asFloat(distances[j]));
    var data := Dataset(dim, trainCount, testCount, stored, train, test, neighbors[..], floats);
    s := data;
    Commute(stored, testCount);
    var file := WriteBin(data);
    FileReadsBack(s);
    var r := ReadBin(file);
    var t := r.value;
    correct := CheckTruth(Labels(t.neighbors), t.testCount, t.trainCount, topk, t.topk,
                          Distances(t.train, t.test, t.dim, metric), maxDist);
    ghost var results :| ScoresAs(correct, results, Truths(Some(Labels(s.neighbors)), testCount, topk, stored),
                                  trainCount, topk, dist);
    if trainCount <= MANTISSA + 1 {
      WrittenTruthScoresInFull(s, results, exact, topk, dist);
    }
  }
}
