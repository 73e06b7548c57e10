/**
  The checkpoint upgrader's scheduler: rounds of upgrades and downgrades until nothing is pending or nothing is ready.
 */
module Upgrader {
  import opened Sequences

  datatype Tag = Tag(name: string)

  /** What the loaded upgrader files say: tags to add, tags to remove, and what each tag depends on. */
  datatype Rules = Rules(ups: set<Tag>, downs: set<Tag>, deps: map<Tag, set<Tag>>)

  /** No tag is both added and removed, and every dependency names a known tag. */
  ghost predicate Audited(r: Rules) {
    && r.ups !! r.downs
    && r.deps.Keys == r.ups + r.downs
    && forall t :: t in r.deps ==> r.deps[t] <= r.ups + r.downs
  }

  function ToApply(r: Rules, tags: set<Tag>): set<Tag> {
    (r.ups - tags) + (r.downs * tags)
  }

  predicate IsReady(r: Rules, tags: set<Tag>, t: Tag) {
    t in r.deps && r.deps[t] <= tags
  }

  function Ready(r: Rules, todo: set<Tag>, tags: set<Tag>): set<Tag> {
    set t | t in todo && IsReady(r, tags, t)
  }

  /** The tags after a round has applied the tags of `now`. */
  function Applied(r: Rules, now: set<Tag>, tags: set<Tag>): set<Tag> {
    (tags + now * r.ups) - now * r.downs
  }

  datatype Outcome = Done(tags: set<Tag>) | Aborted(stuck: set<Tag>, tags: set<Tag>)

  /** The outcome of the round loop. */
  function Run(r: Rules, todo: set<Tag>, tags: set<Tag>): Outcome
    decreases todo
  {
    var now := Ready(r, todo, tags);
    if todo == {} then Done(tags)
    else if now == {} then Aborted(todo, tags)
    else Run(r, todo - now, Applied(r, now, tags))
  }

  /**
    Between rounds, pending upgrades are missing from the tags, pending downgrades are present, and nothing else is
    amiss.
   */
  ghost predicate Consistent(r: Rules, todo: set<Tag>, tags: set<Tag>) {
    Audited(r) && todo == ToApply(r, tags)
  }

  lemma RoundKeepsConsistent(r: Rules, todo: set<Tag>, tags: set<Tag>, now: set<Tag>)
    requires Consistent(r, todo, tags) && now <= todo
    ensures Consistent(r, todo - now, Applied(r, now, tags))
  {
  }

  /** `s` lists the members of a set, each once. */
  ghost predicate Lists(s: seq<Tag>, all: set<Tag>) {
    Distinct(s) && |s| == |all| && forall t :: t in s <==> t in all
  }

  lemma ListStep(s: seq<Tag>, all: set<Tag>, t: Tag)
    requires Lists(s, all) && t !in all
    ensures Lists(s + [t], all + {t})
  {
  }

  /**
    `log` is an order in which the rounds may run: the ready tags of each round, in any order, then the next round's.
   */
  ghost predicate IsRunLog(r: Rules, todo: set<Tag>, tags: set<Tag>, log: seq<Tag>)
    decreases todo
  {
    var now := Ready(r, todo, tags);
    if now == {} then log == []
    else |now| <= |log| && Lists(log[..|now|], now) && IsRunLog(r, todo - now, Applied(r, now, tags), log[|now|..])
  }

  lemma JoinRounds(r: Rules, todo: set<Tag>, tags: set<Tag>, part: seq<Tag>, rest: seq<Tag>)
    requires var now := Ready(r, todo, tags);
             now != {} && Lists(part, now) && IsRunLog(r, todo - now, Applied(r, now, tags), rest)
    ensures IsRunLog(r, todo, tags, part + rest)
  {
    assert (part + rest)[..|part|] == part && (part + rest)[|part|..] == rest;
  }

  /** What has run so far, continued by any order for what is left, is an order for the whole. */
  ghost predicate Leads(r: Rules, start: set<Tag>, todo: set<Tag>, tags: set<Tag>, log: seq<Tag>) {
    forall rest :: IsRunLog(r, todo, tags, rest) ==> IsRunLog(r, ToApply(r, start), start, log + rest)
  }

  lemma LeadsFromStart(r: Rules, start: set<Tag>)
    ensures Leads(r, start, ToApply(r, start), start, [])
  {
    forall rest | IsRunLog(r, ToApply(r, start), start, rest) ensures IsRunLog(r, ToApply(r, start), start, [] + rest) {
      assert [] + rest == rest;
    }
  }

  lemma LeadsOn(r: Rules, start: set<Tag>, todo: set<Tag>, tags: set<Tag>, log: seq<Tag>, part: seq<Tag>)
    requires Leads(r, start, todo, tags, log) && Ready(r, todo, tags) != {} && Lists(part, Ready(r, todo, tags))
    ensures Leads(r, start, todo - Ready(r, todo, tags), Applied(r, Ready(r, todo, tags), tags), log + part)
  {
    var now := Ready(r, todo, tags);
    forall rest | IsRunLog(r, todo - now, Applied(r, now, tags), rest)
      ensures IsRunLog(r, ToApply(r, start), start, log + part + rest)
    {
      JoinRounds(r, todo, tags, part, rest);
      assert log + part + rest == log + (part + rest);
    }
  }

  lemma LeadsToEnd(r: Rules, start: set<Tag>, todo: set<Tag>, tags: set<Tag>, log: seq<Tag>)
    requires Leads(r, start, todo, tags, log) && Ready(r, todo, tags) == {}
    ensures IsRunLog(r, ToApply(r, start), start, log)
  {
    assert IsRunLog(r, todo, tags, []);
    assert log + [] == log;
  }

  /** The apply loop of a checkpoint: any order within a round; `log` is the order in which updates ran. */
  method Process(r: Rules, start: set<Tag>) returns (o: Outcome, log: seq<Tag>)
    requires Audited(r)
    ensures o == Run(r, ToApply(r, start), start)
    ensures IsRunLog(r, ToApply(r, start), start, log)
  {
    var tags, todo := start, ToApply(r, start);
    log := [];
    LeadsFromStart(r, start);
    while todo != {}
      invariant Consistent(r, todo, tags)
      invariant Run(r, ToApply(r, start), start) == Run(r, todo, tags)
      invariant Leads(r, start, todo, tags, log)
      decreases todo
    {
      var ready := Ready(r, todo, tags);
      if ready == {} {
        LeadsToEnd(r, start, todo, tags, log);
        return Aborted(todo, tags), log;
      }
      RoundKeepsConsistent(r, todo, tags, ready);
      var tags', part := ApplyRound(r, ready, todo, tags);
      LeadsOn(r, start, todo, tags, log, part);
      tags, log, todo := tags', log + part, todo - ready;
    }
    LeadsToEnd(r, start, todo, tags, log);
    o := Done(tags);
  }

  /** One round: updates run in any order; a downgrade always finds its tag to remove. */
  method ApplyRound(r: Rules, ready: set<Tag>, ghost todo: set<Tag>, tags: set<Tag>)
    returns (tags': set<Tag>, part: seq<Tag>)
    requires Consistent(r, todo, tags) && ready <= todo
    ensures tags' == Applied(r, ready, tags) && Lists(part, ready)
  {
    tags', part := tags, [];
    var left := ready;
    while left != {}
      invariant left <= ready && PartWay(r, ready - left, tags, tags', part)
      decreases left
    {
      var t :| t in left;
      ApplyStep(r, todo, ready - left, tags, t);
      PartWayOn(r, ready, left, tags, tags', part, t);
      tags' := if t in r.ups then tags' + {t} else tags' - {t};
      part, left := part + [t], left - {t};
    }
    assert ready - {} == ready;
  }

  ghost predicate PartWay(r: Rules, applied: set<Tag>, tags: set<Tag>, tags': set<Tag>, part: seq<Tag>) {
    tags' == Applied(r, applied, tags) && Lists(part, applied)
  }

  lemma PartWayOn(r: Rules, ready: set<Tag>, left: set<Tag>, tags: set<Tag>, tags': set<Tag>, part: seq<Tag>, t: Tag)
    requires left <= ready && t in left && PartWay(r, ready - left, tags, tags', part)
    requires Applied(r, ready - left + {t}, tags) == if t in r.ups then tags' + {t} else tags' - {t}
    ensures PartWay(r, ready - (left - {t}), tags, if t in r.ups then tags' + {t} else tags' - {t}, part + [t])
  {
    assert ready - (left - {t}) == ready - left + {t};
    ListStep(part, ready - left, t);
  }

  lemma ApplyStep(r: Rules, todo: set<Tag>, applied: set<Tag>, tags: set<Tag>, t: Tag)
    requires Consistent(r, todo, tags) && t in todo && t !in applied
    ensures t !in r.ups ==> t in Applied(r, applied, tags)
    ensures Applied(r, applied + {t}, tags)
         == if t in r.ups then Applied(r, applied, tags) + {t} else Applied(r, applied, tags) - {t}
  {
  }

  /** Every upgrade a tag depends on was in the checkpoint already or ran earlier. */
  ghost predicate InDependencyOrder(r: Rules, start: set<Tag>, log: seq<Tag>) {
    forall k, dep :: 0 <= k < |log| && log[k] in r.deps && dep in r.deps[log[k]] && dep in r.ups ==>
      dep in start || dep in log[..k]
  }

  /** Whatever order the rounds take, each tag runs at most once and after every upgrade it depends on. */
  lemma {:induction false} RunLogIsOrdered(r: Rules, todo: set<Tag>, tags: set<Tag>, log: seq<Tag>)
    requires Consistent(r, todo, tags) && IsRunLog(r, todo, tags, log)
    ensures Distinct(log) && InDependencyOrder(r, tags, log)
    decreases todo
  {
    var now := Ready(r, todo, tags);
    if now != {} {
      var part, rest := log[..|now|], log[|now|..];
      RoundKeepsConsistent(r, todo, tags, now);
      RunLogIsOrdered(r, todo - now, Applied(r, now, tags), rest);
      LogListsRan(r, todo - now, Applied(r, now, tags), rest);
      assert log == part + rest;
      OrderedRounds(r, todo, tags, part, rest);
    }
  }

  lemma OrderedRounds(r: Rules, todo: set<Tag>, tags: set<Tag>, part: seq<Tag>, rest: seq<Tag>)
    requires Lists(part, Ready(r, todo, tags)) && Distinct(rest) && forall t :: t in rest ==> t !in part
    requires InDependencyOrder(r, Applied(r, Ready(r, todo, tags), tags), rest)
    ensures Distinct(part + rest) && InDependencyOrder(r, tags, part + rest)
  {
    var log := part + rest;
    forall i, j | 0 <= i < j < |log| ensures log[i] != log[j] {
      assert i < |part| ==> part[i] in part;
      assert j >= |part| ==> rest[j - |part|] in rest;
    }
    forall k, dep | 0 <= k < |log| && log[k] in r.deps && dep in r.deps[log[k]] && dep in r.ups
      ensures dep in tags || dep in log[..k]
    {
      if k < |part| {
        assert log[k] in part;
      } else {
        assert log[k] == rest[k - |part|];
        assert log[..k] == part + rest[..k - |part|];
      }
    }
  }

  /** The tags after the updates of `log` have run one by one. */
  function Replay(r: Rules, tags: set<Tag>, log: seq<Tag>): set<Tag> {
    if log == [] then tags
    else
      var t := log[|log| - 1];
      var before := Replay(r, tags, log[..|log| - 1]);
      if t in r.ups then before + {t} else before - {t}
  }

  /** Every tag to be removed is there when its turn comes. */
  ghost predicate RemovalsFind(r: Rules, tags: set<Tag>, log: seq<Tag>) {
    forall k :: 0 <= k < |log| && log[k] !in r.ups ==> log[k] in Replay(r, tags, log[..k])
  }

  lemma {:induction false} ReplayJoin(r: Rules, tags: set<Tag>, part: seq<Tag>, rest: seq<Tag>)
    ensures Replay(r, tags, part + rest) == Replay(r, Replay(r, tags, part), rest)
    decreases |rest|
  {
    if rest == [] {
      assert part + rest == part;
    } else {
      var n := |rest| - 1;
      assert (part + rest)[..|part| + n] == part + rest[..n];
      ReplayJoin(r, tags, part, rest[..n]);
    }
  }

  /** Part of a round, whatever its order, applies exactly its tags. */
  lemma {:induction false} ReplayPart(r: Rules, todo: set<Tag>, tags: set<Tag>, part: seq<Tag>)
    requires Consistent(r, todo, tags) && Distinct(part) && Elems(part) <= todo
    ensures Replay(r, tags, part) == Applied(r, Elems(part), tags) && RemovalsFind(r, tags, part)
  {
    if part != [] {
      var n := |part| - 1;
      var init, t := part[..n], part[n];
      assert Elems(part) == Elems(init) + {t};
      ReplayPart(r, todo, tags, init);
      assert t in Elems(part) && t !in Elems(init);
      ApplyStep(r, todo, Elems(init), tags, t);
      PrefixFinds(r, tags, part);
    }
  }

  lemma PrefixFinds(r: Rules, tags: set<Tag>, part: seq<Tag>)
    requires part != [] && RemovalsFind(r, tags, part[..|part| - 1])
    requires part[|part| - 1] !in r.ups ==> part[|part| - 1] in Replay(r, tags, part[..|part| - 1])
    ensures RemovalsFind(r, tags, part)
  {
    forall k | 0 <= k < |part| && part[k] !in r.ups ensures part[k] in Replay(r, tags, part[..k]) {
      if k < |part| - 1 {
        assert part[..|part| - 1][..k] == part[..k];
      }
    }
  }

  lemma RemovalsJoin(r: Rules, tags: set<Tag>, part: seq<Tag>, rest: seq<Tag>)
    requires RemovalsFind(r, tags, part) && RemovalsFind(r, Replay(r, tags, part), rest)
    ensures RemovalsFind(r, tags, part + rest)
  {
    var log := part + rest;
    forall k | 0 <= k < |log| && log[k] !in r.ups ensures log[k] in Replay(r, tags, log[..k]) {
      if k < |part| {
        assert log[..k] == part[..k];
      } else {
        assert log[..k] == part + rest[..k - |part|];
        ReplayJoin(r, tags, part, rest[..k - |part|]);
      }
    }
  }

  /** Whatever order the rounds take, no removal fails, and the updates lead to the tags of the outcome. */
  lemma {:induction false} RunLogReplays(r: Rules, todo: set<Tag>, tags: set<Tag>, log: seq<Tag>)
    requires Consistent(r, todo, tags) && IsRunLog(r, todo, tags, log)
    ensures RemovalsFind(r, tags, log) && Replay(r, tags, log) == Run(r, todo, tags).tags
    decreases todo
  {
    var now := Ready(r, todo, tags);
    if now != {} {
      var part, rest := log[..|now|], log[|now|..];
      assert log == part + rest && Elems(part) == now;
      RoundKeepsConsistent(r, todo, tags, now);
      ReplayPart(r, todo, tags, part);
      RunLogReplays(r, todo - now, Applied(r, now, tags), rest);
      ReplayJoin(r, tags, part, rest);
      RemovalsJoin(r, tags, part, rest);
    }
  }

  /** A run that completes ends with all upgrade tags and no downgrade tag, and leaves nothing to apply. */
  lemma {:induction false} DoneMeansUpToDate(r: Rules, todo: set<Tag>, tags: set<Tag>)
    requires Consistent(r, todo, tags) && Run(r, todo, tags).Done?
    ensures Run(r, todo, tags).tags == (tags + r.ups) - r.downs
    ensures ToApply(r, Run(r, todo, tags).tags) == {}
    decreases todo
  {
    if todo != {} {
      var now := Ready(r, todo, tags);
      RoundKeepsConsistent(r, todo, tags, now);
      DoneMeansUpToDate(r, todo - now, Applied(r, now, tags));
    }
  }

  /** A nonempty set of pending tags each of which depends on a member of the set. */
  ghost predicate IsCycle(r: Rules, todo: set<Tag>, s: set<Tag>) {
    s != {} && s <= todo && forall t {:trigger NeedsOneOf(r, t, s)} :: t in s ==> NeedsOneOf(r, t, s)
  }

  ghost predicate NeedsOneOf(r: Rules, t: Tag, s: set<Tag>) {
    t in r.deps && exists dep :: dep in r.deps[t] && dep in s
  }

  /** No pending tag depends on a tag that a downgrader removes. */
  ghost predicate DependsOnUpsOnly(r: Rules, todo: set<Tag>) {
    forall t :: t in todo && t in r.deps ==> r.deps[t] <= r.ups
  }

  lemma {:induction false} AbortLeavesCycle(r: Rules, todo: set<Tag>, tags: set<Tag>)
    requires Consistent(r, todo, tags) && DependsOnUpsOnly(r, todo) && Run(r, todo, tags).Aborted?
    ensures IsCycle(r, todo, Run(r, todo, tags).stuck)
    decreases todo
  {
    var now := Ready(r, todo, tags);
    if now == {} {
      forall t | t in todo
        ensures NeedsOneOf(r, t, todo)
      {
        assert t !in now;
        var dep :| dep in r.deps[t] && dep !in tags;
      }
    } else {
      RoundKeepsConsistent(r, todo, tags, now);
      AbortLeavesCycle(r, todo - now, Applied(r, now, tags));
    }
  }

  lemma {:induction false} CycleNeverRuns(r: Rules, todo: set<Tag>, tags: set<Tag>, s: set<Tag>)
    requires Consistent(r, todo, tags) && DependsOnUpsOnly(r, todo) && IsCycle(r, todo, s)
    ensures Run(r, todo, tags).Aborted?
    decreases todo
  {
    var now := Ready(r, todo, tags);
    forall t | t in s
      ensures t !in now
    {
      assert NeedsOneOf(r, t, s);
      var dep :| dep in r.deps[t] && dep in s;
      assert dep in r.ups && dep !in tags;
    }
    if now != {} {
      RoundKeepsConsistent(r, todo, tags, now);
      CycleNeverRuns(r, todo - now, Applied(r, now, tags), s);
    }
  }

  /**
    Without dependencies on downgraded tags, the loop gives up exactly when the pending tags contain a dependency cycle.
   */
  lemma AbortsIffCycle(r: Rules, start: set<Tag>)
    requires Audited(r) && DependsOnUpsOnly(r, ToApply(r, start))
    ensures Run(r, ToApply(r, start), start).Aborted? <==> exists s :: IsCycle(r, ToApply(r, start), s)
  {
    var todo := ToApply(r, start);
    if Run(r, todo, start).Aborted? {
      AbortLeavesCycle(r, todo, start);
    }
    if s :| IsCycle(r, todo, s) {
      CycleNeverRuns(r, todo, start, s);
    }
  }

  /**
    Round numbers for the pending tags: a tag comes right after the latest pending upgrade it depends on, and not
    after the removal of a tag it depends on, which must still be there.
   */
  ghost predicate Leveled(r: Rules, todo: set<Tag>, tags: set<Tag>, level: map<Tag, nat>) {
    && todo <= level.Keys
    && forall t {:trigger level[t]} :: t in todo && t in r.deps ==>
         && (forall dep :: dep in r.deps[t] && dep in todo && dep in r.ups ==> level[dep] < level[t])
         && (level[t] == 0 || IsNext(r, todo, level, t))
         && (forall dep :: dep in r.deps[t] && dep in r.downs ==> dep in tags && dep in todo && level[t] <= level[dep])
  }

  ghost predicate IsNext(r: Rules, todo: set<Tag>, level: map<Tag, nat>, t: Tag)
    requires todo <= level.Keys && t in todo && t in r.deps
  {
    exists dep :: dep in r.deps[t] && dep in todo && dep in r.ups && level[dep] + 1 == level[t]
  }

  lemma LevelZeroIsReady(r: Rules, todo: set<Tag>, tags: set<Tag>, level: map<Tag, nat>, t: Tag)
    requires Consistent(r, todo, tags) && Leveled(r, todo, tags, level) && t in todo
    ensures level[t] == 0 <==> t in Ready(r, todo, tags)
  {
  }

  lemma {:induction false} LowestLevelIsZero(r: Rules, todo: set<Tag>, tags: set<Tag>, level: map<Tag, nat>, t: Tag)
    requires Consistent(r, todo, tags) && Leveled(r, todo, tags, level) && t in todo
    ensures exists z :: z in todo && level[z] == 0
    decreases level[t]
  {
    if level[t] > 0 {
      var dep :| dep in r.deps[t] && dep in todo && dep in r.ups && level[dep] + 1 == level[t];
      LowestLevelIsZero(r, todo, tags, level, dep);
    }
  }

  lemma ReadyIsLevelZero(r: Rules, todo: set<Tag>, tags: set<Tag>, level: map<Tag, nat>)
    requires Consistent(r, todo, tags) && Leveled(r, todo, tags, level) && todo != {}
    ensures Ready(r, todo, tags) != {}
    ensures forall t :: t in todo ==> (level[t] == 0 <==> t in Ready(r, todo, tags))
  {
    forall t | t in todo
      ensures level[t] == 0 <==> t in Ready(r, todo, tags)
    {
      LevelZeroIsReady(r, todo, tags, level, t);
    }
    var any :| any in todo;
    LowestLevelIsZero(r, todo, tags, level, any);
  }

  lemma {:induction false} LeveledRunCompletes(r: Rules, todo: set<Tag>, tags: set<Tag>, level: map<Tag, nat>)
    requires Consistent(r, todo, tags) && Leveled(r, todo, tags, level)
    ensures Run(r, todo, tags).Done?
    decreases todo
  {
    if todo != {} {
      var now := Ready(r, todo, tags);
      ReadyIsLevelZero(r, todo, tags, level);
      RoundKeepsConsistent(r, todo, tags, now);
      var level' := map t | t in todo - now :: level[t] - 1;
      NextLevels(r, todo, tags, now, level, level');
      LeveledRunCompletes(r, todo - now, Applied(r, now, tags), level');
    }
  }

  lemma NextLevels(r: Rules, todo: set<Tag>, tags: set<Tag>, now: set<Tag>, level: map<Tag, nat>, level': map<Tag, nat>)
    requires Consistent(r, todo, tags) && Leveled(r, todo, tags, level)
    requires now <= todo && forall t :: t in todo ==> (level[t] == 0 <==> t in now)
    requires level'.Keys == todo - now && forall t :: t in level' ==> level'[t] == level[t] - 1
    ensures Leveled(r, todo - now, Applied(r, now, tags), level')
  {
    forall t | t in todo - now && level'[t] > 0
      ensures IsNext(r, todo - now, level', t)
    {
      var dep :| dep in r.deps[t] && dep in todo && dep in r.ups && level[dep] + 1 == level[t];
      assert dep in todo - now;
    }
  }

  lemma {:induction false} CompletedRunHasLevels(r: Rules, todo: set<Tag>, tags: set<Tag>)
    returns (level: map<Tag, nat>)
    requires Consistent(r, todo, tags) && Run(r, todo, tags).Done?
    ensures Leveled(r, todo, tags, level)
    decreases todo
  {
    if todo == {} {
      level := map[];
    } else {
      var now := Ready(r, todo, tags);
      RoundKeepsConsistent(r, todo, tags, now);
      var later := CompletedRunHasLevels(r, todo - now, Applied(r, now, tags));
      level := map t | t in todo :: if t in now then 0 else later[t] + 1;
      PreviousLevels(r, todo, tags, now, later, level);
    }
  }

  lemma PreviousLevels(r: Rules, todo: set<Tag>, tags: set<Tag>, now: set<Tag>, later: map<Tag, nat>,
                       level: map<Tag, nat>)
    requires Consistent(r, todo, tags) && now == Ready(r, todo, tags)
    requires Leveled(r, todo - now, Applied(r, now, tags), later)
    requires level.Keys == todo && forall t :: t in todo ==> level[t] == if t in now then 0 else later[t] + 1
    ensures Leveled(r, todo, tags, level)
  {
    forall t | t in todo - now
      ensures IsNext(r, todo, level, t)
    {
      if later[t] > 0 {
        var dep :| dep in r.deps[t] && dep in todo - now && dep in r.ups && later[dep] + 1 == later[t];
        assert level[dep] + 1 == level[t];
      } else {
        var dep :| dep in r.deps[t] && dep !in tags;
        assert dep in r.ups && dep in now && level[dep] + 1 == level[t];
      }
    }
  }

  /** With downgraders among the dependencies as well, the loop completes exactly when such round numbers exist. */
  lemma CompletesIffLeveled(r: Rules, start: set<Tag>)
    requires Audited(r)
    ensures Run(r, ToApply(r, start), start).Done? <==> exists level :: Leveled(r, ToApply(r, start), start, level)
  {
    var todo := ToApply(r, start);
    if Run(r, todo, start).Done? {
      var level := CompletedRunHasLevels(r, todo, start);
    }
    if level :| Leveled(r, todo, start, level) {
      LeveledRunCompletes(r, todo, start, level);
    }
  }

  /** The tags that get to run. */
  function Ran(r: Rules, todo: set<Tag>, tags: set<Tag>): set<Tag> {
    match Run(r, todo, tags)
    case Done(_) => todo
    case Aborted(stuck, _) => todo - stuck
  }

  lemma {:induction false} StuckIsPending(r: Rules, todo: set<Tag>, tags: set<Tag>)
    requires Run(r, todo, tags).Aborted?
    ensures Run(r, todo, tags).stuck <= todo
    decreases todo
  {
    var now := Ready(r, todo, tags);
    if now != {} {
      StuckIsPending(r, todo - now, Applied(r, now, tags));
    }
  }

  /** What runs is what runs in this round and what runs later. */
  lemma RanStep(r: Rules, todo: set<Tag>, tags: set<Tag>)
    ensures var now := Ready(r, todo, tags);
            if now == {} then Ran(r, todo, tags) == {}
            else Ran(r, todo, tags) == now + Ran(r, todo - now, Applied(r, now, tags))
  {
    var now := Ready(r, todo, tags);
    if now != {} && Run(r, todo, tags).Aborted? {
      StuckIsPending(r, todo - now, Applied(r, now, tags));
    }
  }

  /** The number of the round in which a tag runs. */
  function RoundOf(r: Rules, todo: set<Tag>, tags: set<Tag>, t: Tag): nat
    decreases todo
  {
    var now := Ready(r, todo, tags);
    if now == {} || t in now then 0 else 1 + RoundOf(r, todo - now, Applied(r, now, tags), t)
  }

  /** A tag that runs finds every downgraded tag it depends on still there: its removal is never in an earlier round. */
  lemma {:induction false} RemovalIsNotEarlier(r: Rules, todo: set<Tag>, tags: set<Tag>, t: Tag, dep: Tag)
    requires Consistent(r, todo, tags) && t in Ran(r, todo, tags) && dep in r.deps[t] && dep in r.downs
    ensures dep in tags && dep in todo && RoundOf(r, todo, tags, t) <= RoundOf(r, todo, tags, dep)
    decreases todo
  {
    var now := Ready(r, todo, tags);
    RanStep(r, todo, tags);
    if t !in now {
      RoundKeepsConsistent(r, todo, tags, now);
      RemovalIsNotEarlier(r, todo - now, Applied(r, now, tags), t, dep);
    }
  }

  /** The documented order: a tag runs after the removal of every downgraded tag it depends on. */
  ghost predicate RunsAfterRemovals(r: Rules, log: seq<Tag>) {
    forall k, dep :: 0 <= k < |log| && log[k] in r.deps && dep in r.deps[log[k]] && dep in r.downs ==> dep in log[..k]
  }

  lemma {:induction false} LogListsRan(r: Rules, todo: set<Tag>, tags: set<Tag>, log: seq<Tag>)
    requires IsRunLog(r, todo, tags, log)
    ensures forall t :: t in log <==> t in Ran(r, todo, tags)
    decreases todo
  {
    var now := Ready(r, todo, tags);
    RanStep(r, todo, tags);
    if now != {} {
      LogListsRan(r, todo - now, Applied(r, now, tags), log[|now|..]);
      MembersJoin(log, |now|, now, Ran(r, todo - now, Applied(r, now, tags)));
    }
  }

  lemma MembersJoin(log: seq<Tag>, k: nat, a: set<Tag>, b: set<Tag>)
    requires k <= |log| && (forall t :: t in log[..k] <==> t in a) && forall t :: t in log[k..] <==> t in b
    ensures forall t :: t in log <==> t in a + b
  {
    assert log == log[..k] + log[k..];
  }

  lemma {:induction false} SomeList(all: set<Tag>) returns (s: seq<Tag>)
    ensures Lists(s, all)
  {
    s := [];
    if all != {} {
      var t :| t in all;
      s := SomeList(all - {t});
      ListStep(s, all - {t}, t);
      assert all - {t} + {t} == all;
      s := s + [t];
    }
  }

  lemma ListFrom(first: Tag, all: set<Tag>) returns (s: seq<Tag>)
    requires first in all
    ensures Lists(s, all) && s[0] == first
  {
    var rest := SomeList(all - {first});
    s := [first] + rest;
    assert |all - {first}| == |all| - 1;
  }

  lemma {:induction false} SomeLog(r: Rules, todo: set<Tag>, tags: set<Tag>) returns (log: seq<Tag>)
    ensures IsRunLog(r, todo, tags, log)
    decreases todo
  {
    var now := Ready(r, todo, tags);
    log := [];
    if now != {} {
      var part := SomeList(now);
      var rest := SomeLog(r, todo - now, Applied(r, now, tags));
      JoinRounds(r, todo, tags, part, rest);
      log := part + rest;
    }
  }

  /** Some order lets a tag run ahead of everything else in its round, and so ahead of the removals it depends on. */
  lemma {:induction false} AheadOfRemoval(r: Rules, todo: set<Tag>, tags: set<Tag>, t: Tag, dep: Tag)
    returns (log: seq<Tag>, k: nat)
    requires Consistent(r, todo, tags) && t in Ran(r, todo, tags) && dep in r.deps[t] && dep in r.downs
    ensures IsRunLog(r, todo, tags, log) && k < |log| && log[k] == t && dep !in log[..k]
    decreases todo
  {
    var now := Ready(r, todo, tags);
    RanStep(r, todo, tags);
    if t in now {
      log := FirstInRound(r, todo, tags, t);
      k := 0;
    } else {
      RoundKeepsConsistent(r, todo, tags, now);
      RemovalIsNotEarlier(r, todo - now, Applied(r, now, tags), t, dep);
      var rest, j := AheadOfRemoval(r, todo - now, Applied(r, now, tags), t, dep);
      log, k := AfterRound(r, todo, tags, rest, j, dep);
    }
  }

  lemma AfterRound(r: Rules, todo: set<Tag>, tags: set<Tag>, rest: seq<Tag>, j: nat, dep: Tag)
    returns (log: seq<Tag>, k: nat)
    requires var now := Ready(r, todo, tags);
             now != {} && dep !in now && IsRunLog(r, todo - now, Applied(r, now, tags), rest)
    requires j < |rest| && dep !in rest[..j]
    ensures IsRunLog(r, todo, tags, log) && k < |log| && log[k] == rest[j] && dep !in log[..k]
  {
    var part := SomeList(Ready(r, todo, tags));
    JoinRounds(r, todo, tags, part, rest);
    Shifted(part, rest, j);
    log, k := part + rest, |part| + j;
  }

  lemma FirstInRound(r: Rules, todo: set<Tag>, tags: set<Tag>, t: Tag) returns (log: seq<Tag>)
    requires t in Ready(r, todo, tags)
    ensures IsRunLog(r, todo, tags, log) && |log| > 0 && log[0] == t
  {
    var now := Ready(r, todo, tags);
    var part := ListFrom(t, now);
    var rest := SomeLog(r, todo - now, Applied(r, now, tags));
    JoinRounds(r, todo, tags, part, rest);
    log := part + rest;
  }

  lemma Shifted(part: seq<Tag>, rest: seq<Tag>, j: nat)
    requires j < |rest|
    ensures (part + rest)[|part| + j] == rest[j] && (part + rest)[..|part| + j] == part + rest[..j]
  {
  }

  /**
    The documentation says that a tag depending on a downgraded tag runs after its removal. Whatever order the rounds
    take, that is guaranteed exactly when no tag that runs depends on a downgraded tag at all.
   */
  lemma DocumentedOrderIff(r: Rules, start: set<Tag>)
    requires Audited(r)
    ensures (forall log :: IsRunLog(r, ToApply(r, start), start, log) ==> RunsAfterRemovals(r, log))
       <==> (forall t :: t in Ran(r, ToApply(r, start), start) && t in r.deps ==> r.deps[t] !! r.downs)
  {
    var todo := ToApply(r, start);
    forall log | IsRunLog(r, todo, start, log)
      ensures forall x :: x in log <==> x in Ran(r, todo, start)
    {
      LogListsRan(r, todo, start, log);
    }
    forall t | t in Ran(r, todo, start) && t in r.deps && !(r.deps[t] !! r.downs)
      ensures exists log :: IsRunLog(r, todo, start, log) && !RunsAfterRemovals(r, log)
    {
      var dep :| dep in r.deps[t] && dep in r.downs;
      var log, k := AheadOfRemoval(r, todo, start, t, dep);
      assert !RunsAfterRemovals(r, log);
    }
  }

  /**
    Read off the pending tags: the documented order is guaranteed if none of them depends on a downgraded tag, and, for
    a run that completes, only then.
   */
  lemma DocumentedOrderOfPending(r: Rules, start: set<Tag>)
    requires Audited(r)
    ensures var todo := ToApply(r, start);
            var free := forall t :: t in todo && t in r.deps ==> r.deps[t] !! r.downs;
            var kept := forall log :: IsRunLog(r, todo, start, log) ==> RunsAfterRemovals(r, log);
            (free ==> kept) && (Run(r, todo, start).Done? && kept ==> free)
  {
    DocumentedOrderIff(r, start);
  }

  /**
    With `t` depending on the downgraded `d` and on the upgrade `u`, the run that the documentation promises, `d` and
    `u` and then `t`, aborts.
   */
  lemma DocumentedDowngradeOrderFails(u: Tag, t: Tag, d: Tag)
    requires u != t && t != d && u != d
    ensures var r := Rules({u, t}, {d}, map[u := {}, t := {d, u}, d := {}]);
            Audited(r) && Run(r, ToApply(r, {d}), {d}) == Aborted({t}, {u})
  {
    var r := Rules({u, t}, {d}, map[u := {}, t := {d, u}, d := {}]);
    assert ToApply(r, {d}) == {u, t, d};
    assert Ready(r, {u, t, d}, {d}) == {u, d};
    assert Applied(r, {u, d}, {d}) == {u} && {u, t, d} - {u, d} == {t};
    assert Ready(r, {t}, {u}) == {};
  }
}
