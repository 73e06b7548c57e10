/** Loading the upgrader files: the tables by tag, the legacy chain, forward dependencies, and the audit. */
module UpgraderFiles {
  import opened Sequences
  import opened Options
  import opened Upgrader

  datatype Kind = Upgrades | Downgrades | Neither

  datatype File = File(tag: Tag, depends: seq<Tag>, fwd: seq<Tag>, kind: Kind, legacy: Option<nat>)

  /** The tables; each file is one object, named by its position, whose dependency list may change after loading. */
  datatype Tables = Tables(byTag: map<Tag, nat>, legacy: map<nat, nat>, ups: set<Tag>, downs: set<Tag>,
                           depends: seq<seq<Tag>>)

  /** Tags name files that carry them; of several files with the same tag the latest wins. */
  ghost predicate Named(files: seq<File>, n: nat, byTag: map<Tag, nat>) {
    && n <= |files|
    && (forall x :: x in byTag ==> byTag[x] < n && files[byTag[x]].tag == x)
    && (forall i :: 0 <= i < n ==> files[i].tag in byTag && i <= byTag[files[i].tag])
  }

  /** The tags of the first `n` files of a kind. */
  function TagsOf(files: seq<File>, n: nat, kind: Kind): set<Tag>
    requires n <= |files|
  {
    if n == 0 then {} else TagsOf(files, n - 1, kind) + if files[n - 1].kind == kind then {files[n - 1].tag} else {}
  }

  lemma {:induction false} TagsAreCollected(files: seq<File>, n: nat, kind: Kind)
    requires n <= |files|
    ensures TagsOf(files, n, kind) == set i | 0 <= i < n && files[i].kind == kind :: files[i].tag
  {
    if n > 0 {
      TagsAreCollected(files, n - 1, kind);
    }
  }

  /** Legacy versions name files that carry them, again the latest. */
  ghost predicate Versioned(files: seq<File>, n: nat, legacy: map<nat, nat>)
    requires n <= |files|
  {
    && (forall v :: v in legacy ==> legacy[v] < n && files[legacy[v]].legacy == Some(v))
    && (forall i :: 0 <= i < n && files[i].legacy.Some? ==>
          files[i].legacy.value in legacy && i <= legacy[files[i].legacy.value])
  }

  /** The other tables agree with the first `n` files. */
  ghost predicate Indexed(files: seq<File>, n: nat, t: Tables) {
    && n <= |files| && |t.depends| == n
    && Versioned(files, n, t.legacy)
    && t.ups == TagsOf(files, n, Upgrades) && t.downs == TagsOf(files, n, Downgrades)
    && t.byTag.Keys == t.ups + t.downs
  }

  function Registered(t: Tables, f: File, i: nat): Tables {
    Tables(t.byTag[f.tag := i], if f.legacy.Some? then t.legacy[f.legacy.value := i] else t.legacy,
           if f.kind == Upgrades then t.ups + {f.tag} else t.ups,
           if f.kind == Downgrades then t.downs + {f.tag} else t.downs, t.depends + [f.depends])
  }

  lemma RegisterStep(files: seq<File>, i: nat, t: Tables)
    requires i < |files| && Reading(files, i, t) && files[i].kind != Neither
    ensures Reading(files, i + 1, Registered(t, files[i], i))
  {
    VersionStep(files, i, t.legacy);
    NameStep(files, i, t.byTag);
    LoadStep(files, i, t.depends);
    TagStep(files, i, t);
  }

  lemma TagStep(files: seq<File>, i: nat, t: Tables)
    requires i < |files| && Indexed(files, i, t) && files[i].kind != Neither
    ensures var t' := Registered(t, files[i], i);
            && t'.ups == TagsOf(files, i + 1, Upgrades) && t'.downs == TagsOf(files, i + 1, Downgrades)
            && t'.byTag.Keys == t'.ups + t'.downs
  {
  }

  lemma LoadStep(files: seq<File>, i: nat, depends: seq<seq<Tag>>)
    requires i < |files| && Loaded(files, i, depends) && files[i].kind != Neither
    ensures Loaded(files, i + 1, depends + [files[i].depends])
  {
  }

  lemma VersionStep(files: seq<File>, i: nat, legacy: map<nat, nat>)
    requires i < |files| && Versioned(files, i, legacy)
    ensures Versioned(files, i + 1, if files[i].legacy.Some? then legacy[files[i].legacy.value := i] else legacy)
  {
  }

  lemma NameStep(files: seq<File>, i: nat, byTag: map<Tag, nat>)
    requires i < |files| && Named(files, i, byTag)
    ensures Named(files, i + 1, byTag[files[i].tag := i])
  {
  }

  ghost predicate Reading(files: seq<File>, n: nat, t: Tables) {
    Indexed(files, n, t) && Named(files, n, t.byTag) && Loaded(files, n, t.depends)
  }

  /** The first `n` files were read as they are, and each has one of the two functions. */
  ghost predicate Loaded(files: seq<File>, n: nat, depends: seq<seq<Tag>>) {
    |depends| == n <= |files| && forall j :: 0 <= j < n ==> depends[j] == files[j].depends && files[j].kind != Neither
  }

  /** Reads the files one by one; gives up at a file that has neither function. */
  method Register(files: seq<File>) returns (r: Option<Tables>)
    ensures r.None? <==> exists i :: 0 <= i < |files| && files[i].kind == Neither
    ensures r.Some? ==> Reading(files, |files|, r.value)
  {
    var t := Tables(map[], map[], {}, {}, []);
    for i := 0 to |files|
      invariant Reading(files, i, t)
    {
      var f := files[i];
      if f.kind == Neither {
        return None;
      }
      RegisterStep(files, i, t);
      t := Registered(t, f, i);
    }
    r := Some(t);
  }

  /** The file of version `v` depends on the file of the version before it, and on nothing else. */
  ghost predicate FollowsPrevious(files: seq<File>, legacy: map<nat, nat>, depends: seq<seq<Tag>>, v: nat)
    requires Versioned(files, |files|, legacy) && |depends| == |files|
  {
    v in legacy && v - 1 in legacy && depends[legacy[v]] == [files[legacy[v - 1]].tag]
  }

  /** File `k` is the one that carries a version from 3 up to below `to`. */
  ghost predicate Carries(files: seq<File>, legacy: map<nat, nat>, k: nat, to: nat) {
    k < |files| && files[k].legacy.Some? && 3 <= files[k].legacy.value < to
    && files[k].legacy.value in legacy && legacy[files[k].legacy.value] == k
  }

  /** The versions from 3 up to below `to` follow one another; all other lists are as before. */
  ghost predicate ChainedBelow(files: seq<File>, legacy: map<nat, nat>, before: seq<seq<Tag>>, depends: seq<seq<Tag>>,
                               to: nat)
    requires Versioned(files, |files|, legacy)
  {
    && |depends| == |before| == |files|
    && (forall v: nat :: 3 <= v < to ==> FollowsPrevious(files, legacy, depends, v))
    && (forall k: nat :: k < |files| && !Carries(files, legacy, k, to) ==> depends[k] == before[k])
  }

  /**
    Links legacy versions 3, 4, ... to their predecessors, up to the first gap; fails when version 3 exists without
    version 2.
   */
  method ChainLegacy(files: seq<File>, t: Tables) returns (r: Option<Tables>, ghost to: nat)
    requires Indexed(files, |files|, t)
    ensures r.None? <==> 3 in t.legacy && 2 !in t.legacy
    ensures r.Some? ==> r.value == t.(depends := r.value.depends)
    ensures r.Some? ==> ChainedBelow(files, t.legacy, t.depends, r.value.depends, to) && to >= 3 && to !in t.legacy
  {
    var depends := t.depends;
    var i: nat := 3;
    while i in t.legacy
      invariant i >= 3 && ChainedBelow(files, t.legacy, t.depends, depends, i)
      invariant i > 3 ==> 2 in t.legacy && i - 1 in t.legacy
      decreases set v | v in t.legacy && v >= i
    {
      if i - 1 !in t.legacy {
        return None, i;
      }
      ChainStep(files, t.legacy, t.depends, depends, i);
      FewerLeft(t.legacy, i);
      depends := depends[t.legacy[i] := [files[t.legacy[i - 1]].tag]];
      i := i + 1;
    }
    to := i;
    r := Some(t.(depends := depends));
  }

  lemma FewerLeft(legacy: map<nat, nat>, i: nat)
    requires i in legacy
    ensures (set v | v in legacy && v >= i + 1) < (set v | v in legacy && v >= i)
  {
    var rest, all := (set v | v in legacy && v >= i + 1), (set v | v in legacy && v >= i);
    assert i in all && i !in rest && rest <= all;
  }

  lemma ChainStep(files: seq<File>, legacy: map<nat, nat>, before: seq<seq<Tag>>, depends: seq<seq<Tag>>, i: nat)
    requires Versioned(files, |files|, legacy) && i >= 3 && ChainedBelow(files, legacy, before, depends, i)
    requires i in legacy && i - 1 in legacy
    ensures ChainedBelow(files, legacy, before, depends[legacy[i] := [files[legacy[i - 1]].tag]], i + 1)
  {
    var depends' := depends[legacy[i] := [files[legacy[i - 1]].tag]];
    forall v: nat | 3 <= v < i + 1
      ensures FollowsPrevious(files, legacy, depends', v)
    {
      if v < i {
        assert FollowsPrevious(files, legacy, depends, v);
        assert files[legacy[v]].legacy == Some(v) && files[legacy[i]].legacy == Some(i);
      }
    }
    forall k: nat | k < |files| && !Carries(files, legacy, k, i + 1)
      ensures depends'[k] == before[k]
    {
      assert !Carries(files, legacy, k, i);
      assert Carries(files, legacy, legacy[i], i + 1);
    }
  }

  /** Who names `x` as a forward dependency. */
  ghost function Forwarders(files: seq<File>, byTag: map<Tag, nat>, among: set<Tag>, x: Tag): set<Tag>
    requires forall y :: y in byTag ==> byTag[y] < |files|
  {
    set y | y in among && y in byTag && x in files[byTag[y]].fwd
  }

  /** Each tag's list holds its own dependencies and the tags among `seen` that forward to it. */
  ghost predicate ForwardedBy(files: seq<File>, t: Tables, depends: seq<seq<Tag>>, seen: set<Tag>) {
    && |depends| == |files| == |t.depends|
    && (forall y :: y in t.byTag ==> t.byTag[y] < |files|)
    && forall x :: x in t.byTag ==>
         Elems(depends[t.byTag[x]]) == Elems(t.depends[t.byTag[x]]) + Forwarders(files, t.byTag, seen, x)
  }

  lemma AppendTo(files: seq<File>, byTag: map<Tag, nat>, d: seq<seq<Tag>>, x: Tag, tag: Tag)
    requires Named(files, |files|, byTag) && |d| == |files| && x in byTag
    ensures var d' := d[byTag[x] := d[byTag[x]] + [tag]];
            forall y :: y in byTag ==> Elems(d'[byTag[y]]) == Elems(d[byTag[y]]) + if y == x then {tag} else {}
  {
    var at := byTag[x];
    assert Elems(d[at] + [tag]) == Elems(d[at]) + {tag};
    assert forall y :: y in byTag && y != x ==> byTag[y] != at;
  }

  /** `tag` was appended to the lists of exactly the tags in `fwd`. */
  ghost predicate AppendedTo(byTag: map<Tag, nat>, d: seq<seq<Tag>>, d': seq<seq<Tag>>, fwd: seq<Tag>, tag: Tag) {
    && |d| == |d'|
    && forall x :: x in byTag && byTag[x] < |d| ==>
         Elems(d'[byTag[x]]) == Elems(d[byTag[x]]) + if x in fwd then {tag} else {}
  }

  /** Appends `tag` to the list of each tag it forwards to; fails at an unknown one. */
  method Forward(files: seq<File>, byTag: map<Tag, nat>, depends: seq<seq<Tag>>, fwd: seq<Tag>, tag: Tag)
    returns (r: Option<seq<seq<Tag>>>)
    requires Named(files, |files|, byTag) && |depends| == |files|
    ensures r.None? <==> !AllKnown(fwd, byTag)
    ensures r.Some? ==> AppendedTo(byTag, depends, r.value, fwd, tag)
  {
    var d := depends;
    for k := 0 to |fwd|
      invariant AppendedTo(byTag, depends, d, fwd[..k], tag) && AllKnown(fwd[..k], byTag)
    {
      if fwd[k] !in byTag {
        return None;
      }
      AppendTo(files, byTag, d, fwd[k], tag);
      assert fwd[..k + 1] == fwd[..k] + [fwd[k]];
      d := d[byTag[fwd[k]] := d[byTag[fwd[k]]] + [tag]];
    }
    assert fwd[..|fwd|] == fwd;
    r := Some(d);
  }

  ghost predicate AllKnown(tags: seq<Tag>, byTag: map<Tag, nat>) {
    forall x :: x in tags ==> x in byTag
  }

  /** What the audit objects to: a tag that forwards to, or depends on, a tag nobody carries. */
  ghost predicate NamesUnknown(files: seq<File>, t: Tables, tag: Tag)
    requires tag in t.byTag && t.byTag[tag] < |files| == |t.depends|
  {
    !AllKnown(files[t.byTag[tag]].fwd, t.byTag) || !AllKnown(t.depends[t.byTag[tag]], t.byTag)
  }

  /** Forwarding only ever adds known tags, so the audit's verdict on a list is a verdict on the original one. */
  lemma AuditSeesOriginal(files: seq<File>, t: Tables, d: seq<seq<Tag>>, seen: set<Tag>, tag: Tag)
    requires ForwardedBy(files, t, d, seen) && tag in t.byTag
    ensures Elems(d[t.byTag[tag]]) <= t.byTag.Keys <==> AllKnown(t.depends[t.byTag[tag]], t.byTag)
  {
    var own := t.depends[t.byTag[tag]];
    assert Forwarders(files, t.byTag, seen, tag) <= t.byTag.Keys;
    assert AllKnown(own, t.byTag) <==> Elems(own) <= t.byTag.Keys;
  }

  /** Resolves the forward dependencies of all tags, in any order, and audits each tag's list as it goes. */
  method ResolveAndAudit(files: seq<File>, t: Tables) returns (r: Option<seq<seq<Tag>>>)
    requires Named(files, |files|, t.byTag) && |t.depends| == |files|
    ensures r.None? <==> exists tag :: tag in t.byTag && NamesUnknown(files, t, tag)
    ensures r.Some? ==> ForwardedBy(files, t, r.value, t.byTag.Keys) && AuditedLists(t.byTag, r.value, t.byTag.Keys)
  {
    var d, seen := t.depends, {};
    while seen != t.byTag.Keys
      invariant seen <= t.byTag.Keys
      invariant ForwardedBy(files, t, d, seen) && AuditedLists(t.byTag, d, seen)
      invariant forall tag :: tag in seen ==> !NamesUnknown(files, t, tag)
      decreases t.byTag.Keys - seen
    {
      assert t.byTag.Keys == seen + (t.byTag.Keys - seen);
      var tag :| tag in t.byTag.Keys - seen;
      var audited := ResolveOne(files, t, d, seen, tag);
      if audited.None? {
        return None;
      }
      d, seen := audited.value, seen + {tag};
    }
    r := Some(d);
  }

  method ResolveOne(files: seq<File>, t: Tables, d: seq<seq<Tag>>, ghost seen: set<Tag>, tag: Tag)
    returns (r: Option<seq<seq<Tag>>>)
    requires Named(files, |files|, t.byTag) && |t.depends| == |files| && tag in t.byTag
    requires ForwardedBy(files, t, d, seen) && AuditedLists(t.byTag, d, seen)
    ensures r.None? <==> NamesUnknown(files, t, tag)
    ensures r.Some? ==> ForwardedBy(files, t, r.value, seen + {tag}) && AuditedLists(t.byTag, r.value, seen + {tag})
  {
    var forwarded := Forward(files, t.byTag, d, files[t.byTag[tag]].fwd, tag);
    if forwarded.None? {
      return None;
    }
    ForwardStep(files, t, d, forwarded.value, seen, tag);
    AuditSeesOriginal(files, t, forwarded.value, seen + {tag}, tag);
    if !(Elems(forwarded.value[t.byTag[tag]]) <= t.byTag.Keys) {
      return None;
    }
    r := forwarded;
  }

  /** The lists of the tags in `seen` name known tags only. */
  ghost predicate AuditedLists(byTag: map<Tag, nat>, d: seq<seq<Tag>>, seen: set<Tag>) {
    forall x :: x in seen && x in byTag && byTag[x] < |d| ==> Elems(d[byTag[x]]) <= byTag.Keys
  }

  lemma ForwardersGrow(files: seq<File>, byTag: map<Tag, nat>, seen: set<Tag>, tag: Tag, x: Tag)
    requires (forall y :: y in byTag ==> byTag[y] < |files|) && tag in byTag
    ensures Forwarders(files, byTag, seen + {tag}, x)
         == Forwarders(files, byTag, seen, x) + if x in files[byTag[tag]].fwd then {tag} else {}
  {
  }

  lemma ForwardStep(files: seq<File>, t: Tables, d: seq<seq<Tag>>, d': seq<seq<Tag>>, seen: set<Tag>, tag: Tag)
    requires Named(files, |files|, t.byTag) && ForwardedBy(files, t, d, seen) && tag in t.byTag
    requires AppendedTo(t.byTag, d, d', files[t.byTag[tag]].fwd, tag) && AuditedLists(t.byTag, d, seen)
    ensures ForwardedBy(files, t, d', seen + {tag}) && AuditedLists(t.byTag, d', seen)
  {
    forall x | x in t.byTag
      ensures Elems(d'[t.byTag[x]]) == Elems(t.depends[t.byTag[x]]) + Forwarders(files, t.byTag, seen + {tag}, x)
      ensures x in seen ==> Elems(d'[t.byTag[x]]) <= t.byTag.Keys
    {
      ForwardersGrow(files, t.byTag, seen, tag, x);
      assert Elems(d'[t.byTag[x]]) == Elems(d[t.byTag[x]]) + if x in files[t.byTag[tag]].fwd then {tag} else {};
    }
  }

  /** The rules the scheduler works with. */
  function RulesOf(t: Tables, depends: seq<seq<Tag>>): Rules
    requires forall x :: x in t.byTag ==> t.byTag[x] < |depends|
  {
    Rules(t.ups, t.downs, map x | x in t.byTag :: Elems(depends[t.byTag[x]]))
  }

  /** The dependency lists as the files give them. */
  function DependsOf(files: seq<File>): seq<seq<Tag>> {
    seq(|files|, i requires 0 <= i < |files| => files[i].depends)
  }

  ghost predicate HasFunctions(files: seq<File>) {
    forall i :: 0 <= i < |files| ==> files[i].kind != Neither
  }

  /** The tables after the legacy chain: `to` is the first version from 3 on that no file carries. */
  ghost predicate IsChained(files: seq<File>, t: Tables, to: nat) {
    && Indexed(files, |files|, t) && Named(files, |files|, t.byTag)
    && ((3 in t.legacy ==> 2 in t.legacy) ==>
          to >= 3 && to !in t.legacy && ChainedBelow(files, t.legacy, DependsOf(files), t.depends, to))
  }

  /**
    Loading everything; `t` holds the tables after the legacy chain. A tag ends up depending on its own list and on
    everybody who forwards to it. The audit is complete even though forward dependencies are added to lists it has
    already passed.
   */
  method LoadAll(files: seq<File>) returns (r: Option<Rules>, ghost t: Tables, ghost to: nat)
    ensures HasFunctions(files) ==> IsChained(files, t, to)
    ensures r.None?
       <==> || !HasFunctions(files) || (3 in t.legacy && 2 !in t.legacy)
            || exists tag :: tag in t.byTag && NamesUnknown(files, t, tag)
    ensures r.Some? ==> r.value.deps.Keys == t.byTag.Keys && forall x :: x in t.byTag ==>
              r.value.deps[x] == Elems(t.depends[t.byTag[x]]) + Forwarders(files, t.byTag, t.byTag.Keys, x)
    ensures r.Some? ==> r.value.ups == set i | 0 <= i < |files| && files[i].kind == Upgrades :: files[i].tag
    ensures r.Some? ==> r.value.downs == set i | 0 <= i < |files| && files[i].kind == Downgrades :: files[i].tag
    ensures r.Some? && r.value.ups !! r.value.downs ==> Audited(r.value)
  {
    var registered := Register(files);
    t, to := Tables(map[], map[], {}, {}, []), 0;
    if registered.None? {
      return None, t, to;
    }
    assert registered.value.depends == DependsOf(files);
    t := registered.value;
    var chained;
    chained, to := ChainLegacy(files, registered.value);
    if chained.None? {
      return None, t, to;
    }
    t := chained.value;
    var resolved := ResolveAndAudit(files, chained.value);
    if resolved.None? {
      return None, t, to;
    }
    TagsAreCollected(files, |files|, Upgrades);
    TagsAreCollected(files, |files|, Downgrades);
    r := Some(RulesOf(chained.value, resolved.value));
  }
}
