/** The rolling line buffer: the last lines of an endless input, kept in a list that is overwritten in a circle. */
module LogRoll {

  /** The last `n` lines, or all of them if there are fewer. */
  function Last(s: seq<string>, n: nat): seq<string> {
    if |s| <= n then s else s[|s| - n..]
  }

  /** What a dump prints: from the index to the end, then from the start to the index. */
  function Dump(lines: seq<string>, idx: nat): seq<string>
    requires idx <= |lines|
  {
    lines[idx..] + lines[..idx]
  }

  /** After the lines `seen`: while filling, the index is the end; once full, it is the oldest line's place. */
  ghost predicate Rolled(lines: seq<string>, idx: nat, n: nat, seen: seq<string>) {
    && n > 0 && |lines| <= n && idx <= |lines|
    && (|lines| < n ==> idx == |lines|)
    && (|lines| == n ==> idx < n)
    && Dump(lines, idx) == Last(seen, n)
    && (|lines| == n <==> |seen| >= n)
  }

  lemma FillStep(lines: seq<string>, idx: nat, n: nat, seen: seq<string>, line: string)
    requires Rolled(lines, idx, n, seen) && |lines| < n
    ensures Rolled(lines + [line], if idx == n - 1 then 0 else idx + 1, n, seen + [line])
  {
    assert lines[idx..] == [] && lines[..idx] == lines;
    assert seen == lines;
    assert (lines + [line])[..idx + 1] == lines + [line];
  }

  lemma WrapStep(lines: seq<string>, idx: nat, n: nat, seen: seq<string>, line: string)
    requires Rolled(lines, idx, n, seen) && |lines| == n
    ensures Rolled(lines[idx := line], if idx == n - 1 then 0 else idx + 1, n, seen + [line])
  {
    OverwriteDump(lines, idx, line);
    LastStep(seen, n, line);
  }

  /** Overwriting the oldest line drops it from the dump and appends the new one. */
  lemma OverwriteDump(lines: seq<string>, idx: nat, line: string)
    requires idx < |lines|
    ensures var next := if idx == |lines| - 1 then 0 else idx + 1;
            Dump(lines[idx := line], next) == Dump(lines, idx)[1..] + [line]
  {
    assert Dump(lines, idx)[1..] == lines[idx + 1..] + lines[..idx];
  }

  lemma LastStep(seen: seq<string>, n: nat, line: string)
    requires 0 < n <= |seen|
    ensures Last(seen + [line], n) == Last(seen, n)[1..] + [line]
  {
  }

  /** What the buffer should hold: the last `target` lines, or every line when the target is not positive. */
  function Wanted(seen: seq<string>, target: int): seq<string> {
    if target > 0 then Last(seen, target) else seen
  }

  ghost function Capacity(target: int, incoming: seq<string>): nat {
    if target > 0 then target else |incoming| + 1
  }

  ghost predicate AllWanted(dumps: seq<seq<string>>, incoming: seq<string>, target: int, k: nat)
    requires k <= |incoming|
  {
    |dumps| == k + 1 && forall j :: 0 <= j <= k ==> dumps[j] == Wanted(incoming[..j], target)
  }

  /** One more line taken and the buffer stepped: the next dump is the wanted one too. */
  lemma NextDump(
    dumps: seq<seq<string>>, incoming: seq<string>, target: int, k: nat, lines: seq<string>, idx: nat, n: nat)
    requires k < |incoming| && AllWanted(dumps, incoming, target, k)
    requires n == Capacity(target, incoming)
    requires Rolled(lines, idx, n, incoming[..k] + [incoming[k]])
    ensures Rolled(lines, idx, n, incoming[..k + 1])
    ensures AllWanted(dumps + [Dump(lines, idx)], incoming, target, k + 1)
  {
    assert incoming[..k + 1] == incoming[..k] + [incoming[k]];
  }

  /** The first loop: appends until the buffer is full or the input ends. */
  method Fill(target: int, incoming: seq<string>)
    returns (lines: seq<string>, idx: nat, k: nat, dumps: seq<seq<string>>)
    ensures k <= |incoming| && Rolled(lines, idx, Capacity(target, incoming), incoming[..k])
    ensures AllWanted(dumps, incoming, target, k)
    ensures k < |incoming| ==> |lines| == target > 0
  {
    lines, idx, k := [], 0, 0;
    var lastIdx := target - 1;
    dumps := [Dump(lines, idx)];
    ghost var n := Capacity(target, incoming);
    while k < |incoming|
      invariant k <= |incoming| && Rolled(lines, idx, n, incoming[..k]) && |lines| < n
      invariant AllWanted(dumps, incoming, target, k)
    {
      FillStep(lines, idx, n, incoming[..k], incoming[k]);
      lines := lines + [incoming[k]];
      var full := idx == lastIdx;
      idx := if full then 0 else idx + 1;
      NextDump(dumps, incoming, target, k, lines, idx, n);
      k := k + 1;
      dumps := dumps + [Dump(lines, idx)];
      if full {
        break;
      }
    }
  }

  /**
    The whole run. `dumps[k]` is what a dump requested while the program waits after `k` lines would print. For a
    positive target that is exactly the last lines seen, in order. For any other target the index never meets the end
    and nothing is ever dropped. The last dump is what the program prints at the end.
   */
  method Roll(target: int, incoming: seq<string>) returns (dumps: seq<seq<string>>)
    ensures AllWanted(dumps, incoming, target, |incoming|)
  {
    var lines, idx: nat, k: nat, filled := Fill(target, incoming);
    var lastIdx := target - 1;
    dumps := filled;
    ghost var n := Capacity(target, incoming);
    while k < |incoming|
      invariant k <= |incoming| && Rolled(lines, idx, n, incoming[..k]) && (k < |incoming| ==> |lines| == n == target)
      invariant AllWanted(dumps, incoming, target, k)
    {
      WrapStep(lines, idx, n, incoming[..k], incoming[k]);
      lines := lines[idx := incoming[k]];
      idx := if idx == lastIdx then 0 else idx + 1;
      NextDump(dumps, incoming, target, k, lines, idx, n);
      k := k + 1;
      dumps := dumps + [Dump(lines, idx)];
    }
  }
}
