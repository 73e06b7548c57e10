/** Finding the comment blocks at the head of a source file, where copyright notices are looked for. */
module CopyrightBlocks {
  import opened Options
  import opened Text

  datatype Block = Block(start: nat, end: nat)

  datatype Outcome = Finished | AssertionFailed(line: nat) | UnknownLanguage

  /** Nonempty blocks inside the file, each one ending before the next begins. */
  ghost predicate Ordered(blocks: seq<Block>, size: nat) {
    && (forall b :: 0 <= b < |blocks| ==> blocks[b].start <= blocks[b].end < size)
    && (forall a, b :: 0 <= a < b < |blocks| ==> blocks[a].end < blocks[b].start)
  }

  lemma AppendOrdered(blocks: seq<Block>, size: nat, b: Block, size': nat)
    requires Ordered(blocks, size) && size <= b.start <= b.end < size'
    ensures Ordered(blocks + [b], size')
  {
  }

  predicate Blank(line: string) {
    Strip(line) == ""
  }

  // ---------------------------------------------------------------- languages with line comments only

  /** The lines of a file of such a language: which are comments, and whether the first line is passed over. */
  datatype Page = Page(lines: seq<string>, comment: string -> bool, skipFirst: bool)

  predicate Skipped(p: Page, i: nat) {
    i == 0 && p.skipFirst
  }

  predicate Comment(p: Page, i: nat) {
    i < |p.lines| && !Skipped(p, i) && p.comment(p.lines[i])
  }

  /** A maximal run of comment lines that some line follows. */
  predicate IsRun(p: Page, b: Block) {
    && b.start <= b.end < |p.lines| - 1
    && (forall k: nat :: b.start <= k <= b.end ==> Comment(p, k))
    && (b.start > 0 ==> !Comment(p, b.start - 1))
    && !Comment(p, b.end + 1)
  }

  /** A line that ends the search: neither blank nor a comment, and not directly below a comment. */
  predicate Stops(p: Page, i: nat) {
    && i < |p.lines| && !Skipped(p, i) && !Comment(p, i) && !Blank(p.lines[i])
    && (i > 0 ==> !Comment(p, i - 1))
  }

  predicate NoStopBelow(p: Page, n: nat) {
    forall j: nat :: j < n ==> !Stops(p, j)
  }

  /** After `i` lines: the runs that ended above line `i`, and the start of a run still open there. */
  ghost predicate Scanned(p: Page, i: nat, start: Option<nat>, blocks: seq<Block>) {
    && i <= |p.lines| && NoStopBelow(p, i)
    && Ordered(blocks, i)
    && (forall b :: b in blocks <==> IsRun(p, b) && b.end + 1 < i)
    && (start.None? <==> i == 0 || !Comment(p, i - 1))
    && (start.Some? ==> start.value < i && OpenRun(p, start.value, i))
    && (start.Some? ==> Ordered(blocks, start.value))
  }

  predicate OpenRun(p: Page, s: nat, i: nat) {
    (forall k: nat :: s <= k < i ==> Comment(p, k)) && (s > 0 ==> !Comment(p, s - 1))
  }

  /** Exactly the maximal comment runs above the first stopping line are found. */
  ghost predicate FoundRuns(p: Page, blocks: seq<Block>) {
    && Ordered(blocks, |p.lines|)
    && (forall b :: b in blocks <==> IsRun(p, b) && NoStopBelow(p, b.start))
  }

  lemma RunIsUnique(p: Page, a: Block, b: Block)
    requires IsRun(p, a) && IsRun(p, b) && a.end == b.end
    ensures a == b
  {
    assert a.start < b.start ==> b.start - 1 >= a.start;
    assert b.start < a.start ==> a.start - 1 >= b.start;
  }

  lemma StepComment(p: Page, i: nat, start: Option<nat>, blocks: seq<Block>)
    requires Scanned(p, i, start, blocks) && Comment(p, i)
    ensures Scanned(p, i + 1, if start.None? then Some(i) else start, blocks)
  {
  }

  lemma StepQuiet(p: Page, i: nat, start: Option<nat>, blocks: seq<Block>)
    requires Scanned(p, i, start, blocks) && i < |p.lines| && !Comment(p, i) && start.None? && !Stops(p, i)
    ensures Scanned(p, i + 1, None, blocks)
  {
  }

  lemma StepClose(p: Page, i: nat, start: Option<nat>, blocks: seq<Block>)
    requires Scanned(p, i, start, blocks) && i < |p.lines| && !Comment(p, i) && start.Some?
    ensures Scanned(p, i + 1, None, blocks + [Block(start.value, i - 1)])
  {
    var b := Block(start.value, i - 1);
    assert IsRun(p, b);
    AppendOrdered(blocks, start.value, b, i);
    forall c | IsRun(p, c) && c.end + 1 == i ensures c == b {
      RunIsUnique(p, b, c);
    }
  }

  lemma ScannedToEnd(p: Page, i: nat, start: Option<nat>, blocks: seq<Block>)
    requires Scanned(p, i, start, blocks) && (i == |p.lines| || Stops(p, i))
    ensures FoundRuns(p, blocks)
  {
    forall b | IsRun(p, b) && NoStopBelow(p, b.start) ensures b in blocks {
      if i < |p.lines| {
        assert b.start <= i;
        assert b.end + 1 < i;
      }
    }
    forall b | b in blocks ensures NoStopBelow(p, b.start) {
    }
  }

  method FindRuns(p: Page) returns (blocks: seq<Block>)
    ensures FoundRuns(p, blocks)
  {
    blocks := [];
    var start: Option<nat>, i: nat := None, 0;
    while i < |p.lines|
      invariant Scanned(p, i, start, blocks)
    {
      if Skipped(p, i) {
        StepQuiet(p, i, start, blocks);
      } else if p.comment(p.lines[i]) {
        StepComment(p, i, start, blocks);
        if start.None? {
          start := Some(i);
        }
      } else if start.None? {
        if !Blank(p.lines[i]) {
          ScannedToEnd(p, i, start, blocks);
          return;
        }
        StepQuiet(p, i, start, blocks);
      } else {
        StepClose(p, i, start, blocks);
        blocks := blocks + [Block(start.value, i - 1)];
        start := None;
      }
      i := i + 1;
    }
    ScannedToEnd(p, i, start, blocks);
  }

  // ---------------------------------------------------------------- the C family

  ghost predicate IsAt(line: string, mark: string, k: int)
    requires |mark| == 2
  {
    0 <= k && k + 2 <= |line| && line[k] == mark[0] && line[k + 1] == mark[1]
  }

  /** The place of the first occurrence of a two-character mark. */
  function Find(line: string, mark: string): (r: Option<nat>)
    requires |mark| == 2
    ensures r.Some? ==> IsAt(line, mark, r.value) && forall k :: 0 <= k < r.value ==> !IsAt(line, mark, k)
    ensures r.None? ==> forall k :: !IsAt(line, mark, k)
  {
    assert forall k :: 0 < k ==> (IsAt(line, mark, k) <==> |line| > 0 && IsAt(line[1..], mark, k - 1));
    if |line| < 2 then None
    else if line[..2] == mark then Some(0)
    else
      var r := Find(line[1..], mark);
      if r.None? then None else Some(r.value + 1)
  }

  predicate Opens(line: string) {
    Find(line, "/*").Some?
  }

  predicate Closes(line: string) {
    Find(line, "*/").Some?
  }

  predicate HasSlashes(line: string) {
    Find(line, "//").Some?
  }

  /** Only blanks before the two slashes, and no other kind of comment on the line. */
  predicate SlashLine(line: string) {
    HasSlashes(line) && !Opens(line) && Blank(line[..Find(line, "//").value])
  }

  predicate StartsNotice(line: string)
    requires HasSlashes(line)
  {
    "Copyright" <= StripLeft(line[Find(line, "//").value + 2..])
  }

  /** A blank line between slash comments. */
  predicate Quiet(line: string) {
    !HasSlashes(line) && Blank(line)
  }

  /**
    A line that ends the slash comments above it: one that starts a new notice, or one that is neither blank nor a slash
    comment.
   */
  predicate EndsSlashes(line: string) {
    if HasSlashes(line) then SlashLine(line) && StartsNotice(line) else !Blank(line)
  }

  lemma {:induction false} StripKeeps(s: string, c: char)
    requires c in s && !IsSpace(c)
    ensures c in StripLeft(s) && c in StripRight(s)
    decreases |s|
  {
    if IsSpace(s[0]) {
      assert c in s[1..];
      StripKeeps(s[1..], c);
    }
    if IsSpace(s[|s| - 1]) {
      assert c in s[..|s| - 1];
      StripKeeps(s[..|s| - 1], c);
    }
  }

  lemma BlankOpensNothing(line: string)
    requires Blank(line)
    ensures !Opens(line)
  {
    if Opens(line) {
      var at := Find(line, "/*").value;
      assert line[at] == '/';
      StripKeeps(line, '/');
      StripKeeps(StripRight(line), '/');
    }
  }

  /** The lines of a file of the C family, and whether the first line is passed over. */
  datatype Sheet = Sheet(lines: seq<string>, skipFirst: bool)

  predicate Passed(s: Sheet, i: nat) {
    i == 0 && s.skipFirst
  }

  /** Line `i` lies inside a C comment: one was opened above, outside of any other comment, and not closed since. */
  predicate InComment(s: Sheet, i: nat)
    requires i <= |s.lines|
  {
    && i > 0 && !Passed(s, i - 1)
    && var line := s.lines[i - 1];
       if InComment(s, i - 1) then !Closes(line) else !HasSlashes(line) && Opens(line)
  }

  predicate Free(s: Sheet, i: nat) {
    i < |s.lines| && !Passed(s, i) && !InComment(s, i)
  }

  predicate OpensC(s: Sheet, i: nat) {
    Free(s, i) && !HasSlashes(s.lines[i]) && Opens(s.lines[i])
  }

  predicate IsSlashes(s: Sheet, i: nat) {
    Free(s, i) && SlashLine(s.lines[i])
  }

  /** The one assertion of the source that can fail: a line with both kinds of comment. */
  predicate Fails(s: Sheet, i: nat) {
    Free(s, i) && HasSlashes(s.lines[i]) && Opens(s.lines[i])
  }

  /** A line that ends the search: code, alone or in front of a slash comment. */
  predicate EndsSearch(s: Sheet, i: nat) {
    Free(s, i) && !Opens(s.lines[i]) && if HasSlashes(s.lines[i]) then !SlashLine(s.lines[i]) else !Blank(s.lines[i])
  }

  ghost predicate Clear(s: Sheet, n: nat) {
    forall j: nat :: j < n ==> !Fails(s, j) && !EndsSearch(s, j)
  }

  /** The walk gets to a line that fails the assertion. */
  ghost predicate FailsAt(s: Sheet, i: nat) {
    Clear(s, i) && Fails(s, i)
  }

  /** Slash comments and blank lines from line `a` up to line `i`. */
  ghost predicate SlashRun(s: Sheet, a: nat, i: nat) {
    && a < i <= |s.lines| && IsSlashes(s, a)
    && forall k :: a <= k < i ==> SlashLine(s.lines[k]) || Quiet(s.lines[k])
  }

  ghost predicate InRun(s: Sheet, i: nat) {
    exists a :: SlashRun(s, a, i)
  }

  /** A block of slash comments starts where no slash comment stands above, or at a line that starts a notice. */
  ghost predicate StartsBlock(s: Sheet, a: nat) {
    IsSlashes(s, a) && (StartsNotice(s.lines[a]) || !InRun(s, a))
  }

  ghost predicate NoNotice(s: Sheet, a: nat, i: nat) {
    i <= |s.lines| && forall k :: a < k < i && SlashLine(s.lines[k]) ==> !StartsNotice(s.lines[k])
  }

  ghost predicate OpenSlashes(s: Sheet, a: nat, i: nat) {
    StartsBlock(s, a) && SlashRun(s, a, i) && NoNotice(s, a, i)
  }

  ghost predicate OpenC(s: Sheet, a: nat, i: nat) {
    a < i <= |s.lines| && OpensC(s, a) && forall k :: a < k < i ==> !Closes(s.lines[k])
  }

  /** From a line that opens a comment to the first later line that closes one. */
  ghost predicate IsCBlock(s: Sheet, b: Block) {
    OpenC(s, b.start, b.end) && b.end < |s.lines| && Closes(s.lines[b.end])
  }

  /** Slash comments and blank lines, up to a line of another kind or a line that starts a new notice. */
  ghost predicate IsSlashBlock(s: Sheet, b: Block) {
    b.end + 1 < |s.lines| && OpenSlashes(s, b.start, b.end + 1) && EndsSlashes(s.lines[b.end + 1])
  }

  /** Exactly the blocks above the first line that ends the search or fails the assertion are found. */
  ghost predicate FoundBlocks(s: Sheet, blocks: seq<Block>) {
    && Ordered(blocks, |s.lines|)
    && forall b :: b in blocks <==> (IsCBlock(s, b) || IsSlashBlock(s, b)) && Clear(s, b.end + 1)
  }

  ghost predicate IsResult(s: Sheet, blocks: seq<Block>, outcome: Outcome) {
    && FoundBlocks(s, blocks)
    && outcome != UnknownLanguage && forall i: nat :: FailsAt(s, i) <==> outcome == AssertionFailed(i)
  }

  lemma {:induction false} OpenCIsInComment(s: Sheet, a: nat, i: nat)
    requires OpenC(s, a, i)
    ensures InComment(s, i)
    decreases i
  {
    if i > a + 1 {
      OpenCIsInComment(s, a, i - 1);
    }
  }

  lemma {:induction false} RunIsOutside(s: Sheet, a: nat, i: nat)
    requires SlashRun(s, a, i)
    ensures !InComment(s, i)
    decreases i
  {
    if i > a + 1 {
      RunIsOutside(s, a, i - 1);
      if Quiet(s.lines[i - 1]) {
        BlankOpensNothing(s.lines[i - 1]);
      }
    }
  }

  datatype Mode = Outside | InSlashes | InC

  /**
    The mode and start of the walk before line `i`. The assertions of the source about them are consequences of this.
   */
  ghost predicate Tracks(s: Sheet, i: nat, mode: Mode, start: Option<nat>) {
    && i <= |s.lines|
    && match mode
       case Outside => !InComment(s, i) && !InRun(s, i)
       case InSlashes => start.Some? && OpenSlashes(s, start.value, i)
       case InC => start.Some? && OpenC(s, start.value, i)
  }

  /** The block is closed by a line above `i`. */
  ghost predicate ClosedAbove(s: Sheet, b: Block, i: nat) {
    (IsCBlock(s, b) && b.end < i) || (IsSlashBlock(s, b) && b.end + 1 < i)
  }

  ghost predicate Walking(s: Sheet, i: nat, mode: Mode, start: Option<nat>, blocks: seq<Block>) {
    && Tracks(s, i, mode, start) && Clear(s, i)
    && Ordered(blocks, if mode == Outside then i else start.value)
    && forall b :: b in blocks <==> ClosedAbove(s, b, i)
  }

  /** Which block a line closes, if any. */
  lemma ClosedBySlashes(s: Sheet, i: nat, a: nat, b: Block)
    requires i < |s.lines| && OpenSlashes(s, a, i)
    ensures ClosedAbove(s, b, i + 1) <==> ClosedAbove(s, b, i) || (b == Block(a, i - 1) && EndsSlashes(s.lines[i]))
  {
    RunIsOutside(s, a, i);
    if IsCBlock(s, b) && b.end == i {
      OpenCIsInComment(s, b.start, i);
    }
    if IsSlashBlock(s, b) && b.end + 1 == i {
      SameStart(s, a, b.start, i);
    }
  }

  lemma SameStart(s: Sheet, a: nat, c: nat, i: nat)
    requires OpenSlashes(s, a, i) && OpenSlashes(s, c, i)
    ensures a == c
  {
    if a < c {
      assert SlashRun(s, a, c);
    } else if c < a {
      assert SlashRun(s, c, a);
    }
  }

  lemma ClosedByC(s: Sheet, i: nat, a: nat, b: Block)
    requires i < |s.lines| && OpenC(s, a, i)
    ensures ClosedAbove(s, b, i + 1) <==> ClosedAbove(s, b, i) || (b == Block(a, i) && Closes(s.lines[i]))
  {
    OpenCIsInComment(s, a, i);
    if IsSlashBlock(s, b) && b.end + 1 == i {
      RunIsOutside(s, b.start, i);
    }
    if IsCBlock(s, b) && b.end == i {
      SameOpening(s, a, b.start, i);
    }
  }

  lemma SameOpening(s: Sheet, a: nat, c: nat, i: nat)
    requires OpenC(s, a, i) && OpenC(s, c, i)
    ensures a == c
  {
    if a < c {
      OpenCIsInComment(s, a, c);
    } else if c < a {
      OpenCIsInComment(s, c, a);
    }
  }

  lemma ClosedOutside(s: Sheet, i: nat, b: Block)
    requires i < |s.lines| && !InComment(s, i) && !InRun(s, i)
    ensures ClosedAbove(s, b, i + 1) <==> ClosedAbove(s, b, i)
  {
    if IsCBlock(s, b) && b.end == i {
      OpenCIsInComment(s, b.start, i);
    }
    assert IsSlashBlock(s, b) && b.end + 1 == i ==> SlashRun(s, b.start, i);
  }

  lemma RunStep(s: Sheet, i: nat)
    requires i < |s.lines| && !InRun(s, i)
    ensures InRun(s, i + 1) ==> IsSlashes(s, i)
  {
    if InRun(s, i + 1) {
      var a :| SlashRun(s, a, i + 1);
      assert a == i || SlashRun(s, a, i);
    }
  }

  /** Outside any comment: a line that changes nothing. */
  lemma StepOutside(s: Sheet, i: nat, start: Option<nat>, blocks: seq<Block>)
    requires Walking(s, i, Outside, start, blocks) && i < |s.lines|
    requires Passed(s, i) || (!HasSlashes(s.lines[i]) && !Opens(s.lines[i]) && Blank(s.lines[i]))
    ensures Walking(s, i + 1, Outside, start, blocks)
  {
    RunStep(s, i);
    forall b ensures ClosedAbove(s, b, i + 1) <==> ClosedAbove(s, b, i) {
      ClosedOutside(s, i, b);
    }
  }

  lemma NothingCloses(s: Sheet, i: nat, start: Option<nat>, blocks: seq<Block>)
    requires Walking(s, i, Outside, start, blocks) && i < |s.lines|
    ensures forall b :: b in blocks <==> ClosedAbove(s, b, i + 1)
  {
    forall b ensures ClosedAbove(s, b, i + 1) <==> ClosedAbove(s, b, i) {
      ClosedOutside(s, i, b);
    }
  }

  lemma StepIntoSlashes(s: Sheet, i: nat, start: Option<nat>, blocks: seq<Block>)
    requires Walking(s, i, Outside, start, blocks) && IsSlashes(s, i)
    ensures Walking(s, i + 1, InSlashes, Some(i), blocks)
  {
    NothingCloses(s, i, start, blocks);
    assert SlashRun(s, i, i + 1);
    assert OpenSlashes(s, i, i + 1);
  }

  lemma StepIntoC(s: Sheet, i: nat, start: Option<nat>, blocks: seq<Block>)
    requires Walking(s, i, Outside, start, blocks) && OpensC(s, i)
    ensures Walking(s, i + 1, InC, Some(i), blocks)
  {
    NothingCloses(s, i, start, blocks);
    assert OpenC(s, i, i + 1);
  }

  lemma StepC(s: Sheet, i: nat, start: Option<nat>, blocks: seq<Block>)
    requires Walking(s, i, InC, start, blocks) && i < |s.lines|
    ensures !Closes(s.lines[i]) ==> Walking(s, i + 1, InC, start, blocks)
    ensures Closes(s.lines[i]) ==> Walking(s, i + 1, Outside, start, blocks + [Block(start.value, i)])
  {
    OpenCIsInComment(s, start.value, i);
    if InRun(s, i) {
      var a :| SlashRun(s, a, i);
      RunIsOutside(s, a, i);
    }
    RunStep(s, i);
    forall b
      ensures ClosedAbove(s, b, i + 1) <==> ClosedAbove(s, b, i) || (b == Block(start.value, i) && Closes(s.lines[i]))
    {
      ClosedByC(s, i, start.value, b);
    }
    if Closes(s.lines[i]) {
      AppendOrdered(blocks, start.value, Block(start.value, i), i + 1);
    }
  }

  lemma StepSlashes(s: Sheet, i: nat, start: Option<nat>, blocks: seq<Block>)
    requires Walking(s, i, InSlashes, start, blocks) && i < |s.lines|
    requires if HasSlashes(s.lines[i]) then SlashLine(s.lines[i]) && !StartsNotice(s.lines[i]) else Blank(s.lines[i])
    ensures Walking(s, i + 1, InSlashes, start, blocks)
  {
    forall b ensures ClosedAbove(s, b, i + 1) <==> ClosedAbove(s, b, i) {
      ClosedBySlashes(s, i, start.value, b);
    }
    if Quiet(s.lines[i]) {
      BlankOpensNothing(s.lines[i]);
    }
  }

  /** What is found when line `i` ends the slash comments above it. */
  ghost predicate Yielded(s: Sheet, i: nat, blocks: seq<Block>) {
    && i < |s.lines| && Clear(s, i) && Ordered(blocks, i) && !InComment(s, i)
    && forall b :: b in blocks <==> ClosedAbove(s, b, i + 1)
  }

  lemma SlashesEnd(s: Sheet, i: nat, start: Option<nat>, blocks: seq<Block>)
    requires Walking(s, i, InSlashes, start, blocks) && i < |s.lines| && EndsSlashes(s.lines[i])
    ensures Yielded(s, i, blocks + [Block(start.value, i - 1)])
  {
    RunIsOutside(s, start.value, i);
    forall b ensures ClosedAbove(s, b, i + 1) <==> ClosedAbove(s, b, i) || b == Block(start.value, i - 1) {
      ClosedBySlashes(s, i, start.value, b);
    }
    AppendOrdered(blocks, start.value, Block(start.value, i - 1), i);
  }

  /** After that the line may start the next block. */
  lemma StepOn(s: Sheet, i: nat, blocks: seq<Block>)
    requires Yielded(s, i, blocks) && i > 0
    ensures SlashLine(s.lines[i]) && StartsNotice(s.lines[i]) ==> Walking(s, i + 1, InSlashes, Some(i), blocks)
    ensures !HasSlashes(s.lines[i]) && Opens(s.lines[i]) ==> Walking(s, i + 1, InC, Some(i), blocks)
  {
    if SlashLine(s.lines[i]) {
      assert SlashRun(s, i, i + 1);
    }
  }

  /** The search is over at line `i`. */
  lemma EndsAt(s: Sheet, i: nat, blocks: seq<Block>)
    requires Yielded(s, i, blocks) && (EndsSearch(s, i) || Fails(s, i))
    ensures IsResult(s, blocks, if Fails(s, i) then AssertionFailed(i) else Finished)
  {
    forall b | IsCBlock(s, b) ensures b.end != i {
      if b.end == i {
        OpenCIsInComment(s, b.start, i);
      }
    }
    forall b | ClosedAbove(s, b, i + 1) ensures Clear(s, b.end + 1) {
    }
  }

  /** Nothing was found at line `i` itself. */
  lemma NothingYielded(s: Sheet, i: nat, mode: Mode, start: Option<nat>, blocks: seq<Block>)
    requires Walking(s, i, mode, start, blocks) && i < |s.lines| && mode != InC
    requires mode == InSlashes ==> !EndsSlashes(s.lines[i])
    ensures Yielded(s, i, blocks)
  {
    if mode == InSlashes {
      RunIsOutside(s, start.value, i);
    }
    forall b ensures ClosedAbove(s, b, i + 1) <==> ClosedAbove(s, b, i) {
      if mode == InSlashes {
        ClosedBySlashes(s, i, start.value, b);
      } else {
        ClosedOutside(s, i, b);
      }
    }
  }

  /** The search stops at line `i`, and the slash comments above it, if any, go on to there. */
  lemma StopsAt(s: Sheet, i: nat, mode: Mode, start: Option<nat>, blocks: seq<Block>)
    requires Walking(s, i, mode, start, blocks) && i < |s.lines| && mode != InC && !Passed(s, i)
    requires if HasSlashes(s.lines[i]) then !SlashLine(s.lines[i])
             else mode == Outside && !Opens(s.lines[i]) && !Blank(s.lines[i])
    ensures IsResult(s, blocks, if HasSlashes(s.lines[i]) && Opens(s.lines[i]) then AssertionFailed(i) else Finished)
  {
    NothingYielded(s, i, mode, start, blocks);
    EndsAt(s, i, blocks);
  }

  lemma WalkEnds(s: Sheet, mode: Mode, start: Option<nat>, blocks: seq<Block>)
    requires Walking(s, |s.lines|, mode, start, blocks)
    ensures IsResult(s, blocks, Finished)
  {
    forall b | IsCBlock(s, b) || IsSlashBlock(s, b) ensures ClosedAbove(s, b, |s.lines|) && Clear(s, b.end + 1) {
    }
  }

  method FindCBlocks(s: Sheet) returns (blocks: seq<Block>, outcome: Outcome)
    ensures IsResult(s, blocks, outcome)
  {
    blocks, outcome := [], Finished;
    var mode, start: Option<nat>, i: nat := Outside, None, 0;
    while i < |s.lines|
      invariant outcome == Finished && Walking(s, i, mode, start, blocks)
      invariant i == 0 ==> mode == Outside
    {
      var line := s.lines[i];
      if Passed(s, i) {
        StepOutside(s, i, start, blocks);
      } else if mode == InC {
        StepC(s, i, start, blocks);
        if Closes(line) {
          blocks := blocks + [Block(start.value, i)];
          mode := Outside;
        }
      } else if HasSlashes(line) {
        if !SlashLine(line) {
          StopsAt(s, i, mode, start, blocks);
          return blocks, if Opens(line) then AssertionFailed(i) else Finished;
        }
        if mode == Outside {
          StepIntoSlashes(s, i, start, blocks);
          mode, start := InSlashes, Some(i);
        } else if StartsNotice(line) {
          SlashesEnd(s, i, start, blocks);
          blocks := blocks + [Block(start.value, i - 1)];
          StepOn(s, i, blocks);
          start := Some(i);
        } else {
          StepSlashes(s, i, start, blocks);
        }
      } else if mode == InSlashes && Blank(line) {
        StepSlashes(s, i, start, blocks);
      } else if mode == InSlashes {
        SlashesEnd(s, i, start, blocks);
        blocks := blocks + [Block(start.value, i - 1)];
        if !Opens(line) {
          EndsAt(s, i, blocks);
          return;
        }
        StepOn(s, i, blocks);
        mode, start := InC, Some(i);
      } else if Opens(line) {
        StepIntoC(s, i, start, blocks);
        mode, start := InC, Some(i);
      } else if !Blank(line) {
        StopsAt(s, i, mode, start, blocks);
        return;
      } else {
        StepOutside(s, i, start, blocks);
      }
      i := i + 1;
    }
    WalkEnds(s, mode, start, blocks);
  }

  /** A line is blank when it holds nothing but white space. */
  lemma BlankIff(line: string)
    ensures Blank(line) <==> forall c :: c in line ==> IsSpace(c)
  {
    if forall c :: c in line ==> IsSpace(c) {
      StripsAll(line);
    } else {
      var c :| c in line && !IsSpace(c);
      StripKeeps(line, c);
      StripKeeps(StripRight(line), c);
    }
  }

  lemma {:induction false} StripsAll(line: string)
    requires forall c :: c in line ==> IsSpace(c)
    ensures StripRight(line) == ""
    decreases |line|
  {
    if line != "" {
      var n := |line| - 1;
      assert line[n] in line && forall c :: c in line[..n] ==> c in line;
      StripsAll(line[..n]);
    }
  }

  /** A slash comment has nothing but white space before its first slashes, and opens no C comment. */
  lemma SlashLineIff(line: string, at: nat)
    requires IsAt(line, "//", at) && forall j :: 0 <= j < at ==> !IsAt(line, "//", j)
    ensures SlashLine(line) <==> (forall i :: 0 <= i < at ==> IsSpace(line[i])) && forall k :: !IsAt(line, "/*", k)
  {
    assert Find(line, "//").value == at;
    BlankIff(line[..at]);
    assert forall i :: 0 <= i < at ==> line[i] in line[..at];
  }

  /** A notice starts where only white space stands between the first slashes and the word. */
  lemma StartsNoticeIff(line: string, at: nat, k: nat)
    requires HasSlashes(line) && IsAt(line, "//", at) && forall j :: 0 <= j < at ==> !IsAt(line, "//", j)
    requires at + 2 <= k <= |line| && (forall i :: at + 2 <= i < k ==> IsSpace(line[i]))
    requires k < |line| ==> !IsSpace(line[k])
    ensures StartsNotice(line) <==> "Copyright" <= line[k..]
  {
    assert Find(line, "//").value == at;
    StripLeftMeans(line[at + 2..], k - (at + 2));
    assert line[at + 2..][k - (at + 2)..] == line[k..];
  }

  // ---------------------------------------------------------------- all languages

  predicate ShellComment(line: string) {
    "#" <= StripLeft(line)
  }

  predicate LispComment(line: string) {
    ';' in line
  }

  /** The languages by the comments they have. */
  datatype Family = Shell | Lisp | CFamily | Unknown

  function FamilyOf(language: string): Family {
    if language in {"python", "make", "shell", "perl", "scons"} then Shell
    else if language == "lisp" then Lisp
    else if language in {"C", "C++", "swig", "isa", "asm", "slicc", "lex", "yacc"} then CFamily
    else Unknown
  }

  /** The page a language with line comments reads, and whether an interpreter or editor line comes first. */
  function PageOf(lines: seq<string>, family: Family, modeLine: string -> bool): Page {
    var mode := lines != [] && modeLine(lines[0]);
    if family == Lisp then Page(lines, LispComment, mode)
    else Page(lines, ShellComment, mode || (lines != [] && "#!" <= lines[0]))
  }

  function SheetOf(lines: seq<string>, modeLine: string -> bool): Sheet {
    Sheet(lines, lines != [] && modeLine(lines[0]))
  }

  /** Which languages there are, and how their comments look. */
  lemma LanguagesAre(language: string)
    ensures FamilyOf(language) == Shell <==> language in ["python", "make", "shell", "perl", "scons"]
    ensures FamilyOf(language) == Lisp <==> language == "lisp"
    ensures FamilyOf(language) == CFamily <==> language in ["C", "C++", "swig", "isa", "asm", "slicc", "lex", "yacc"]
  {
  }

  /** What is found in a file of each family. */
  ghost predicate IsOutcome(lines: seq<string>, family: Family, modeLine: string -> bool, blocks: seq<Block>,
                            outcome: Outcome) {
    match family
    case CFamily => IsResult(SheetOf(lines, modeLine), blocks, outcome)
    case Unknown => blocks == [] && outcome == UnknownLanguage
    case _ => FoundRuns(PageOf(lines, family, modeLine), blocks) && outcome == Finished
  }

  /** In every language the blocks are nonempty, in order and apart from each other. */
  lemma FoundAreOrdered(lines: seq<string>, family: Family, modeLine: string -> bool, blocks: seq<Block>,
                        outcome: Outcome)
    requires IsOutcome(lines, family, modeLine, blocks, outcome)
    ensures Ordered(blocks, |lines|)
  {
  }

  /** A line-comment language: which lines are comments, and that only the first line may be passed over. */
  lemma CommentIff(lines: seq<string>, family: Family, modeLine: string -> bool, i: nat, k: nat)
    requires i < |lines| && (family == Shell || family == Lisp) && k <= |lines[i]|
    requires (forall j :: 0 <= j < k ==> IsSpace(lines[i][j])) && (k < |lines[i]| ==> !IsSpace(lines[i][k]))
    ensures Comment(PageOf(lines, family, modeLine), i)
       <==> && (if family == Lisp then ';' in lines[i] else k < |lines[i]| && lines[i][k] == '#')
            && !(i == 0 && (modeLine(lines[0]) || (family == Shell && "#!" <= lines[0])))
  {
    StripLeftMeans(lines[i], k);
  }

  /** A first line that tells the editor or the system about the file is in no block. */
  lemma FirstLineIsPassed(lines: seq<string>, family: Family, modeLine: string -> bool, blocks: seq<Block>,
                          outcome: Outcome, b: Block)
    requires IsOutcome(lines, family, modeLine, blocks, outcome) && lines != [] && b in blocks
    requires modeLine(lines[0]) || (family == Shell && "#!" <= lines[0])
    ensures b.start > 0
  {
    if family == Shell || family == Lisp {
      assert Comment(PageOf(lines, family, modeLine), b.start);
    }
  }

  method FindCopyrightBlocks(lines: seq<string>, language: string, modeLine: string -> bool)
    returns (blocks: seq<Block>, outcome: Outcome)
    ensures Ordered(blocks, |lines|)
    ensures IsOutcome(lines, FamilyOf(language), modeLine, blocks, outcome)
  {
    var family := FamilyOf(language);
    blocks, outcome := FindInFamily(lines, family, modeLine);
    FoundAreOrdered(lines, family, modeLine, blocks, outcome);
  }

  method FindInFamily(lines: seq<string>, family: Family, modeLine: string -> bool)
    returns (blocks: seq<Block>, outcome: Outcome)
    ensures IsOutcome(lines, family, modeLine, blocks, outcome)
  {
    match family
    case CFamily =>
      blocks, outcome := FindCBlocks(SheetOf(lines, modeLine));
    case Unknown =>
      blocks, outcome := [], UnknownLanguage;
    case _ =>
      blocks := FindRuns(PageOf(lines, family, modeLine));
      outcome := Finished;
  }
}
