/** The two conversion scripts end to end: text lines, records, and framed messages. */
module TraceFiles {
  import opened Words
  import opened Options
  import opened Framing
  import opened Text
  import opened DepTrace

  function TextOf(rs: seq<Record>): string {
    if rs == [] then "" else TextOf(rs[..|rs| - 1]) + LineOf(rs[|rs| - 1])
  }

  /** The records spelled by the lines of a text, unless some line does not parse. */
  function RecordsOf(lines: seq<string>): Option<seq<Record>> {
    if lines == [] then Some([])
    else
      var init := RecordsOf(lines[..|lines| - 1]);
      var last := Parsed(lines[|lines| - 1]);
      if init.None? || last.None? then None else Some(init.value + [last.value])
  }

  /**
    The decoding script: prints every message of a stream, up to one that does not parse, and counts those with
    dependencies.
   */
  method DecodeTrace(c: Codec<Record>, b: seq<Byte>)
    returns (text: string, failed: bool, packets: nat, withRob: nat, withReg: nat)
    ensures failed <==> DecodedAll(c, b).ParseFailure?
    ensures text == TextOf(DecodedAll(c, b).ms) && packets == |DecodedAll(c, b).ms|
    ensures withRob == |WithRob(DecodedAll(c, b).ms)| && withReg == |WithReg(DecodedAll(c, b).ms)|
  {
    text, packets, withRob, withReg := "", 0, 0, 0;
    var decoded := DecodeAll(c, b);
    failed := decoded.ParseFailure?;
    var ms := decoded.ms;
    for i := 0 to |ms|
      invariant text == TextOf(ms[..i]) && packets == i
      invariant withRob == |WithRob(ms[..i])| && withReg == |WithReg(ms[..i])|
    {
      OneMoreMessage(ms, i);
      packets := packets + 1;
      text := PrintRecord(text, ms[i]);
      if ms[i].robDep != [] {
        withRob := withRob + 1;
      }
      if ms[i].regDep != [] {
        withReg := withReg + 1;
      }
    }
    assert ms[..|ms|] == ms;
  }

  lemma OneMoreMessage(ms: seq<Record>, i: nat)
    requires i < |ms|
    ensures TextOf(ms[..i + 1]) == TextOf(ms[..i]) + LineOf(ms[i])
    ensures |WithRob(ms[..i + 1])| == |WithRob(ms[..i])| + if ms[i].robDep != [] then 1 else 0
    ensures |WithReg(ms[..i + 1])| == |WithReg(ms[..i])| + if ms[i].regDep != [] then 1 else 0
  {
    assert ms[..i + 1][..i] == ms[..i];
    OneMoreRob(ms, i);
    OneMoreReg(ms, i);
  }

  /** Which messages have order dependencies, and which have register dependencies. */
  ghost function WithRob(ms: seq<Record>): set<nat> {
    set i | 0 <= i < |ms| && ms[i].robDep != []
  }

  ghost function WithReg(ms: seq<Record>): set<nat> {
    set i | 0 <= i < |ms| && ms[i].regDep != []
  }

  lemma OneMoreRob(ms: seq<Record>, i: nat)
    requires i < |ms|
    ensures |WithRob(ms[..i + 1])| == |WithRob(ms[..i])| + if ms[i].robDep != [] then 1 else 0
  {
    assert WithRob(ms[..i + 1]) == WithRob(ms[..i]) + if ms[i].robDep != [] then {i} else {};
  }

  lemma OneMoreReg(ms: seq<Record>, i: nat)
    requires i < |ms|
    ensures |WithReg(ms[..i + 1])| == |WithReg(ms[..i])| + if ms[i].regDep != [] then 1 else 0
  {
    assert WithReg(ms[..i + 1]) == WithReg(ms[..i]) + if ms[i].regDep != [] then {i} else {};
  }

  lemma {:induction false} FramesAppend(c: Codec<Record>, rs: seq<Record>, r: Record)
    ensures Frames(c, rs + [r]) == Frames(c, rs) + Frame(c.write(r))
    decreases |rs|
  {
    if rs == [] {
      assert rs + [r] == [r] && [r][1..] == [];
      assert Frames(c, [r]) == Frame(c.write(r)) + [];
    } else {
      assert (rs + [r])[1..] == rs[1..] + [r];
      FramesAppend(c, rs[1..], r);
    }
  }

  /** The encoding script: parses every line and writes it as a framed message, giving up at the first bad line. */
  method EncodeTrace(c: Codec<Record>, text: string) returns (b: Option<seq<Byte>>)
    ensures var rs := RecordsOf(Lines(text));
            b == if rs.None? then None else Some(Frames(c, rs.value))
  {
    var lines := Lines(text);
    var out: seq<Byte> := [];
    ghost var rs: seq<Record> := [];
    for i := 0 to |lines|
      invariant RecordsOf(lines[..i]) == Some(rs) && out == Frames(c, rs)
    {
      var r := ParseLine(lines[i]);
      RecordsStep(lines, i, rs, r);
      if r.None? {
        BadLineSticks(lines, i + 1);
        return None;
      }
      FramesAppend(c, rs, r.value);
      out := EncodeMessage(c, out, r.value);
      rs := rs + [r.value];
    }
    assert lines[..|lines|] == lines;
    b := Some(out);
  }

  lemma RecordsStep(lines: seq<string>, i: nat, rs: seq<Record>, r: Option<Record>)
    requires i < |lines| && RecordsOf(lines[..i]) == Some(rs) && r == Parsed(lines[i])
    ensures RecordsOf(lines[..i + 1]) == if r.None? then None else Some(rs + [r.value])
  {
    assert lines[..i + 1][..i] == lines[..i];
  }

  lemma {:induction false} BadLineSticks(lines: seq<string>, i: nat)
    requires i <= |lines| && RecordsOf(lines[..i]).None?
    ensures RecordsOf(lines).None?
    decreases |lines|
  {
    if i == |lines| {
      assert lines[..i] == lines;
    } else {
      assert lines[..|lines| - 1][..i] == lines[..i];
      BadLineSticks(lines[..|lines| - 1], i);
    }
  }

  function Canonicals(rs: seq<Record>): (cs: seq<Record>)
    ensures |cs| == |rs|
  {
    seq(|rs|, i requires 0 <= i < |rs| => Canonical(rs[i]))
  }

  ghost predicate AllPrintable(rs: seq<Record>) {
    forall i :: 0 <= i < |rs| ==> InRange(rs[i]) && Printable(rs[i])
  }

  lemma {:induction false} LinesAppend(a: string, line: string)
    requires a == "" || a[|a| - 1] == '\n'
    requires line != "" && line[|line| - 1] == '\n' && '\n' !in line[..|line| - 1]
    ensures Lines(a + line) == Lines(a) + [line]
    decreases |a|
  {
    if a == "" {
      assert a + line == line[..|line| - 1] + "\n" + "";
      FirstLine(line[..|line| - 1], "");
      assert line[..|line| - 1] + "\n" == line;
    } else {
      assert (a + line)[1..] == a[1..] + line;
      LinesAppend(a[1..], line);
      if a[0] != '\n' {
        LinesNonempty(a[1..]);
        assert (Lines(a[1..]) + [line])[1..] == Lines(a[1..])[1..] + [line];
      }
    }
  }

  lemma LinesNonempty(s: string)
    requires s != ""
    ensures Lines(s) != []
  {
  }

  lemma LineShape(r: Record)
    ensures LineOf(r) == Body(r) + "\n" && '\n' !in Body(r)
  {
    var info := Decimal(r.seqNum) + Pieces(InfoFields(r), ',');
    InfoPart(r);
    PiecesClean(Decimals(r.robDep));
    PiecesClean(Decimals(r.regDep));
    NoNewline(info, Pieces(Decimals(r.robDep), ','), Pieces(Decimals(r.regDep), ','));
  }

  lemma NoNewline(info: string, rob: string, reg: string)
    requires Clean(info) && Clean(rob) && Clean(reg)
    ensures '\n' !in info + ":" + rob + ":" + reg
  {
  }

  function PrintedLines(rs: seq<Record>): seq<string> {
    if rs == [] then [] else PrintedLines(rs[..|rs| - 1]) + [LineOf(rs[|rs| - 1])]
  }

  /** A text made of printed records has one line per record. */
  lemma {:induction false} TextLines(rs: seq<Record>)
    ensures TextOf(rs) == "" || TextOf(rs)[|TextOf(rs)| - 1] == '\n'
    ensures Lines(TextOf(rs)) == PrintedLines(rs)
  {
    if rs != [] {
      var r := rs[|rs| - 1];
      TextLines(rs[..|rs| - 1]);
      LineShape(r);
      OneMoreLine(TextOf(rs[..|rs| - 1]), Body(r), LineOf(r));
    }
  }

  lemma OneMoreLine(a: string, body: string, line: string)
    requires a == "" || a[|a| - 1] == '\n'
    requires line == body + "\n" && '\n' !in body
    ensures (a + line)[|a + line| - 1] == '\n' && Lines(a + line) == Lines(a) + [line]
  {
    assert line[..|line| - 1] == body;
    LinesAppend(a, line);
  }

  lemma CanonicalsSplit(rs: seq<Record>, n: nat)
    requires |rs| == n + 1
    ensures Canonicals(rs) == Canonicals(rs[..n]) + [Canonical(rs[n])]
  {
  }

  lemma RecordsAppend(lines: seq<string>, line: string, rs: seq<Record>, r: Record)
    requires RecordsOf(lines) == Some(rs) && Parsed(line) == Some(r)
    ensures RecordsOf(lines + [line]) == Some(rs + [r])
  {
    assert (lines + [line])[..|lines|] == lines;
  }

  lemma {:induction false} PrintedRecordsParse(rs: seq<Record>)
    requires AllPrintable(rs)
    ensures RecordsOf(PrintedLines(rs)) == Some(Canonicals(rs))
  {
    if rs != [] {
      var init, r := rs[..|rs| - 1], rs[|rs| - 1];
      PrintedRecordsParse(init);
      TextRoundTripIff(r);
      RecordsAppend(PrintedLines(init), LineOf(r), Canonicals(init), Canonical(r));
      CanonicalsSplit(rs, |rs| - 1);
    }
  }

  lemma {:induction false} CanonicalTextIsSame(rs: seq<Record>)
    ensures TextOf(Canonicals(rs)) == TextOf(rs)
  {
    if rs != [] {
      var n := |rs| - 1;
      CanonicalTextIsSame(rs[..n]);
      CanonicalsSplit(rs, n);
      assert InfoFields(Canonical(rs[n])) == InfoFields(rs[n]);
    }
  }

  /**
    Both scripts in sequence: printing a trace and encoding the text gives the trace back with its defaults
    filled in, and printing that gives the same text again.
   */
  lemma ConversionsRoundTrip(c: Codec<Record>, rs: seq<Record>)
    requires AllPrintable(rs) && Faithful(c, Canonicals(rs)) && Framable(c, Canonicals(rs))
    ensures RecordsOf(Lines(TextOf(rs))) == Some(Canonicals(rs))
    ensures DecodedAll(c, Frames(c, Canonicals(rs))) == Messages(Canonicals(rs), [])
    ensures TextOf(Canonicals(rs)) == TextOf(rs)
  {
    TextLines(rs);
    PrintedRecordsParse(rs);
    StreamRoundTrip(c, Canonicals(rs));
    CanonicalTextIsSame(rs);
  }
}
