/** The text form of instruction dependency traces: its printer, its parser, and how they fit together. */
module DepTrace {
  import opened Words
  import opened Options
  import opened Text

  datatype Kind = Invalid | Load | Store | Comp

  datatype Record = Record(seqNum: nat, pc: Option<nat>, weight: Option<nat>, kind: Kind,
                           pAddr: Option<nat>, size: Option<nat>, flags: Option<nat>, compDelay: nat,
                           robDep: seq<nat>, regDep: seq<nat>)

  predicate Below(o: Option<nat>, limit: nat) {
    o.Some? ==> o.value < limit
  }

  /** The field widths of the message definition. */
  predicate InRange(r: Record) {
    && r.seqNum < TWO64 && Below(r.pc, TWO64) && Below(r.weight, TWO32) && r.compDelay < TWO64
    && Below(r.pAddr, TWO64) && Below(r.size, TWO32) && Below(r.flags, TWO32)
    && (forall d :: d in r.robDep ==> d < TWO64) && forall d :: d in r.regDep ==> d < TWO64
  }

  predicate IsMem(k: Kind) {
    k == Load || k == Store
  }

  function KindName(k: Kind): string {
    match k
    case Invalid => "INVALID" case Load => "LOAD" case Store => "STORE" case Comp => "COMP"
  }

  function KindOf(s: string): Option<Kind> {
    if s == "INVALID" then Some(Invalid) else if s == "LOAD" then Some(Load)
    else if s == "STORE" then Some(Store) else if s == "COMP" then Some(Comp) else None
  }

  function OrElse(o: Option<nat>, default: nat): nat {
    if o.Some? then o.value else default
  }

  function Optional(o: Option<nat>): seq<string> {
    if o.Some? then [Decimal(o.value)] else []
  }

  /** The comma-separated fields behind the sequence number. */
  function InfoFields(r: Record): seq<string> {
    [Decimal(OrElse(r.pc, 0)), Decimal(OrElse(r.weight, 1)), KindName(r.kind)]
      + Optional(r.pAddr) + Optional(r.size) + Optional(r.flags) + [Decimal(r.compDelay)]
  }

  function Decimals(ds: seq<nat>): (s: seq<string>) {
    seq(|ds|, i requires 0 <= i < |ds| => Decimal(ds[i]))
  }

  function Body(r: Record): string {
    Decimal(r.seqNum) + Pieces(InfoFields(r), ',')
      + ":" + Pieces(Decimals(r.robDep), ',') + ":" + Pieces(Decimals(r.regDep), ',')
  }

  function LineOf(r: Record): string {
    Body(r) + "\n"
  }

  lemma {:induction false} PiecesAppend(parts: seq<string>, f: string, sep: char)
    ensures Pieces(parts + [f], sep) == Pieces(parts, sep) + ([sep] + f)
    decreases |parts|
  {
    if parts == [] {
      assert parts + [f] == [f] && [f][1..] == [];
      assert Pieces([f], sep) == [sep] + f + "";
    } else {
      assert (parts + [f])[1..] == parts[1..] + [f];
      PiecesAppend(parts[1..], f, sep);
    }
  }

  /** An optional field with its comma, and a list of dependencies each with its comma. */
  ghost function OptionalText(o: Option<nat>): string {
    if o.Some? then "," + Decimal(o.value) else ""
  }

  ghost function DepsText(ds: seq<nat>): string {
    if ds == [] then "" else DepsText(ds[..|ds| - 1]) + ("," + Decimal(ds[|ds| - 1]))
  }

  lemma FieldText(start: string, prior: seq<string>, f: string)
    ensures start + Pieces(prior + [f], ',') == start + Pieces(prior, ',') + ("," + f)
  {
    PiecesAppend(prior, f, ',');
  }

  lemma OptionText(start: string, prior: seq<string>, o: Option<nat>)
    ensures start + Pieces(prior + Optional(o), ',') == start + Pieces(prior, ',') + OptionalText(o)
  {
    if o.Some? {
      FieldText(start, prior, Decimal(o.value));
    } else {
      assert prior + [] == prior;
    }
  }

  lemma {:induction false} DepsAreText(ds: seq<nat>)
    ensures Pieces(Decimals(ds), ',') == DepsText(ds)
  {
    if ds != [] {
      var n := |ds| - 1;
      DepsAreText(ds[..n]);
      assert Decimals(ds) == Decimals(ds[..n]) + [Decimal(ds[n])];
      PiecesAppend(Decimals(ds[..n]), Decimal(ds[n]), ',');
    }
  }

  ghost function HeadText(r: Record): string {
    Decimal(r.seqNum) + ("," + Decimal(if r.pc.Some? then r.pc.value else 0))
      + ("," + Decimal(if r.weight.Some? then r.weight.value else 1))
  }

  ghost function TypeText(k: Kind): string {
    match k
    case Invalid => ",INVALID" case Load => ",LOAD" case Store => ",STORE" case Comp => ",COMP"
  }

  lemma HeadReads(r: Record, head: seq<string>)
    requires head == [Decimal(OrElse(r.pc, 0)), Decimal(OrElse(r.weight, 1)), KindName(r.kind)]
    ensures Decimal(r.seqNum) + Pieces(head, ',') == HeadText(r) + TypeText(r.kind)
  {
    var s, pc, weight := Decimal(r.seqNum), Decimal(OrElse(r.pc, 0)), Decimal(OrElse(r.weight, 1));
    assert s + Pieces([], ',') == s;
    FieldText(s, [], pc);
    FieldText(s, [pc], weight);
    FieldText(s, [pc, weight], KindName(r.kind));
    assert [] + [pc] == [pc] && [pc] + [weight] == [pc, weight] && [pc, weight] + [KindName(r.kind)] == head;
    assert "," + KindName(r.kind) == TypeText(r.kind);
  }

  lemma InfoReads(r: Record)
    ensures Decimal(r.seqNum) + Pieces(InfoFields(r), ',')
         == HeadText(r) + TypeText(r.kind) + OptionalText(r.pAddr) + OptionalText(r.size) + OptionalText(r.flags)
            + ("," + Decimal(r.compDelay))
  {
    var s := Decimal(r.seqNum);
    var head := [Decimal(OrElse(r.pc, 0)), Decimal(OrElse(r.weight, 1)), KindName(r.kind)];
    HeadReads(r, head);
    OptionText(s, head, r.pAddr);
    OptionText(s, head + Optional(r.pAddr), r.size);
    OptionText(s, head + Optional(r.pAddr) + Optional(r.size), r.flags);
    FieldText(s, head + Optional(r.pAddr) + Optional(r.size) + Optional(r.flags), Decimal(r.compDelay));
  }

  /**
    The format of a line: sequence number, program counter, weight, type, the optional address, size and flags, and the
    delay, all behind commas; a colon and the order dependencies; a colon and the register dependencies; a line end.
   */
  lemma LineReads(r: Record)
    ensures LineOf(r)
         == HeadText(r) + TypeText(r.kind) + OptionalText(r.pAddr) + OptionalText(r.size) + OptionalText(r.flags)
            + ("," + Decimal(r.compDelay)) + ":" + DepsText(r.robDep) + ":" + DepsText(r.regDep) + "\n"
  {
    InfoReads(r);
    DepsAreText(r.robDep);
    DepsAreText(r.regDep);
  }

  /** Writes one more field behind those already written after `start`. */
  method WriteField(out: string, ghost start: string, ghost prior: seq<string>, f: string) returns (out': string)
    requires out == start + Pieces(prior, ',')
    ensures out' == start + Pieces(prior + [f], ',')
  {
    PiecesAppend(prior, f, ',');
    out' := out + ("," + f);
  }

  method WriteOptional(out: string, ghost start: string, ghost prior: seq<string>, o: Option<nat>)
    returns (out': string)
    requires out == start + Pieces(prior, ',')
    ensures out' == start + Pieces(prior + Optional(o), ',')
  {
    assert prior + [] == prior;
    out' := out;
    if o.Some? {
      out' := WriteField(out, start, prior, Decimal(o.value));
    }
  }

  method WriteDeps(out: string, ds: seq<nat>) returns (out': string)
    ensures out' == out + Pieces(Decimals(ds), ',')
  {
    out' := out;
    ghost var parts := Decimals(ds);
    assert out + Pieces(parts[..0], ',') == out;
    for i := 0 to |ds|
      invariant out' == out + Pieces(parts[..i], ',')
    {
      out' := WriteField(out', out, parts[..i], Decimal(ds[i]));
      assert parts[..i + 1] == parts[..i] + [Decimal(ds[i])];
    }
    assert parts[..|ds|] == parts;
  }

  method WriteInfo(out: string, r: Record) returns (out': string)
    ensures out' == out + Pieces(InfoFields(r), ',')
  {
    assert out + Pieces([], ',') == out;
    ghost var a := [Decimal(OrElse(r.pc, 0))];
    out' := WriteField(out, out, [], Decimal(OrElse(r.pc, 0)));
    ghost var b := a + [Decimal(OrElse(r.weight, 1))];
    out' := WriteField(out', out, a, Decimal(OrElse(r.weight, 1)));
    ghost var c := b + [KindName(r.kind)];
    out' := WriteField(out', out, b, KindName(r.kind));
    out' := WriteOptional(out', out, c, r.pAddr);
    ghost var d := c + Optional(r.pAddr);
    out' := WriteOptional(out', out, d, r.size);
    ghost var e := d + Optional(r.size);
    out' := WriteOptional(out', out, e, r.flags);
    ghost var f := e + Optional(r.flags);
    out' := WriteField(out', out, f, Decimal(r.compDelay));
    assert f + [Decimal(r.compDelay)] == InfoFields(r);
  }

  /** The printer writes a record piece by piece. */
  method PrintRecord(out: string, r: Record) returns (out': string)
    ensures out' == out + LineOf(r)
  {
    var text := WriteInfo(Decimal(r.seqNum), r);
    text := WriteDeps(text + ":", r.robDep);
    text := WriteDeps(text + ":", r.regDep);
    out' := out + (text + "\n");
  }

  /** A number that fits the field it is assigned to. */
  function ParseBounded(s: string, limit: nat): Option<nat> {
    var n := ParseInt(s);
    if n.Some? && 0 <= n.value < limit then Some(n.value) else None
  }

  /** The dependencies named by the pieces of a list; empty pieces are skipped. */
  function DepsOf(items: seq<string>): Option<seq<nat>> {
    if items == [] then Some([])
    else
      var init := DepsOf(items[..|items| - 1]);
      var last := items[|items| - 1];
      if init.None? then None
      else if last == "" then init
      else
        var d := ParseBounded(last, TWO64);
        if d.None? then None else Some(init.value + [d.value])
  }

  method ParseDeps(items: seq<string>) returns (r: Option<seq<nat>>)
    ensures r == DepsOf(items)
  {
    var deps: seq<nat> := [];
    for i := 0 to |items|
      invariant DepsOf(items[..i]) == Some(deps)
    {
      assert items[..i + 1][..i] == items[..i];
      if items[i] != "" {
        var d := ParseBounded(items[i], TWO64);
        if d.None? {
          FailureSticks(items, i + 1);
          return None;
        }
        deps := deps + [d.value];
      }
    }
    assert items[..|items|] == items;
    r := Some(deps);
  }

  lemma {:induction false} FailureSticks(items: seq<string>, i: nat)
    requires i <= |items| && DepsOf(items[..i]).None?
    ensures DepsOf(items).None?
    decreases |items|
  {
    if i == |items| {
      assert items[..i] == items;
    } else {
      assert items[..|items| - 1][..i] == items[..i];
      FailureSticks(items[..|items| - 1], i);
    }
  }

  /** A record from the fields of the first part and the two dependency lists. */
  function FromFields(info: seq<string>, rob: Option<seq<nat>>, reg: Option<seq<nat>>): Option<Record> {
    if |info| < 5 then None
    else
      var seqNum, pc := ParseBounded(info[0], TWO64), ParseBounded(info[1], TWO64);
      var weight := ParseBounded(info[2], TWO32);
      var kind := KindOf(info[3]);
      if seqNum.None? || pc.None? || weight.None? || rob.None? || reg.None? then None
      else if kind.None? || kind.value == Invalid then None
      else if IsMem(kind.value) then
        if |info| < 8 then None
        else
          var pAddr, size := ParseBounded(info[4], TWO64), ParseBounded(info[5], TWO32);
          var flags := ParseBounded(info[6], TWO32);
          var delay := ParseBounded(info[7], TWO64);
          if pAddr.None? || size.None? || flags.None? || delay.None? then None
          else Some(Record(seqNum.value, pc, weight, kind.value, pAddr, size, flags, delay.value, rob.value, reg.value))
      else
        var delay := ParseBounded(info[4], TWO64);
        if delay.None? then None
        else Some(Record(seqNum.value, pc, weight, kind.value, None, None, None, delay.value, rob.value, reg.value))
  }

  /** The record a line spells, or nothing where the script gives up. */
  function Parsed(line: string): Option<Record> {
    var parts := Split(Strip(line), ':');
    if |parts| != 3 then None
    else FromFields(Split(parts[0], ','), DepsOf(Split(Strip(parts[1]), ',')), DepsOf(Split(parts[2], ',')))
  }

  /** The line parser of the encoding script. */
  method ParseLine(line: string) returns (r: Option<Record>)
    ensures r == Parsed(line)
  {
    var parts := Split(Strip(line), ':');
    if |parts| != 3 {
      return None;
    }
    var info := Split(parts[0], ',');
    var rob := ParseDeps(Split(Strip(parts[1]), ','));
    var reg := ParseDeps(Split(parts[2], ','));
    r := FromFields(info, rob, reg);
  }

  /** Digits, commas and the letters of the type names: no colons, spaces or line ends. */
  ghost predicate Clean(s: string) {
    forall c :: c in s ==> IsDigit(c) || c == ',' || 'A' <= c <= 'Z'
  }

  ghost predicate AllPlain(parts: seq<string>) {
    forall i :: 0 <= i < |parts| ==> parts[i] != "" && Clean(parts[i]) && ',' !in parts[i]
  }

  lemma {:induction false} PiecesClean(parts: seq<string>)
    requires AllPlain(parts)
    ensures Clean(Pieces(parts, ','))
    ensures parts != [] ==> Pieces(parts, ',') != "" && Pieces(parts, ',')[0] == ','
    ensures parts != [] ==> !IsSpace(Pieces(parts, ',')[|Pieces(parts, ',')| - 1])
    decreases |parts|
  {
    if parts != [] {
      PiecesClean(parts[1..]);
      var p := Pieces(parts, ',');
      assert p == "," + parts[0] + Pieces(parts[1..], ',');
      if |parts| == 1 {
        assert p[|p| - 1] == parts[0][|parts[0]| - 1] && parts[0][|parts[0]| - 1] in parts[0];
      } else {
        assert p[|p| - 1] == Pieces(parts[1..], ',')[|Pieces(parts[1..], ',')| - 1];
      }
    }
  }

  /** Stripping a clean text leaves it alone, and takes off a line end behind it. */
  lemma StripClean(s: string)
    requires s == "" || (!IsSpace(s[0]) && !IsSpace(s[|s| - 1]))
    ensures Strip(s) == s
    ensures s != "" ==> Strip(s + "\n") == s
  {
    assert (s + "\n")[..|s|] == s;
  }

  lemma {:induction false} DepsReadBack(ds: seq<nat>)
    requires forall d :: d in ds ==> d < TWO64
    ensures DepsOf([""] + Decimals(ds)) == Some(ds)
  {
    var items := [""] + Decimals(ds);
    if ds == [] {
      assert items == [""] && items[..0] == [];
    } else {
      var n := |ds| - 1;
      assert items[..|items| - 1] == [""] + Decimals(ds[..n]);
      assert ds[n] in ds && forall d :: d in ds[..n] ==> d in ds;
      DepsReadBack(ds[..n]);
      DecimalParses(ds[n]);
      assert items[|items| - 1] == Decimal(ds[n]) && ds == ds[..n] + [ds[n]];
    }
  }

  /** A printed dependency list reads back, stripped or not. */
  lemma DepsPart(ds: seq<nat>)
    requires forall d :: d in ds ==> d < TWO64
    ensures var text := Pieces(Decimals(ds), ',');
            Clean(text) && DepsOf(Split(text, ',')) == Some(ds) && DepsOf(Split(Strip(text), ',')) == Some(ds)
  {
    var text := Pieces(Decimals(ds), ',');
    PiecesClean(Decimals(ds));
    assert "" + text == text;
    SplitPieces("", Decimals(ds), ',');
    DepsReadBack(ds);
    StripClean(text);
  }

  /** Parsing a printed line sees exactly the printed fields. */
  lemma ParsedLineSeesFields(r: Record)
    requires InRange(r)
    ensures Parsed(LineOf(r)) == FromFields([Decimal(r.seqNum)] + InfoFields(r), Some(r.robDep), Some(r.regDep))
  {
    var info := Decimal(r.seqNum) + Pieces(InfoFields(r), ',');
    var rob, reg := Pieces(Decimals(r.robDep), ','), Pieces(Decimals(r.regDep), ',');
    InfoPart(r);
    DepsPart(r.robDep);
    DepsPart(r.regDep);
    PartsParse(info, rob, reg, Body(r));
  }

  lemma InfoPart(r: Record)
    ensures var info := Decimal(r.seqNum) + Pieces(InfoFields(r), ',');
            info != "" && Clean(info) && Split(info, ',') == [Decimal(r.seqNum)] + InfoFields(r)
  {
    InfoIsPlain(r);
    PiecesClean(InfoFields(r));
    SplitPieces(Decimal(r.seqNum), InfoFields(r), ',');
  }

  lemma PlainNumber(n: nat)
    ensures AllPlain([Decimal(n)])
  {
  }

  lemma PlainOptional(o: Option<nat>)
    ensures AllPlain(Optional(o))
  {
    if o.Some? {
      PlainNumber(o.value);
    }
  }

  lemma PlainKind(k: Kind)
    ensures AllPlain([KindName(k)])
  {
  }

  lemma PlainJoin(a: seq<string>, b: seq<string>)
    requires AllPlain(a) && AllPlain(b)
    ensures AllPlain(a + b)
  {
  }

  /** No field of a record holds a separator. */
  lemma InfoIsPlain(r: Record)
    ensures AllPlain(InfoFields(r))
  {
    var pc, weight, kind := [Decimal(OrElse(r.pc, 0))], [Decimal(OrElse(r.weight, 1))], [KindName(r.kind)];
    var pAddr, size, flags, delay := Optional(r.pAddr), Optional(r.size), Optional(r.flags), [Decimal(r.compDelay)];
    PlainNumber(OrElse(r.pc, 0));
    PlainNumber(OrElse(r.weight, 1));
    PlainKind(r.kind);
    PlainOptional(r.pAddr);
    PlainOptional(r.size);
    PlainOptional(r.flags);
    PlainNumber(r.compDelay);
    PlainJoin(pc, weight);
    PlainJoin(pc + weight, kind);
    PlainJoin(pc + weight + kind, pAddr);
    PlainJoin(pc + weight + kind + pAddr, size);
    PlainJoin(pc + weight + kind + pAddr + size, flags);
    PlainJoin(pc + weight + kind + pAddr + size + flags, delay);
    assert InfoFields(r) == pc + weight + kind + pAddr + size + flags + delay;
  }

  lemma PartsParse(info: string, rob: string, reg: string, body: string)
    requires Clean(info) && Clean(rob) && Clean(reg) && info != ""
    requires body == info + ":" + rob + ":" + reg
    ensures Parsed(body + "\n") == FromFields(Split(info, ','), DepsOf(Split(Strip(rob), ',')), DepsOf(Split(reg, ',')))
  {
    BodySplits(info, rob, reg, body);
  }

  lemma BodySplits(info: string, rob: string, reg: string, body: string)
    requires Clean(info) && Clean(rob) && Clean(reg) && info != ""
    requires body == info + ":" + rob + ":" + reg
    ensures Strip(body + "\n") == body && Split(body, ':') == [info, rob, reg]
  {
    assert body[0] == info[0] && info[0] in info;
    assert body[|body| - 1] == if reg == "" then ':' else reg[|reg| - 1];
    assert reg != "" ==> reg[|reg| - 1] in reg;
    StripClean(body);
    assert body == info + [':'] + (rob + [':'] + reg);
    SplitFirst(info, rob + [':'] + reg, ':');
    SplitFirst(rob, reg, ':');
    SplitPlain(reg, ':');
  }

  /** The record with the defaults filled in that the printer writes for absent fields. */
  function Canonical(r: Record): Record {
    r.(pc := Some(OrElse(r.pc, 0)), weight := Some(OrElse(r.weight, 1)))
  }

  /**
    Records that the printer and the parser agree on: valid, with the memory fields present exactly for loads and
    stores.
   */
  predicate Printable(r: Record) {
    && r.kind != Invalid && (r.pAddr.Some? <==> IsMem(r.kind))
    && (r.size.Some? <==> IsMem(r.kind)) && (r.flags.Some? <==> IsMem(r.kind))
  }

  lemma BoundedParses(n: nat, limit: nat)
    requires n < limit
    ensures ParseBounded(Decimal(n), limit) == Some(n)
  {
    DecimalParses(n);
  }

  /** Whatever the parser accepts is printable. */
  lemma ParsedIsPrintable(info: seq<string>, rob: Option<seq<nat>>, reg: Option<seq<nat>>)
    ensures FromFields(info, rob, reg).Some? ==> Printable(FromFields(info, rob, reg).value)
  {
  }

  ghost predicate IsNumber(s: string, limit: nat) {
    ParseInt(s).Some? && 0 <= ParseInt(s).value < limit
  }

  /**
    What the parser asks of a line's fields: numbers that fit, a valid type, and for a load or store eight fields, else
    five; it does not mind more.
   */
  lemma FieldsParseIff(info: seq<string>, rob: Option<seq<nat>>, reg: Option<seq<nat>>)
    ensures FromFields(info, rob, reg).Some?
       <==> && |info| >= 5 && IsNumber(info[0], TWO64) && IsNumber(info[1], TWO64) && IsNumber(info[2], TWO32)
            && rob.Some? && reg.Some? && info[3] in ["LOAD", "STORE", "COMP"]
            && if info[3] == "COMP" then IsNumber(info[4], TWO64)
               else |info| >= 8 && IsNumber(info[4], TWO64) && IsNumber(info[5], TWO32) && IsNumber(info[6], TWO32)
                    && IsNumber(info[7], TWO64)
  {
  }

  /** A line must have exactly three parts between colons. */
  lemma LineParsesIff(line: string)
    ensures var parts := Split(Strip(line), ':');
            Parsed(line).Some? <==>
              && |parts| == 3
              && FromFields(Split(parts[0], ','), DepsOf(Split(Strip(parts[1]), ',')),
                            DepsOf(Split(parts[2], ','))).Some?
  {
  }

  /** The fields in front of the memory fields. */
  ghost predicate IsHead(r: Record, info: seq<string>) {
    && |info| >= 5 && info[0] == Decimal(r.seqNum) && info[1] == Decimal(OrElse(r.pc, 0))
    && info[2] == Decimal(OrElse(r.weight, 1)) && info[3] == KindName(r.kind)
  }

  lemma HeadReadsBack(r: Record, info: seq<string>)
    requires InRange(r) && IsHead(r, info)
    ensures ParseBounded(info[0], TWO64) == Some(r.seqNum) && ParseBounded(info[1], TWO64) == Some(OrElse(r.pc, 0))
    ensures ParseBounded(info[2], TWO32) == Some(OrElse(r.weight, 1)) && KindOf(info[3]) == Some(r.kind)
  {
    BoundedParses(r.seqNum, TWO64);
    BoundedParses(OrElse(r.pc, 0), TWO64);
    BoundedParses(OrElse(r.weight, 1), TWO32);
  }

  ghost predicate IsMemTail(r: Record, info: seq<string>) {
    && |info| == 8 && r.pAddr.Some? && r.size.Some? && r.flags.Some?
    && info[4] == Decimal(r.pAddr.value) && info[5] == Decimal(r.size.value)
    && info[6] == Decimal(r.flags.value) && info[7] == Decimal(r.compDelay)
  }

  lemma MemTailReadsBack(r: Record, info: seq<string>)
    requires InRange(r) && IsMemTail(r, info)
    ensures ParseBounded(info[4], TWO64) == r.pAddr && ParseBounded(info[5], TWO32) == r.size
    ensures ParseBounded(info[6], TWO32) == r.flags && ParseBounded(info[7], TWO64) == Some(r.compDelay)
  {
    BoundedParses(r.pAddr.value, TWO64);
    BoundedParses(r.size.value, TWO32);
    BoundedParses(r.flags.value, TWO32);
    BoundedParses(r.compDelay, TWO64);
  }

  lemma FieldsStand(r: Record, info: seq<string>)
    requires Printable(r) && info == [Decimal(r.seqNum)] + InfoFields(r)
    ensures IsHead(r, info)
    ensures if IsMem(r.kind) then IsMemTail(r, info) else |info| == 5 && info[4] == Decimal(r.compDelay)
  {
  }

  lemma FieldsReadBack(r: Record, info: seq<string>)
    requires InRange(r) && Printable(r) && info == [Decimal(r.seqNum)] + InfoFields(r)
    ensures FromFields(info, Some(r.robDep), Some(r.regDep)) == Some(Canonical(r))
  {
    FieldsStand(r, info);
    HeadReadsBack(r, info);
    if IsMem(r.kind) {
      MemTailReadsBack(r, info);
    } else {
      BoundedParses(r.compDelay, TWO64);
    }
  }

  /** The text round trip gives a record back, with its defaults filled in, exactly when the record is printable. */
  lemma TextRoundTripIff(r: Record)
    requires InRange(r)
    ensures Parsed(LineOf(r)) == Some(Canonical(r)) <==> Printable(r)
  {
    var info := [Decimal(r.seqNum)] + InfoFields(r);
    ParsedLineSeesFields(r);
    ParsedIsPrintable(info, Some(r.robDep), Some(r.regDep));
    if Printable(r) {
      FieldsReadBack(r, info);
    }
  }
}
