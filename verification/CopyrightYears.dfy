/** Copyright years as text: a set of years printed as maximal runs, and the parser that reads such a list back. */
module CopyrightYears {
  import opened Orders
  import opened Sequences
  import opened Options
  import opened Text

  datatype Run = Run(first: int, last: int)

  predicate Between(first: int, y: int, last: int) {
    first <= y <= last
  }

  function Range(first: int, last: int): set<int> {
    set y | first <= y <= last && Between(first, y, last)
  }

  function Years(runs: seq<Run>): set<int> {
    if runs == [] then {}
    else
      var n := |runs| - 1;
      Years(runs[..n]) + Range(runs[n].first, runs[n].last)
  }

  /** Ascending nonempty runs with a gap of at least one year between neighbours. */
  ghost predicate Separated(runs: seq<Run>) {
    && (forall i :: 0 <= i < |runs| ==> runs[i].first <= runs[i].last)
    && (forall i, j :: 0 <= i < j < |runs| ==> runs[i].last + 1 < runs[j].first)
  }

  /** The runs of a set: they hold exactly its years, and no run can be extended or joined with another. */
  ghost predicate RunsOf(runs: seq<Run>, dates: set<int>) {
    Separated(runs) && Years(runs) == dates
  }

  lemma {:induction false} YearIsInARun(runs: seq<Run>, y: int) returns (i: nat)
    requires y in Years(runs)
    ensures i < |runs| && runs[i].first <= y <= runs[i].last
  {
    var n := |runs| - 1;
    if y in Range(runs[n].first, runs[n].last) {
      i := n;
    } else {
      i := YearIsInARun(runs[..n], y);
    }
  }

  lemma {:induction false} RunIsInYears(runs: seq<Run>, i: nat, y: int)
    requires i < |runs| && runs[i].first <= y <= runs[i].last
    ensures y in Years(runs)
  {
    var n := |runs| - 1;
    if i < n {
      RunIsInYears(runs[..n], i, y);
    }
  }

  /** Every run is maximal: the year before it and the year after it are not in the set. */
  lemma RunIsMaximal(runs: seq<Run>, dates: set<int>, i: nat)
    requires RunsOf(runs, dates) && i < |runs|
    ensures Range(runs[i].first, runs[i].last) <= dates
    ensures runs[i].first - 1 !in dates && runs[i].last + 1 !in dates
  {
    forall y | y in Range(runs[i].first, runs[i].last) ensures y in dates {
      RunIsInYears(runs, i, y);
    }
    if runs[i].first - 1 in dates {
      var j := YearIsInARun(runs, runs[i].first - 1);
    }
    if runs[i].last + 1 in dates {
      var j := YearIsInARun(runs, runs[i].last + 1);
    }
  }

  // ---------------------------------------------------------------- printing

  function IntText(n: int): string {
    if n < 0 then "-" + Decimal(-n) else Decimal(n)
  }

  function RunText(r: Run): string {
    if r.first == r.last then IntText(r.first) else IntText(r.first) + "-" + IntText(r.last)
  }

  function RunTexts(runs: seq<Run>): seq<string> {
    seq(|runs|, i requires 0 <= i < |runs| => RunText(runs[i]))
  }

  /** The printed runs joined with commas. */
  function Joined(texts: seq<string>): string
    requires texts != []
  {
    texts[0] + Pieces(texts[1..], ',')
  }

  predicate Ascending(s: seq<int>) {
    forall i, j :: 0 <= i < j < |s| ==> s[i] < s[j]
  }

  method Sort(dates: set<int>) returns (s: seq<int>)
    ensures Ascending(s) && Elems(s) == dates
  {
    s := [];
    var rest := dates;
    while rest != {}
      invariant Sorting(s, dates, rest)
      decreases |rest|
    {
      ghost var least := MinimumExists(rest, (a: int, b: int) => a <= b);
      assert forall y :: y in rest ==> least <= y;
      var m :| m in rest && forall y :: y in rest ==> m <= y;
      SortStep(s, m, dates, rest);
      s := s + [m];
      rest := rest - {m};
    }
  }

  /** The list so far holds what was taken, ascending, and all that is left comes later. */
  ghost predicate Sorting(s: seq<int>, dates: set<int>, rest: set<int>) {
    && rest <= dates && Elems(s) == dates - rest && Ascending(s)
    && forall i, y :: 0 <= i < |s| && y in rest ==> s[i] < y
  }

  lemma SortStep(s: seq<int>, m: int, dates: set<int>, rest: set<int>)
    requires Sorting(s, dates, rest) && m in rest && forall y :: y in rest ==> m <= y
    ensures Sorting(s + [m], dates, rest - {m})
  {
    assert Elems(s + [m]) == Elems(s) + {m};
  }

  /** The loop state of the printer after `i` sorted years: the finished runs, then the open one. */
  ghost predicate Grouped(runs: seq<Run>, first: int, second: int, sorted: seq<int>, i: nat) {
    && 0 < i <= |sorted| && second == sorted[i - 1]
    && RunsOf(runs + [Run(first, second)], Elems(sorted[..i]))
  }

  lemma GrowOpenRun(runs: seq<Run>, first: int, second: int, sorted: seq<int>, i: nat)
    requires Grouped(runs, first, second, sorted, i) && i < |sorted| && sorted[i] == second + 1
    ensures Grouped(runs, first, second + 1, sorted, i + 1)
  {
    var was, now := runs + [Run(first, second)], runs + [Run(first, second + 1)];
    assert was[..|runs|] == runs == now[..|runs|];
    assert was[|runs|] == Run(first, second);
    assert Range(first, second + 1) == Range(first, second) + {second + 1};
    assert Elems(sorted[..i + 1]) == Elems(sorted[..i]) + {sorted[i]};
    assert forall j :: 0 <= j < |runs| ==> was[j] == runs[j] == now[j];
  }

  lemma CloseOpenRun(runs: seq<Run>, first: int, second: int, sorted: seq<int>, i: nat)
    requires Grouped(runs, first, second, sorted, i) && Ascending(sorted)
    requires i < |sorted| && sorted[i] != second + 1
    ensures Grouped(runs + [Run(first, second)], sorted[i], sorted[i], sorted, i + 1)
  {
    var was, y := runs + [Run(first, second)], sorted[i];
    var now := was + [Run(y, y)];
    assert now[..|was|] == was;
    assert Range(y, y) == {y};
    assert Elems(sorted[..i + 1]) == Elems(sorted[..i]) + {y};
    assert was[|runs|] == Run(first, second);
    assert forall j :: 0 <= j < |was| ==> was[j] == now[j];
  }

  lemma FirstRun(sorted: seq<int>)
    requires sorted != []
    ensures Grouped([], sorted[0], sorted[0], sorted, 1)
  {
    var y := sorted[0];
    var one := [Run(y, y)];
    assert [] + one == one && one[..0] == [];
    assert Years(one) == Range(y, y) == {y};
    assert sorted[..1] == [y] && Elems([y]) == {y};
  }

  ghost predicate Prints(runs: seq<Run>, dates: set<int>, text: string) {
    runs != [] && RunsOf(runs, dates) && text == Joined(RunTexts(runs))
  }

  /** How a printed set looks: single years and ranges, separated by commas. */
  lemma PrintedLooksLike(a: int, b: int, c: int)
    requires b < c
    ensures Joined(RunTexts([Run(a, a), Run(b, c)])) == IntText(a) + "," + (IntText(b) + "-" + IntText(c))
  {
    var runs := [Run(a, a), Run(b, c)];
    JoinedTwo(RunTexts(runs), RunText(runs[0]), RunText(runs[1]));
  }

  lemma JoinedTwo(texts: seq<string>, a: string, b: string)
    requires texts == [a, b]
    ensures Joined(texts) == a + "," + b
  {
    assert texts[1..] == [b] && [b][1..] == [];
    assert Pieces([b], ',') == "," + b + "";
  }

  lemma LastRun(runs: seq<Run>, first: int, second: int, sorted: seq<int>)
    requires Grouped(runs, first, second, sorted, |sorted|)
    ensures RunsOf(runs + [Run(first, second)], Elems(sorted))
  {
    assert sorted[..|sorted|] == sorted;
  }

  /** Printing a set of years. The empty set has no first year and the source fails on it. */
  method DateStr(dates: set<int>) returns (r: Option<string>)
    ensures dates == {} <==> r.None?
    ensures r.Some? ==> exists runs :: Prints(runs, dates, r.value)
  {
    var sorted := Sort(dates);
    if sorted == [] {
      return None;
    }
    var runs, first, second, i := [], sorted[0], sorted[0], 1;
    FirstRun(sorted);
    assert sorted[0] in Elems(sorted);
    while i < |sorted|
      invariant Grouped(runs, first, second, sorted, i)
    {
      var next := sorted[i];
      if next == second + 1 {
        GrowOpenRun(runs, first, second, sorted, i);
        second := next;
      } else {
        CloseOpenRun(runs, first, second, sorted, i);
        runs := runs + [Run(first, second)];
        first, second := next, next;
      }
      i := i + 1;
    }
    LastRun(runs, first, second, sorted);
    runs := runs + [Run(first, second)];
    r := Some(Joined(RunTexts(runs)));
    assert Prints(runs, dates, r.value);
  }

  // ---------------------------------------------------------------- parsing

  predicate AllDigits(s: string) {
    forall c :: c in s ==> IsDigit(c)
  }

  /** A text that starts with four digits, a dash and four digits, with blanks allowed around the dash. */
  function MatchRange(s: string): Option<Run> {
    if |s| < 4 || !AllDigits(s[..4]) then None
    else
      var rest := StripLeft(s[4..]);
      if rest == "" || rest[0] != '-' then None
      else
        var tail := StripLeft(rest[1..]);
        if |tail| < 4 || !AllDigits(tail[..4]) then None
        else Some(Run(DigitsValue(s[..4]), DigitsValue(tail[..4])))
  }

  /** The years one comma-separated item stands for. */
  function ItemYears(item: string): set<int> {
    var m := MatchRange(item);
    if m.Some? then Range(m.value.first, m.value.last)
    else
      var n := ParseInt(item);
      if n.Some? then {n.value} else {}
  }

  ghost predicate AllSpace(s: string) {
    forall i :: 0 <= i < |s| ==> IsSpace(s[i])
  }

  lemma StripsTo(w: string, rest: string)
    requires AllSpace(w) && rest != "" && !IsSpace(rest[0])
    ensures StripLeft(w + rest) == rest
  {
    StripLeftMeans(w + rest, |w|);
    assert (w + rest)[|w|..] == rest;
  }

  /** A range: four digits, a dash and four digits, with blanks around the dash, and anything behind. */
  lemma RangeMeans(a: string, w: string, w': string, b: string, tail: string)
    requires |a| == |b| == 4 && AllDigits(a) && AllDigits(b) && AllSpace(w) && AllSpace(w')
    ensures ItemYears(a + (w + ("-" + (w' + (b + tail))))) == Range(DigitsValue(a), DigitsValue(b))
  {
    var end, dash := b + tail, "-" + (w' + (b + tail));
    var s := a + (w + dash);
    assert s[..4] == a && s[4..] == w + dash;
    StripsTo(w, dash);
    assert dash[1..] == w' + end && end[..4] == b;
    assert b[0] in b && !IsSpace(b[0]);
    StripsTo(w', end);
  }

  /** A single year: a number that is no such range. */
  lemma YearMeans(item: string)
    requires !exists k :: 0 <= k < |item| && item[k] == '-'
    ensures ItemYears(item) == if ParseInt(item).Some? then {ParseInt(item).value} else {}
  {
    NoDashNoRange(item);
  }

  lemma {:induction false} StripLeftIsEnd(s: string)
    ensures |StripLeft(s)| <= |s| && StripLeft(s) == s[|s| - |StripLeft(s)|..]
    decreases |s|
  {
    if s != "" && IsSpace(s[0]) {
      StripLeftIsEnd(s[1..]);
    }
  }

  lemma NoDashNoRange(item: string)
    requires forall k :: 0 <= k < |item| ==> item[k] != '-'
    ensures MatchRange(item).None?
  {
    if |item| >= 4 {
      StripLeftIsEnd(item[4..]);
      var rest := StripLeft(item[4..]);
      if rest != "" {
        assert rest[0] == item[|item| - |rest|];
      }
    }
  }

  function AllYears(items: seq<string>): set<int> {
    if items == [] then {} else AllYears(items[..|items| - 1]) + ItemYears(Strip(items[|items| - 1]))
  }

  lemma {:induction false} AllYearsAre(items: seq<string>, y: int)
    ensures y in AllYears(items) <==> exists k :: 0 <= k < |items| && y in ItemYears(Strip(items[k]))
  {
    if items != [] {
      var n := |items| - 1;
      AllYearsAre(items[..n], y);
      assert forall k :: 0 <= k < n ==> items[..n][k] == items[k];
    }
  }

  method ProcessDates(text: string) returns (years: set<int>)
    ensures years == AllYears(Split(text, ','))
  {
    var items := Split(text, ',');
    years := {};
    var k := 0;
    while k < |items|
      invariant 0 <= k <= |items| && years == AllYears(items[..k])
    {
      assert items[..k + 1][..k] == items[..k];
      var item := Strip(items[k]);
      var m := MatchRange(item);
      if m.Some? {
        var y := m.value.first;
        ghost var before := years;
        while y <= m.value.last
          invariant m.value.first <= y && years == before + Range(m.value.first, y - 1)
          invariant y <= m.value.last || Range(m.value.first, y - 1) == Range(m.value.first, m.value.last)
        {
          assert Range(m.value.first, y) == Range(m.value.first, y - 1) + {y};
          years := years + {y};
          y := y + 1;
        }
      } else {
        var n := ParseInt(item);
        if n.Some? {
          years := years + {n.value};
        }
      }
      k := k + 1;
    }
    assert items[..k] == items;
  }

  // ---------------------------------------------------------------- one printed run read back

  predicate Four(n: int) {
    1000 <= n <= 9999
  }

  lemma DecimalOfFour(n: nat)
    ensures |Decimal(n)| == 4 <==> Four(n)
    ensures |Decimal(n)| > 4 <==> n > 9999
  {
    var a: nat := n / 10;
    var b: nat := a / 10;
    var c: nat := b / 10;
    assert n >= 10 ==> |Decimal(n)| == 1 + |Decimal(a)|;
    assert a >= 10 ==> |Decimal(a)| == 1 + |Decimal(b)|;
    assert b >= 10 ==> |Decimal(b)| == 1 + |Decimal(c)|;
    assert c >= 10 ==> |Decimal(c)| > 1;
  }

  lemma FourDigitsBound(s: string)
    requires |s| == 4 && AllDigits(s)
    ensures DigitsValue(s) <= 9999
  {
    assert s[..3][..2] == s[..2] && s[..2][..1] == s[..1] && s[..1][..0] == "";
    assert IsDigit(s[3]) && IsDigit(s[2]) && IsDigit(s[1]) && IsDigit(s[0]);
    assert DigitsValue(s[..1]) <= 9;
    assert DigitsValue(s[..2]) <= 99;
    assert DigitsValue(s[..3]) <= 999;
  }

  /** Printed items hold only digits and dashes, so splitting and stripping leave them whole. */
  lemma RunTextIsPlain(r: Run)
    ensures RunText(r) != "" && forall c :: c in RunText(r) ==> IsDigit(c) || c == '-'
    ensures Strip(RunText(r)) == RunText(r) && ',' !in RunText(r)
  {
    var s := RunText(r);
    assert s[0] in s && s[|s| - 1] in s;
  }

  lemma IntTextParses(n: int)
    ensures ParseInt(IntText(n)) == Some(n)
  {
    if n < 0 {
      DecimalParses(-n);
      MinusParses(Decimal(-n), -n);
    } else {
      DecimalParses(n);
    }
  }

  lemma IntTextIsNoRange(n: int)
    ensures MatchRange(IntText(n)).None?
  {
    var s := IntText(n);
    if n < 0 {
      assert |s| >= 4 ==> s[..4][0] == '-' && '-' in s[..4];
    } else if |s| > 4 {
      assert IsDigit(s[4]) && s[4..][0] == s[4];
      assert StripLeft(s[4..]) == s[4..];
    }
  }

  lemma SingleYearReadsBack(n: int)
    ensures ItemYears(IntText(n)) == {n}
  {
    IntTextParses(n);
    IntTextIsNoRange(n);
  }

  /** A range whose first year does not have four digits is no number either, so it is dropped. */
  lemma OddRangeIsDropped(r: Run)
    requires r.first < r.last && !Four(r.first)
    ensures ItemYears(RunText(r)) == {}
  {
    var f, s := IntText(r.first), RunText(r);
    assert s[|f|] == '-' && s[..|f|] == f;
    RunTextIsPlain(r);
    if r.first < 0 {
      assert s[0] == '-';
      assert |s| >= 4 ==> s[..4][0] == '-' && '-' in s[..4];
      assert s[1..][|f| - 1] == '-';
      NotANumeral(s[1..], |f| - 1);
    } else {
      DecimalOfFour(r.first);
      assert s[0] == f[0] && IsDigit(f[0]);
      NotANumeral(s, |f|);
      if |f| < 4 {
        assert |s| >= 4 ==> s[..4][|f|] == '-' && '-' in s[..4];
      } else {
        assert s[4] == f[4] && IsDigit(f[4]) && s[4..][0] == s[4];
        assert StripLeft(s[4..]) == s[4..];
      }
    }
  }

  lemma FourDigitRangeIsRead(r: Run)
    requires r.first < r.last && Four(r.first)
    ensures |Decimal(r.last)| >= 4
    ensures MatchRange(RunText(r)) == Some(Run(r.first, DigitsValue(Decimal(r.last)[..4])))
  {
    DecimalOfFour(r.first);
    DecimalOfFour(r.last);
    DecimalValue(r.first);
    var f, l, s := Decimal(r.first), Decimal(r.last), RunText(r);
    assert s[..4] == f;
    assert s[4..] == "-" + l;
    assert StripLeft(s[4..]) == s[4..];
    assert s[4..][1..] == l && IsDigit(l[0]);
    assert StripLeft(l) == l;
  }

  /** One item read back gives years of its run only, and all of them exactly when a range has four-digit ends. */
  lemma ItemReadsBackIff(r: Run)
    requires r.first <= r.last
    ensures ItemYears(RunText(r)) <= Range(r.first, r.last)
    ensures ItemYears(RunText(r)) == Range(r.first, r.last) <==> r.first == r.last || (Four(r.first) && Four(r.last))
  {
    assert r.first in Range(r.first, r.last) && r.last in Range(r.first, r.last);
    if r.first == r.last {
      SingleYearReadsBack(r.first);
      assert Range(r.first, r.last) == {r.first};
    } else if !Four(r.first) {
      OddRangeIsDropped(r);
    } else {
      FourDigitRangeIsRead(r);
      var l := Decimal(r.last);
      FourDigitsBound(l[..4]);
      DecimalOfFour(r.last);
      if |l| == 4 {
        assert l[..4] == l;
        DecimalValue(r.last);
      } else {
        assert r.last !in ItemYears(RunText(r));
      }
    }
  }

  // ---------------------------------------------------------------- the round trip

  ghost predicate Readable(r: Run) {
    r.first == r.last || (Four(r.first) && Four(r.last))
  }

  /** Two neighbouring years of the set always have four digits each. */
  ghost predicate NeighboursHaveFourDigits(dates: set<int>) {
    forall y :: y in dates && y + 1 in dates ==> Four(y) && Four(y + 1)
  }

  lemma SplitJoined(runs: seq<Run>)
    requires runs != []
    ensures Split(Joined(RunTexts(runs)), ',') == RunTexts(runs)
  {
    var texts := RunTexts(runs);
    forall i | 0 <= i < |texts| ensures ',' !in texts[i] {
      RunTextIsPlain(runs[i]);
    }
    SplitPieces(texts[0], texts[1..], ',');
    assert [texts[0]] + texts[1..] == texts;
  }

  ghost predicate Yields(r: Run, y: int) {
    y in ItemYears(RunText(r))
  }

  lemma LastItem(runs: seq<Run>)
    requires runs != []
    ensures AllYears(RunTexts(runs)) == AllYears(RunTexts(runs[..|runs| - 1])) + ItemYears(RunText(runs[|runs| - 1]))
  {
    var n, texts := |runs| - 1, RunTexts(runs);
    assert texts[..n] == RunTexts(runs[..n]);
    assert texts[n] == RunText(runs[n]);
    LastOf(texts);
    RunTextIsPlain(runs[n]);
  }

  lemma LastOf(items: seq<string>)
    requires items != []
    ensures AllYears(items) == AllYears(items[..|items| - 1]) + ItemYears(Strip(items[|items| - 1]))
  {
  }

  lemma {:induction false} YieldedIsRead(runs: seq<Run>, i: nat, y: int)
    requires i < |runs| && Yields(runs[i], y)
    ensures y in AllYears(RunTexts(runs))
  {
    LastItem(runs);
    if i < |runs| - 1 {
      YieldedIsRead(runs[..|runs| - 1], i, y);
    }
  }

  lemma {:induction false} ReadIsYielded(runs: seq<Run>, y: int) returns (i: nat)
    requires y in AllYears(RunTexts(runs))
    ensures i < |runs| && Yields(runs[i], y)
  {
    LastItem(runs);
    i := |runs| - 1;
    if !Yields(runs[i], y) {
      i := ReadIsYielded(runs[..i], y);
    }
  }

  lemma ReadableIff(runs: seq<Run>, dates: set<int>)
    requires RunsOf(runs, dates)
    ensures (forall i :: 0 <= i < |runs| ==> Readable(runs[i])) <==> NeighboursHaveFourDigits(dates)
  {
    if NeighboursHaveFourDigits(dates) {
      forall i | 0 <= i < |runs| ensures Readable(runs[i]) {
        var r := runs[i];
        if r.first < r.last {
          RunIsInYears(runs, i, r.first);
          RunIsInYears(runs, i, r.first + 1);
          RunIsInYears(runs, i, r.last - 1);
          RunIsInYears(runs, i, r.last - 1 + 1);
        }
      }
    }
    if forall i :: 0 <= i < |runs| ==> Readable(runs[i]) {
      forall y | y in dates && y + 1 in dates ensures Four(y) && Four(y + 1) {
        var i := YearIsInARun(runs, y);
        var j := YearIsInARun(runs, y + 1);
        assert i == j by {
          assert i < j || j < i || i == j;
        }
      }
    }
  }

  /**
    The round trip: the printed list reads back as the same set exactly when neighbouring years have four digits.
    In any case nothing is read back that was not in the set.
   */
  lemma YearsRoundTripIff(runs: seq<Run>, dates: set<int>)
    requires RunsOf(runs, dates) && runs != []
    ensures AllYears(Split(Joined(RunTexts(runs)), ',')) <= dates
    ensures AllYears(Split(Joined(RunTexts(runs)), ',')) == dates <==> NeighboursHaveFourDigits(dates)
  {
    SplitJoined(runs);
    var back := AllYears(RunTexts(runs));
    forall y | y in back ensures y in dates {
      OnlyOwnYears(runs, y);
    }
    ReadableIff(runs, dates);
    if NeighboursHaveFourDigits(dates) {
      forall y | y in dates ensures y in back {
        var i := YearIsInARun(runs, y);
        ItemReadsBackIff(runs[i]);
        YieldedIsRead(runs, i, y);
      }
    } else {
      var i :| 0 <= i < |runs| && !Readable(runs[i]);
      var lost := UnreadableRunLosesAYear(runs, i);
    }
  }

  lemma YieldedIsOwn(r: Run, y: int)
    requires r.first <= r.last && Yields(r, y)
    ensures r.first <= y <= r.last
  {
    ItemReadsBackIff(r);
  }

  lemma UnreadableMisses(r: Run) returns (y: int)
    requires r.first <= r.last && !Readable(r)
    ensures r.first <= y <= r.last && !Yields(r, y)
  {
    ItemReadsBackIff(r);
    y :| y in Range(r.first, r.last) && y !in ItemYears(RunText(r));
  }

  lemma OnlyOwnYears(runs: seq<Run>, y: int)
    requires Separated(runs) && y in AllYears(RunTexts(runs))
    ensures y in Years(runs)
  {
    var i := ReadIsYielded(runs, y);
    YieldedIsOwn(runs[i], y);
    RunIsInYears(runs, i, y);
  }

  lemma UnreadableRunLosesAYear(runs: seq<Run>, i: nat) returns (y: int)
    requires Separated(runs) && i < |runs| && !Readable(runs[i])
    ensures y in Years(runs) && y !in AllYears(RunTexts(runs))
  {
    y := UnreadableMisses(runs[i]);
    RunIsInYears(runs, i, y);
    if y in AllYears(RunTexts(runs)) {
      var j := ReadIsYielded(runs, y);
      YieldedIsOwn(runs[j], y);
      OneRunPerYear(runs, i, j, y);
    }
  }

  lemma OneRunPerYear(runs: seq<Run>, i: nat, j: nat, y: int)
    requires Separated(runs) && i < |runs| && j < |runs|
    requires runs[i].first <= y <= runs[i].last && runs[j].first <= y <= runs[j].last
    ensures i == j
  {
  }

  /** The condition is needed: the two years 999 and 1000 print as one item that reads back as nothing. */
  lemma ShortRangeIsLost()
    ensures ItemYears(RunText(Run(999, 1000))) == {}
  {
    OddRangeIsDropped(Run(999, 1000));
  }
}
