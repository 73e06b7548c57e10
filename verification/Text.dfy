/** Splitting, joining and decimal numbers, as the trace scripts use them. */
module Text {
  import opened Options

  /** Splitting at every separator: one piece more than there are separators, even for the empty string. */
  function Split(s: string, sep: char): (r: seq<string>)
    ensures |r| > 0
  {
    if s == "" then [""]
    else if s[0] == sep then [""] + Split(s[1..], sep)
    else
      var r := Split(s[1..], sep);
      [[s[0]] + r[0]] + r[1..]
  }

  /** Each part preceded by the separator, the way the printers write lists. */
  function Pieces(parts: seq<string>, sep: char): string {
    if parts == [] then "" else [sep] + parts[0] + Pieces(parts[1..], sep)
  }

  lemma {:induction false} SplitPlain(s: string, sep: char)
    requires sep !in s
    ensures Split(s, sep) == [s]
  {
    if s != "" {
      SplitPlain(s[1..], sep);
      assert [s[0]] + s[1..] == s;
    }
  }

  lemma {:induction false} SplitFirst(a: string, b: string, sep: char)
    requires sep !in a
    ensures Split(a + [sep] + b, sep) == [a] + Split(b, sep)
  {
    var s := a + [sep] + b;
    if a == "" {
      assert s[1..] == b;
    } else {
      assert s[1..] == a[1..] + [sep] + b;
      SplitFirst(a[1..], b, sep);
      assert [a[0]] + a[1..] == a;
      assert ([a[1..]] + Split(b, sep))[1..] == Split(b, sep);
    }
  }

  /** Splitting recovers a first part and the pieces behind it when none of them holds the separator. */
  lemma {:induction false} SplitPieces(first: string, parts: seq<string>, sep: char)
    requires sep !in first && forall i :: 0 <= i < |parts| ==> sep !in parts[i]
    ensures Split(first + Pieces(parts, sep), sep) == [first] + parts
    decreases |parts|
  {
    if parts == [] {
      assert first + Pieces(parts, sep) == first;
      SplitPlain(first, sep);
    } else {
      assert first + Pieces(parts, sep) == first + [sep] + (parts[0] + Pieces(parts[1..], sep));
      SplitFirst(first, parts[0] + Pieces(parts[1..], sep), sep);
      SplitPieces(parts[0], parts[1..], sep);
    }
  }

  predicate IsDigit(c: char) {
    '0' <= c <= '9'
  }

  function Digit(d: nat): char
    requires d < 10
  {
    ('0' as int + d) as char
  }

  function Decimal(n: nat): (s: string)
    ensures s != "" && forall c :: c in s ==> IsDigit(c)
  {
    if n < 10 then [Digit(n)] else Decimal(n / 10) + [Digit(n % 10)]
  }

  /** The number spelled by digits, with single underscores allowed between them. */
  function ParseNat(s: string): Option<nat> {
    if s == "" || !IsDigit(s[|s| - 1]) then None
    else
      var n := |s| - 1;
      var d := s[n] as int - '0' as int;
      if n == 0 then Some(d)
      else
        var rest := ParseNat(if s[n - 1] == '_' then s[..n - 1] else s[..n]);
        if rest.None? then None else Some(10 * rest.value + d)
  }

  lemma {:induction false} DigitsParse(s: string)
    requires s != "" && forall c :: c in s ==> IsDigit(c)
    ensures ParseNat(s) == Some(DigitsValue(s))
  {
    var n := |s| - 1;
    assert IsDigit(s[n]);
    if n > 0 {
      assert IsDigit(s[n - 1]) && s[n - 1] != '_' && forall c :: c in s[..n] ==> c in s;
      DigitsParse(s[..n]);
    } else {
      assert s[..0] == "";
    }
  }

  lemma MinusParses(t: string, n: int)
    requires n >= 0 && ParseNat(t) == Some(n)
    ensures ParseInt("-" + t) == Some(-n)
  {
    var s := "-" + t;
    assert s[|s| - 1] == t[|t| - 1] && s[1..] == t;
    StripWhole(s);
  }

  lemma PlusParses(t: string, n: int)
    requires n >= 0 && ParseNat(t) == Some(n)
    ensures ParseInt("+" + t) == Some(n)
  {
    var s := "+" + t;
    assert s[|s| - 1] == t[|t| - 1] && s[1..] == t;
    StripWhole(s);
  }

  lemma {:induction false} NotANumeral(s: string, i: nat)
    requires i < |s| && !IsDigit(s[i]) && s[i] != '_'
    ensures ParseNat(s).None?
  {
    var n := |s| - 1;
    if IsDigit(s[n]) {
      NotANumeral(if s[n - 1] == '_' then s[..n - 1] else s[..n], i);
    }
  }

  /** Digits, and underscores that stand alone between two of them. */
  ghost predicate IsNumeral(s: string) {
    && s != "" && IsDigit(s[0]) && IsDigit(s[|s| - 1])
    && forall i :: 0 < i < |s| - 1 ==> IsInside(s, i)
  }

  ghost predicate IsInside(s: string, i: int)
    requires 0 < i < |s| - 1
  {
    IsDigit(s[i]) || (s[i] == '_' && IsDigit(s[i - 1]) && IsDigit(s[i + 1]))
  }

  lemma {:induction false} NumeralIff(s: string)
    ensures ParseNat(s).Some? <==> IsNumeral(s)
  {
    if s != "" && IsDigit(s[|s| - 1]) && |s| > 1 {
      var n := |s| - 1;
      var rest := if s[n - 1] == '_' then s[..n - 1] else s[..n];
      NumeralIff(rest);
      if IsNumeral(s) {
        NumeralWithout(s, rest);
      } else if IsNumeral(rest) {
        NumeralWith(s, rest);
      }
    }
  }

  lemma NumeralWithout(s: string, rest: string)
    requires |s| > 1 && IsNumeral(s) && rest == if s[|s| - 2] == '_' then s[..|s| - 2] else s[..|s| - 1]
    ensures IsNumeral(rest)
  {
    var n := |s| - 1;
    assert n > 1 ==> IsInside(s, n - 1);
    forall i | 0 < i < |rest| - 1 ensures IsInside(rest, i) {
      assert IsInside(s, i);
    }
  }

  lemma NumeralWith(s: string, rest: string)
    requires |s| > 1 && IsNumeral(rest) && rest == if s[|s| - 2] == '_' then s[..|s| - 2] else s[..|s| - 1]
    requires IsDigit(s[|s| - 1])
    ensures IsNumeral(s)
  {
    var m := |rest|;
    assert rest[m - 1] == s[m - 1];
    forall i | 0 < i < |s| - 1 ensures IsInside(s, i) {
      if i < m - 1 {
        assert IsInside(rest, i);
      }
    }
  }

  /** A numeral with an optional sign, and blanks around it. */
  function ParseInt(text: string): Option<int> {
    var s := Strip(text);
    var signed := s != "" && (s[0] == '-' || s[0] == '+');
    var digits := ParseNat(if signed then s[1..] else s);
    if digits.None? then None
    else
      var n: int := digits.value;
      Some(if signed && s[0] == '-' then -n else n)
  }

  function DigitsValue(s: string): nat
    requires forall c :: c in s ==> IsDigit(c)
  {
    if s == "" then 0
    else
      var n := |s| - 1;
      assert IsDigit(s[n]) && forall c :: c in s[..n] ==> c in s;
      10 * DigitsValue(s[..n]) + (s[n] as int - '0' as int)
  }

  lemma {:induction false} DecimalParses(n: nat)
    ensures ParseNat(Decimal(n)) == Some(n) && ParseInt(Decimal(n)) == Some(n)
  {
    var s := Decimal(n);
    assert s[0] in s && s[|s| - 1] in s;
    DigitsParse(s);
    DecimalValue(n);
    StripWhole(s);
  }

  /** Stripping leaves a text alone that neither starts nor ends with a blank. */
  lemma StripWhole(s: string)
    requires s == "" || (!IsSpace(s[0]) && !IsSpace(s[|s| - 1]))
    ensures Strip(s) == s
  {
  }

  lemma {:induction false} DecimalValue(n: nat)
    ensures DigitsValue(Decimal(n)) == n
  {
    var s := Decimal(n);
    if n >= 10 {
      DecimalValue(n / 10);
      assert s[..|s| - 1] == Decimal(n / 10);
    }
  }

  predicate IsSpace(c: char) {
    c == ' ' || c == '\t' || c == '\n' || c == '\r' || c == '\U{0B}' || c == '\U{0C}'
  }

  lemma SpacesAre(c: char)
    ensures IsSpace(c) <==> c in " \t\n\r\U{0B}\U{0C}"
  {
    var all := " \t\n\r\U{0B}\U{0C}";
    assert all[0] == ' ' && all[1] == '\t' && all[2] == '\n' && all[3] == '\r' && all[4] == '\U{0B}';
    assert all[5] == '\U{0C}';
  }

  function StripRight(s: string): string {
    if s != "" && IsSpace(s[|s| - 1]) then StripRight(s[..|s| - 1]) else s
  }

  function StripLeft(s: string): string {
    if s != "" && IsSpace(s[0]) then StripLeft(s[1..]) else s
  }

  function Strip(s: string): string {
    StripLeft(StripRight(s))
  }

  /** Stripping on the left drops white space up to the first other character. */
  lemma {:induction false} StripLeftMeans(s: string, k: nat)
    requires k <= |s| && (forall i :: 0 <= i < k ==> IsSpace(s[i])) && (k < |s| ==> !IsSpace(s[k]))
    ensures StripLeft(s) == s[k..]
    decreases |s|
  {
    if k > 0 {
      StripLeftMeans(s[1..], k - 1);
      assert s[1..][k - 1..] == s[k..];
    } else {
      assert s[0..] == s;
    }
  }

  /** The lines of a file, each with its line end. */
  function Lines(text: string): seq<string> {
    if text == "" then []
    else if text[0] == '\n' then ["\n"] + Lines(text[1..])
    else
      var r := Lines(text[1..]);
      if r == [] then [[text[0]]] else [[text[0]] + r[0]] + r[1..]
  }

  lemma {:induction false} FirstLine(a: string, rest: string)
    requires '\n' !in a
    ensures Lines(a + "\n" + rest) == [a + "\n"] + Lines(rest)
  {
    var s := a + "\n" + rest;
    if a == "" {
      assert s[1..] == rest && a + "\n" == "\n";
    } else {
      assert s[1..] == a[1..] + "\n" + rest;
      FirstLine(a[1..], rest);
      assert [a[0]] + (a[1..] + "\n") == a + "\n";
    }
  }
}
