/** Merging several checkpoints into one: renamed sections, relocated addresses, and one memory image. */
module MemoryMerge {
  import opened Words
  import opened Options
  import opened Text

  const PAGE := 4096

  /** A section of a checkpoint: its name, its physical address entry if it has one, and its other entries. */
  datatype Section = Section(name: string, paddr: Option<nat>, others: map<string, string>)

  datatype Cpt = Cpt(sections: seq<Section>, pages: nat, image: seq<Byte>, curTick: nat)

  /** The pages of the first `i` checkpoints. */
  function PagesBefore(cpts: seq<Cpt>, i: nat): nat
    requires i <= |cpts|
  {
    if i == 0 then 0 else PagesBefore(cpts, i - 1) + cpts[i - 1].pages
  }

  /** The first `n` pages of a file, or what there is of them. */
  function FirstPages(image: seq<Byte>, n: nat): (r: seq<Byte>)
    ensures r <= image && (|r| == 4096 * n || (r == image && |r| < 4096 * n))
  {
    if PAGE * n <= |image| then image[..PAGE * n] else image
  }

  /** The copy loop: one page at a time, as long as the file has any. */
  method CopyPages(image: seq<Byte>, n: nat) returns (out: seq<Byte>)
    ensures out == FirstPages(image, n)
  {
    out := [];
    for x := 0 to n
      invariant out == FirstPages(image, x)
    {
      var from := if PAGE * x <= |image| then PAGE * x else |image|;
      var to := if PAGE * (x + 1) <= |image| then PAGE * (x + 1) else |image|;
      out := out + image[from..to];
    }
  }

  /** The memory of the first `i` checkpoints, one behind the other. */
  function Merged(cpts: seq<Cpt>, i: nat): seq<Byte>
    requires i <= |cpts|
  {
    if i == 0 then [] else Merged(cpts, i - 1) + FirstPages(cpts[i - 1].image, cpts[i - 1].pages)
  }

  /** Every image holds the pages its checkpoint claims. */
  ghost predicate LongEnough(cpts: seq<Cpt>) {
    forall i :: 0 <= i < |cpts| ==> PAGE * cpts[i].pages <= |cpts[i].image|
  }

  lemma {:induction false} MergedLength(cpts: seq<Cpt>, i: nat)
    requires LongEnough(cpts) && i <= |cpts|
    ensures |Merged(cpts, i)| == PAGE * PagesBefore(cpts, i)
  {
    if i > 0 {
      MergedLength(cpts, i - 1);
    }
  }

  lemma {:induction false} OffsetsGrow(cpts: seq<Cpt>, i: nat, j: nat)
    requires i < j <= |cpts|
    ensures PagesBefore(cpts, i) + cpts[i].pages <= PagesBefore(cpts, j)
  {
    if i < j - 1 {
      OffsetsGrow(cpts, i, j - 1);
    }
  }

  /** A byte inside the pages of checkpoint `i` sits in the merged image behind the pages of all earlier checkpoints. */
  lemma {:induction false} BytesAreRelocated(cpts: seq<Cpt>, n: nat, i: nat, a: nat)
    requires LongEnough(cpts) && i < n <= |cpts| && a < PAGE * cpts[i].pages
    ensures PAGE * PagesBefore(cpts, i) + a < |Merged(cpts, n)|
    ensures Merged(cpts, n)[PAGE * PagesBefore(cpts, i) + a] == cpts[i].image[a]
    decreases n
  {
    MergedLength(cpts, n - 1);
    var before, last := Merged(cpts, n - 1), cpts[n - 1];
    if i < n - 1 {
      BytesAreRelocated(cpts, n - 1, i, a);
    } else {
      assert PAGE * last.pages <= |last.image|;
      assert (before + last.image[..PAGE * last.pages])[|before| + a] == last.image[a];
    }
  }

  /** The regions of different checkpoints do not overlap. */
  lemma RegionsAreDisjoint(cpts: seq<Cpt>, i: nat, j: nat, a: nat, b: nat)
    requires i < |cpts| && j < |cpts| && i != j && a < PAGE * cpts[i].pages && b < PAGE * cpts[j].pages
    ensures PAGE * PagesBefore(cpts, i) + a != PAGE * PagesBefore(cpts, j) + b
  {
    if i < j {
      OffsetsGrow(cpts, i, j);
    } else {
      OffsetsGrow(cpts, j, i);
    }
  }

  /** Pads with pages of the character 0 up to the memory size; returns the image and the final number of pages. */
  method Pad(image: seq<Byte>, pages: nat, memorySize: nat) returns (out: seq<Byte>, total: nat)
    ensures total >= pages && PAGE * total >= memorySize && (total > pages ==> PAGE * (total - 1) < memorySize)
    ensures image <= out && |out| == |image| + PAGE * (total - pages)
    ensures forall k :: |image| <= k < |out| ==> out[k] == 48
  {
    out, total := image, pages;
    var fileSize := PAGE * pages;
    while fileSize < memorySize
      invariant total >= pages && fileSize == PAGE * total && (total > pages ==> PAGE * (total - 1) < memorySize)
      invariant image <= out && |out| == |image| + PAGE * (total - pages)
      invariant forall k :: |image| <= k < |out| ==> out[k] == 48
      decreases memorySize - fileSize
    {
      var dummy: seq<Byte> := seq(PAGE, _ => 48);
      out := out + dummy;
      fileSize, total := fileSize + PAGE, total + 1;
    }
  }

  predicate StartsWithCpu(s: string) {
    |s| >= 3 && s[0] == 'c' && s[1] == 'p' && s[2] == 'u'
  }

  predicate HasCpu(s: string) {
    s != "" && (StartsWithCpu(s) || HasCpu(s[1..]))
  }

  /** Every occurrence of "cpu" gets the number behind it. */
  function Renamed(s: string, number: string): string {
    if s == "" then ""
    else if StartsWithCpu(s) then "cpu" + number + Renamed(s[3..], number)
    else [s[0]] + Renamed(s[1..], number)
  }

  lemma RenamedHead(s: string, number: string)
    requires s != ""
    ensures Renamed(s, number) != "" && Renamed(s, number)[0] == s[0]
    ensures StartsWithCpu(s) ==>
              Renamed(s, number)[3..] == number + Renamed(s[3..], number) && |Renamed(s, number)| >= 3
    ensures !StartsWithCpu(s) ==> Renamed(s, number)[1..] == Renamed(s[1..], number)
  {
    if StartsWithCpu(s) {
      RenamedCpu(s, number, Renamed(s[3..], number));
    } else {
      DropHead([s[0]], Renamed(s[1..], number));
    }
  }

  lemma RenamedCpu(s: string, number: string, rest: string)
    requires StartsWithCpu(s) && rest == Renamed(s[3..], number)
    ensures Renamed(s, number)[0] == s[0] && |Renamed(s, number)| >= 3 && Renamed(s, number)[3..] == number + rest
  {
    DropHead("cpu", number + rest);
    assert "cpu" + number + rest == "cpu" + (number + rest);
  }

  lemma DropHead(head: string, tail: string)
    requires head != ""
    ensures (head + tail)[|head|..] == tail && (head + tail)[0] == head[0]
  {
  }

  /** A renamed string shows "cpu" at its start only if the original did. */
  lemma RenamedShowsCpu(s: string, number: string)
    requires StartsWithCpu(Renamed(s, number))
    ensures StartsWithCpu(s)
  {
    var r := Renamed(s, number);
    if s != "" && !StartsWithCpu(s) {
      RenamedHead(s, number);
      assert s[1..] != "";
      RenamedHead(s[1..], number);
      assert !StartsWithCpu(s[1..]);
      assert s[1..][1..] != "";
      RenamedHead(s[1..][1..], number);
    }
  }

  /** Renamed sections never collide: neither across checkpoints nor within one. */
  lemma {:induction false} RenamedIsInjective(s: string, t: string, m: string, n: string)
    requires Renamed(s, m) == Renamed(t, n) && |m| == |n|
    requires m == n || (HasCpu(s) && HasCpu(t))
    ensures s == t && m == n
    decreases |s|
  {
    if s == "" || t == "" {
      if s != "" { RenamedHead(s, m); }
      if t != "" { RenamedHead(t, n); }
    } else {
      RenamedHead(s, m);
      RenamedHead(t, n);
      if StartsWithCpu(s) || StartsWithCpu(t) {
        SameStart(s, t, m, n);
        var a, b := m + Renamed(s[3..], m), n + Renamed(t[3..], n);
        assert a == b && a[..|m|] == m && b[..|n|] == n;
        assert Renamed(s[3..], m) == a[|m|..] && Renamed(t[3..], n) == b[|n|..];
        RenamedIsInjective(s[3..], t[3..], m, n);
        assert s == "cpu" + s[3..] && t == "cpu" + t[3..];
      } else {
        RenamedIsInjective(s[1..], t[1..], m, n);
        assert s == [s[0]] + s[1..] && t == [t[0]] + t[1..];
      }
    }
  }

  lemma SameStart(s: string, t: string, m: string, n: string)
    requires Renamed(s, m) == Renamed(t, n) && s != "" && t != ""
    requires StartsWithCpu(s) || StartsWithCpu(t)
    ensures StartsWithCpu(s) && StartsWithCpu(t)
  {
    if StartsWithCpu(s) {
      assert StartsWithCpu(Renamed(s, m));
      RenamedShowsCpu(t, n);
    } else {
      assert StartsWithCpu(Renamed(t, n));
      RenamedShowsCpu(s, m);
    }
  }

  lemma {:induction false} RenamedKeepsCpu(s: string, number: string)
    requires HasCpu(s)
    ensures HasCpu(Renamed(s, number))
    decreases |s|
  {
    RenamedHead(s, number);
    if !StartsWithCpu(s) {
      RenamedKeepsCpu(s[1..], number);
    }
  }

  /** The checkpoint's position, padded with zeros to the width of the largest one. */
  function Zeros(n: nat): string {
    if n == 0 then "" else "0" + Zeros(n - 1)
  }

  function Numbered(i: nat, width: nat): string {
    var d := Decimal(i);
    if |d| < width then Zeros(width - |d|) + d else d
  }

  lemma {:induction false} ZerosVanish(n: nat, s: string)
    requires forall c :: c in s ==> IsDigit(c)
    ensures forall c :: c in Zeros(n) + s ==> IsDigit(c)
    ensures DigitsValue(Zeros(n) + s) == DigitsValue(s)
    decreases n, |s|
  {
    if s == "" {
      if n > 0 {
        ZerosVanish(n - 1, "");
        ZerosEnd(n);
        assert Zeros(n) + s == Zeros(n - 1) + "" + "0";
        assert (Zeros(n) + s)[..n - 1] == Zeros(n - 1) + "";
      }
    } else {
      var k := |s| - 1;
      ZerosVanish(n, s[..k]);
      assert (Zeros(n) + s)[..|Zeros(n) + s| - 1] == Zeros(n) + s[..k];
    }
  }

  lemma {:induction false} ZerosEnd(n: nat)
    requires n > 0
    ensures |Zeros(n)| == n && |Zeros(n - 1)| == n - 1 && Zeros(n) == Zeros(n - 1) + "0"
  {
    if n > 1 {
      ZerosEnd(n - 1);
    }
  }

  /** Numbers of the same width are different for different positions. */
  lemma NumberedIsInjective(i: nat, j: nat, width: nat)
    requires Numbered(i, width) == Numbered(j, width)
    ensures i == j
  {
    NumberedValue(i, width);
    NumberedValue(j, width);
  }

  lemma NumberedValue(i: nat, width: nat)
    ensures (forall c :: c in Numbered(i, width) ==> IsDigit(c)) && DigitsValue(Numbered(i, width)) == i
  {
    var d := Decimal(i);
    DecimalValue(i);
    if |d| < width {
      ZerosVanish(width - |d|, d);
    }
  }

  lemma {:induction false} DecimalGrows(i: nat, j: nat)
    requires i <= j
    ensures |Decimal(i)| <= |Decimal(j)|
  {
    if i >= 10 {
      DecimalGrows(i / 10, j / 10);
    }
  }

  lemma NumberedLength(i: nat, last: nat)
    requires i <= last
    ensures |Numbered(i, |Decimal(last)|)| == |Decimal(last)|
  {
    DecimalGrows(i, last);
    var n := |Decimal(last)| - |Decimal(i)|;
    if n > 0 {
      ZerosEnd(n);
    }
  }

  /** The name a cpu section of checkpoint `i` of `n` gets. */
  function NewName(sec: string, i: nat, n: nat): string
    requires i < n
  {
    Renamed(sec, Numbered(i, |Decimal(n - 1)|))
  }

  lemma NamesNeverCollide(s: string, t: string, i: nat, j: nat, n: nat)
    requires i < n && j < n && HasCpu(s) && HasCpu(t) && NewName(s, i, n) == NewName(t, j, n)
    ensures s == t && i == j
  {
    NumberedLength(i, n - 1);
    NumberedLength(j, n - 1);
    RenamedIsInjective(s, t, Numbered(i, |Decimal(n - 1)|), Numbered(j, |Decimal(n - 1)|));
    NumberedIsInjective(i, j, |Decimal(n - 1)|);
  }

  ghost predicate NamesDistinct(sections: seq<Section>) {
    forall i, j :: 0 <= i < j < |sections| ==> sections[i].name != sections[j].name
  }

  /** A cpu section as it appears in the merged checkpoint. */
  function Relocated(s: Section, i: nat, n: nat, pagesBefore: nat): Section
    requires i < n
  {
    Section(NewName(s.name, i, n), if s.paddr.Some? then Some(s.paddr.value + PAGE * pagesBefore) else None, s.others)
  }

  /** The relocated cpu sections among the first `k` sections. */
  function CpuSections(secs: seq<Section>, k: nat, i: nat, n: nat, pagesBefore: nat): seq<Section>
    requires i < n && k <= |secs|
  {
    if k == 0 then []
    else
      CpuSections(secs, k - 1, i, n, pagesBefore)
        + if HasCpu(secs[k - 1].name) then [Relocated(secs[k - 1], i, n, pagesBefore)] else []
  }

  /** The relocated cpu sections of the first `k` checkpoints. */
  function AllCpuSections(cpts: seq<Cpt>, k: nat): seq<Section>
    requires k <= |cpts|
  {
    if k == 0 then []
    else AllCpuSections(cpts, k - 1)
         + CpuSections(cpts[k - 1].sections, |cpts[k - 1].sections|, k - 1, |cpts|, PagesBefore(cpts, k - 1))
  }

  method RelocateSections(secs: seq<Section>, i: nat, n: nat, pagesBefore: nat) returns (out: seq<Section>)
    requires i < n
    ensures out == CpuSections(secs, |secs|, i, n, pagesBefore)
  {
    out := [];
    for k := 0 to |secs|
      invariant out == CpuSections(secs, k, i, n, pagesBefore)
    {
      if HasCpu(secs[k].name) {
        out := out + [Relocated(secs[k], i, n, pagesBefore)];
      }
    }
  }

  ghost predicate IsLatest(cpts: seq<Cpt>, n: nat, tick: nat) {
    && (forall i :: 0 <= i < n && i < |cpts| ==> cpts[i].curTick <= tick)
    && (tick == 0 || exists i :: 0 <= i < n && i < |cpts| && cpts[i].curTick == tick)
  }

  lemma LatestStep(cpts: seq<Cpt>, n: nat, tick: nat)
    requires n < |cpts| && IsLatest(cpts, n, tick)
    ensures IsLatest(cpts, n + 1, if cpts[n].curTick > tick then cpts[n].curTick else tick)
  {
  }

  lemma MergeStep(cpts: seq<Cpt>, i: nat)
    requires i < |cpts|
    ensures PagesBefore(cpts, i + 1) == PagesBefore(cpts, i) + cpts[i].pages
    ensures Merged(cpts, i + 1) == Merged(cpts, i) + FirstPages(cpts[i].image, cpts[i].pages)
    ensures AllCpuSections(cpts, i + 1) == AllCpuSections(cpts, i)
              + CpuSections(cpts[i].sections, |cpts[i].sections|, i, |cpts|, PagesBefore(cpts, i))
  {
  }

  /** The loop over the checkpoints: their sections and pages one behind the other, and the latest tick. */
  method MergeAll(cpts: seq<Cpt>)
    returns (sections: seq<Section>, image: seq<Byte>, pagePtr: nat, curTick: nat)
    ensures sections == AllCpuSections(cpts, |cpts|) && image == Merged(cpts, |cpts|)
    ensures pagePtr == PagesBefore(cpts, |cpts|) && IsLatest(cpts, |cpts|, curTick)
  {
    sections, image, pagePtr, curTick := [], [], 0, 0;
    for i := 0 to |cpts|
      invariant sections == AllCpuSections(cpts, i) && pagePtr == PagesBefore(cpts, i) && IsLatest(cpts, i, curTick)
      invariant image == Merged(cpts, i)
    {
      var relocated := RelocateSections(cpts[i].sections, i, |cpts|, pagePtr);
      sections := sections + relocated;
      LatestStep(cpts, i, curTick);
      MergeStep(cpts, i);
      if cpts[i].curTick > curTick {
        curTick := cpts[i].curTick;
      }
      pagePtr := pagePtr + cpts[i].pages;
      var copied := CopyPages(cpts[i].image, cpts[i].pages);
      image := image + copied;
    }
  }

  /** The merge: sections and pages checkpoint by checkpoint, then the padding. */
  method Aggregate(cpts: seq<Cpt>, memorySize: nat)
    returns (sections: seq<Section>, image: seq<Byte>, pagePtr: nat, rangeSize: nat, curTick: nat)
    ensures sections == AllCpuSections(cpts, |cpts|)
    ensures pagePtr == PagesBefore(cpts, |cpts|) && IsLatest(cpts, |cpts|, curTick)
    ensures Merged(cpts, |cpts|) <= image
    ensures rangeSize % 4096 == 0 && rangeSize >= memorySize && rangeSize >= PAGE * pagePtr
    ensures HoldsSections(cpts, sections)
    ensures rangeSize == PAGE * pagePtr || rangeSize < memorySize + PAGE
    ensures |image| == |Merged(cpts, |cpts|)| + rangeSize - PAGE * pagePtr
    ensures forall k :: |Merged(cpts, |cpts|)| <= k < |image| ==> image[k] == 48
    ensures LongEnough(cpts) ==> |image| == rangeSize
  {
    sections, image, pagePtr, curTick := MergeAll(cpts);
    MergedHoldsSections(cpts);
    if LongEnough(cpts) {
      MergedLength(cpts, |cpts|);
    }
    var total;
    image, total := Pad(image, pagePtr, memorySize);
    rangeSize := PAGE * total;
  }

  /** The relocated address of a cpu section points, in the merged image, at the byte the old one pointed at. */
  lemma AddressFollowsByte(cpts: seq<Cpt>, image: seq<Byte>, i: nat, s: Section)
    requires i < |cpts| && LongEnough(cpts) && Merged(cpts, |cpts|) <= image
    requires s.paddr.Some? && s.paddr.value < PAGE * cpts[i].pages
    ensures var p := Relocated(s, i, |cpts|, PagesBefore(cpts, i)).paddr.value;
            p < |image| && s.paddr.value < |cpts[i].image| && image[p] == cpts[i].image[s.paddr.value]
  {
    RelocatedByte(cpts, image, i, s.paddr.value, PagesBefore(cpts, i));
  }

  lemma RelocatedByte(cpts: seq<Cpt>, image: seq<Byte>, i: nat, a: nat, before: nat)
    requires i < |cpts| && LongEnough(cpts) && Merged(cpts, |cpts|) <= image && a < PAGE * cpts[i].pages
    requires before == PagesBefore(cpts, i)
    ensures a < |cpts[i].image| && a + PAGE * before < |image| && image[a + PAGE * before] == cpts[i].image[a]
  {
    BytesAreRelocated(cpts, |cpts|, i, a);
    PrefixByte(Merged(cpts, |cpts|), image, PAGE * before + a);
  }

  lemma PrefixByte(image: seq<Byte>, longer: seq<Byte>, k: nat)
    requires image <= longer && k < |image|
    ensures longer[k] == image[k]
  {
  }

  lemma {:induction false} CpuSectionOrigin(secs: seq<Section>, k: nat, i: nat, n: nat, pagesBefore: nat, o: nat)
    returns (j: nat)
    requires i < n && k <= |secs| && o < |CpuSections(secs, k, i, n, pagesBefore)|
    ensures j < k && HasCpu(secs[j].name)
    ensures CpuSections(secs, k, i, n, pagesBefore)[o] == Relocated(secs[j], i, n, pagesBefore)
  {
    if o < |CpuSections(secs, k - 1, i, n, pagesBefore)| {
      j := CpuSectionOrigin(secs, k - 1, i, n, pagesBefore, o);
    } else {
      j := k - 1;
    }
  }

  lemma {:induction false} CpuSectionsDistinct(secs: seq<Section>, k: nat, i: nat, n: nat, pagesBefore: nat)
    requires i < n && k <= |secs| && NamesDistinct(secs)
    ensures NamesDistinct(CpuSections(secs, k, i, n, pagesBefore))
  {
    if k > 0 {
      CpuSectionsDistinct(secs, k - 1, i, n, pagesBefore);
      var init := CpuSections(secs, k - 1, i, n, pagesBefore);
      if HasCpu(secs[k - 1].name) {
        forall o | 0 <= o < |init|
          ensures init[o].name != NewName(secs[k - 1].name, i, n)
        {
          var j := CpuSectionOrigin(secs, k - 1, i, n, pagesBefore, o);
          if NewName(secs[j].name, i, n) == NewName(secs[k - 1].name, i, n) {
            NamesNeverCollide(secs[j].name, secs[k - 1].name, i, i, n);
          }
        }
      }
    }
  }

  lemma {:induction false} AllSectionOrigin(cpts: seq<Cpt>, k: nat, o: nat) returns (i: nat, j: nat)
    requires k <= |cpts| && o < |AllCpuSections(cpts, k)|
    ensures i < k && j < |cpts[i].sections| && HasCpu(cpts[i].sections[j].name)
    ensures AllCpuSections(cpts, k)[o] == Relocated(cpts[i].sections[j], i, |cpts|, PagesBefore(cpts, i))
  {
    var init := AllCpuSections(cpts, k - 1);
    if o < |init| {
      i, j := AllSectionOrigin(cpts, k - 1, o);
    } else {
      i := k - 1;
      j := CpuSectionOrigin(cpts[i].sections, |cpts[i].sections|, i, |cpts|, PagesBefore(cpts, i), o - |init|);
    }
  }

  /** The name mentions a cpu. */
  ghost predicate NamesCpu(name: string) {
    exists k :: 0 <= k && k + 3 <= |name| && name[k] == 'c' && name[k + 1] == 'p' && name[k + 2] == 'u'
  }

  lemma {:induction false} HasCpuIff(name: string)
    ensures HasCpu(name) <==> NamesCpu(name)
  {
    if name != "" {
      HasCpuIff(name[1..]);
      if NamesCpu(name[1..]) {
        var t := name[1..];
        var k :| 0 <= k && k + 3 <= |t| && t[k] == 'c' && t[k + 1] == 'p' && t[k + 2] == 'u';
        assert name[k + 1] == 'c' && name[k + 1 + 1] == 'p' && name[k + 1 + 2] == 'u';
      }
      if NamesCpu(name) {
        var k :| 0 <= k && k + 3 <= |name| && name[k] == 'c' && name[k + 1] == 'p' && name[k + 2] == 'u';
        if k > 0 {
          var t := name[1..];
          assert t[k - 1] == 'c' && t[k - 1 + 1] == 'p' && t[k - 1 + 2] == 'u';
        }
      }
    }
  }

  /** A merged section and where it comes from: renamed, its address moved behind the earlier pages, the rest kept. */
  ghost predicate ComesFrom(out: Section, cpts: seq<Cpt>, i: nat, j: nat) {
    && i < |cpts| && j < |cpts[i].sections|
    && var s := cpts[i].sections[j];
       && NamesCpu(s.name) && out.name == NewName(s.name, i, |cpts|) && out.others == s.others
       && (out.paddr.Some? <==> s.paddr.Some?)
       && (out.paddr.Some? ==> out.paddr.value == s.paddr.value + 4096 * PagesBefore(cpts, i))
  }

  ghost predicate HasOrigin(out: Section, cpts: seq<Cpt>) {
    exists i, j :: ComesFrom(out, cpts, i, j)
  }

  ghost predicate IsHeld(sections: seq<Section>, cpts: seq<Cpt>, i: nat, j: nat) {
    exists o :: 0 <= o < |sections| && ComesFrom(sections[o], cpts, i, j)
  }

  /** Every cpu section of every checkpoint is there, moved, and nothing else is. */
  ghost predicate HoldsSections(cpts: seq<Cpt>, sections: seq<Section>) {
    && (forall o :: 0 <= o < |sections| ==> HasOrigin(sections[o], cpts))
    && forall i: nat, j: nat :: i < |cpts| && j < |cpts[i].sections| && NamesCpu(cpts[i].sections[j].name) ==>
         IsHeld(sections, cpts, i, j)
  }

  lemma {:induction false} CpuSectionPlace(secs: seq<Section>, k: nat, i: nat, n: nat, pagesBefore: nat, j: nat)
    returns (o: nat)
    requires i < n && j < k <= |secs| && HasCpu(secs[j].name)
    ensures o < |CpuSections(secs, k, i, n, pagesBefore)|
    ensures CpuSections(secs, k, i, n, pagesBefore)[o] == Relocated(secs[j], i, n, pagesBefore)
  {
    if j < k - 1 {
      o := CpuSectionPlace(secs, k - 1, i, n, pagesBefore, j);
    } else {
      o := |CpuSections(secs, k - 1, i, n, pagesBefore)|;
    }
  }

  lemma {:induction false} AllSectionPlace(cpts: seq<Cpt>, k: nat, i: nat, j: nat) returns (o: nat)
    requires i < k <= |cpts| && j < |cpts[i].sections| && HasCpu(cpts[i].sections[j].name)
    ensures o < |AllCpuSections(cpts, k)|
    ensures AllCpuSections(cpts, k)[o] == Relocated(cpts[i].sections[j], i, |cpts|, PagesBefore(cpts, i))
  {
    if i < k - 1 {
      o := AllSectionPlace(cpts, k - 1, i, j);
    } else {
      o := CpuSectionPlace(cpts[i].sections, |cpts[i].sections|, i, |cpts|, PagesBefore(cpts, i), j);
      o := o + |AllCpuSections(cpts, k - 1)|;
    }
  }

  lemma RelocatedComesFrom(cpts: seq<Cpt>, i: nat, j: nat)
    requires i < |cpts| && j < |cpts[i].sections| && HasCpu(cpts[i].sections[j].name)
    ensures ComesFrom(Relocated(cpts[i].sections[j], i, |cpts|, PagesBefore(cpts, i)), cpts, i, j)
  {
    HasCpuIff(cpts[i].sections[j].name);
  }

  lemma MergedHasOrigin(cpts: seq<Cpt>, o: nat)
    requires o < |AllCpuSections(cpts, |cpts|)|
    ensures HasOrigin(AllCpuSections(cpts, |cpts|)[o], cpts)
  {
    var i, j := AllSectionOrigin(cpts, |cpts|, o);
    RelocatedComesFrom(cpts, i, j);
  }

  lemma MergedHolds(cpts: seq<Cpt>, i: nat, j: nat)
    requires i < |cpts| && j < |cpts[i].sections| && NamesCpu(cpts[i].sections[j].name)
    ensures IsHeld(AllCpuSections(cpts, |cpts|), cpts, i, j)
  {
    HasCpuIff(cpts[i].sections[j].name);
    var o := AllSectionPlace(cpts, |cpts|, i, j);
    RelocatedComesFrom(cpts, i, j);
  }

  lemma MergedHoldsSections(cpts: seq<Cpt>)
    ensures HoldsSections(cpts, AllCpuSections(cpts, |cpts|))
  {
    var all := AllCpuSections(cpts, |cpts|);
    forall o | 0 <= o < |all| ensures HasOrigin(all[o], cpts) {
      MergedHasOrigin(cpts, o);
    }
    forall i: nat, j: nat | i < |cpts| && j < |cpts[i].sections| && NamesCpu(cpts[i].sections[j].name)
      ensures IsHeld(all, cpts, i, j)
    {
      MergedHolds(cpts, i, j);
    }
  }

  /** If the names within each checkpoint differ, all names of the merged cpu sections differ. */
  lemma {:induction false} MergedNamesDistinct(cpts: seq<Cpt>, k: nat)
    requires k <= |cpts| && forall i :: 0 <= i < |cpts| ==> NamesDistinct(cpts[i].sections)
    ensures NamesDistinct(AllCpuSections(cpts, k))
  {
    if k > 0 {
      var c, n := k - 1, |cpts|;
      MergedNamesDistinct(cpts, c);
      var pb := PagesBefore(cpts, c);
      CpuSectionsDistinct(cpts[c].sections, |cpts[c].sections|, c, n, pb);
      var init, block := AllCpuSections(cpts, c), CpuSections(cpts[c].sections, |cpts[c].sections|, c, n, pb);
      forall o, p | 0 <= o < |init| && 0 <= p < |block|
        ensures init[o].name != block[p].name
      {
        var i, j := AllSectionOrigin(cpts, c, o);
        var q := CpuSectionOrigin(cpts[c].sections, |cpts[c].sections|, c, n, pb, p);
        if init[o].name == block[p].name {
          NamesNeverCollide(cpts[i].sections[j].name, cpts[c].sections[q].name, i, c, n);
        }
      }
    }
  }
}
