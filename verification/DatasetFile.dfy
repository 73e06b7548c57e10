/** The binary dataset file: four 32-bit integers followed by four blocks of 32-bit floats. */
module DatasetFile {
  import opened Words
  import opened Options

  datatype Dataset = Dataset(dim: nat, trainCount: nat, testCount: nat, topk: nat,
                             train: seq<Word>, test: seq<Word>, neighbors: seq<Word>, distances: seq<Word>)

  /** The sizes fit the source's `int` and each block has the size its header fields say. */
  predicate WellSized(s: Dataset) {
    && s.dim < 0x8000_0000 && s.trainCount < 0x8000_0000 && s.testCount < 0x8000_0000 && s.topk < 0x8000_0000
    && |s.train| == s.dim * s.trainCount && |s.test| == s.dim * s.testCount
    && |s.neighbors| == s.topk * s.testCount && |s.distances| == s.topk * s.testCount
  }

  function WordBytes(w: Word): (b: seq<Byte>)
    ensures |b| == 4
  {
    [w % 256, w / 256 % 256, w / 65536 % 256, w / 16777216]
  }

  function WordAt(b: seq<Byte>, pos: nat): Word
    requires pos + 4 <= |b|
  {
    var b0: nat, b1: nat, b2: nat, b3: nat := b[pos], b[pos + 1], b[pos + 2], b[pos + 3];
    b0 + 256 * b1 + 65536 * b2 + 16777216 * b3
  }

  function BlockBytes(ws: seq<Word>): (b: seq<Byte>)
    ensures |b| == 4 * |ws|
  {
    if ws == [] then [] else WordBytes(ws[0]) + BlockBytes(ws[1..])
  }

  /** The `n` cells behind `pos`. */
  function Cells(file: seq<Byte>, pos: nat, n: nat): (ws: seq<Word>)
    requires pos + 4 * n <= |file|
  {
    seq(n, i requires 0 <= i < n => WordAt(file, pos + 4 * i))
  }

  method ReadBlock(file: seq<Byte>, pos: nat, n: nat) returns (ws: seq<Word>)
    requires pos + 4 * n <= |file|
    ensures ws == Cells(file, pos, n)
  {
    ws := [];
    for i := 0 to n
      invariant ws == Cells(file, pos, i)
    {
      ws := ws + [WordAt(file, pos + 4 * i)];
    }
  }

  lemma WordReadsBack(b: seq<Byte>, pos: nat, w: Word)
    requires pos + 4 <= |b| && b[pos..pos + 4] == WordBytes(w)
    ensures WordAt(b, pos) == w
  {
    assert b[pos] == b[pos..pos + 4][0] && b[pos + 1] == b[pos..pos + 4][1];
    assert b[pos + 2] == b[pos..pos + 4][2] && b[pos + 3] == b[pos..pos + 4][3];
    WordDigits(w);
  }

  lemma WordDigits(w: Word)
    ensures w == w % 256 + 256 * (w / 256 % 256) + 65536 * (w / 65536 % 256) + 16777216 * (w / 16777216)
  {
    assert w / 65536 == w / 256 / 256 && w / 16777216 == w / 65536 / 256;
  }

  lemma {:induction false} CellReadsBack(file: seq<Byte>, pos: nat, ws: seq<Word>, i: nat)
    requires i < |ws| && pos + 4 * |ws| <= |file| && file[pos..pos + 4 * |ws|] == BlockBytes(ws)
    ensures WordAt(file, pos + 4 * i) == ws[i]
    decreases |ws|
  {
    var block := BlockBytes(ws);
    if i == 0 {
      assert file[pos..pos + 4] == block[..4];
      WordReadsBack(file, pos, ws[0]);
    } else {
      assert file[pos + 4..pos + 4 * |ws|] == block[4..];
      CellReadsBack(file, pos + 4, ws[1..], i - 1);
    }
  }

  lemma Middle(pre: seq<Byte>, mid: seq<Byte>, post: seq<Byte>)
    ensures (pre + mid + post)[|pre|..|pre| + |mid|] == mid
  {
  }

  /** A block reads back wherever it stands in a file. */
  lemma BlockReadsBack(file: seq<Byte>, pre: seq<Byte>, ws: seq<Word>, post: seq<Byte>)
    requires file == pre + BlockBytes(ws) + post
    ensures Cells(file, |pre|, |ws|) == ws
  {
    Middle(pre, BlockBytes(ws), post);
    CellsReadBack(file, |pre|, ws);
  }

  lemma CellsReadBack(file: seq<Byte>, pos: nat, ws: seq<Word>)
    requires pos + 4 * |ws| <= |file| && file[pos..pos + 4 * |ws|] == BlockBytes(ws)
    ensures Cells(file, pos, |ws|) == ws
  {
    forall i | 0 <= i < |ws|
      ensures WordAt(file, pos + 4 * i) == ws[i]
    {
      CellReadsBack(file, pos, ws, i);
    }
    CellsAre(file, pos, ws);
  }

  lemma CellsAre(file: seq<Byte>, pos: nat, ws: seq<Word>)
    requires pos + 4 * |ws| <= |file| && forall i :: 0 <= i < |ws| ==> WordAt(file, pos + 4 * i) == ws[i]
    ensures Cells(file, pos, |ws|) == ws
  {
  }

  /** A header of four integers, the two float blocks of vectors and the two of the ground truth. */
  datatype Parts = Parts(header: seq<Word>, train: seq<Word>, test: seq<Word>, neighbors: seq<Word>,
                         distances: seq<Word>)

  /** The blocks behind a header, given how many cells each has. */
  function PartsAt(file: seq<Byte>, a: nat, b: nat, c: nat): (p: Parts)
    requires 16 + 4 * a + 4 * b + 4 * c + 4 * c <= |file|
  {
    Parts(Cells(file, 0, 4), Cells(file, 16, a), Cells(file, 16 + 4 * a, b),
          Cells(file, 16 + 4 * a + 4 * b, c), Cells(file, 16 + 4 * a + 4 * b + 4 * c, c))
  }

  function PartsBytes(p: Parts): seq<Byte> {
    BlockBytes(p.header) + BlockBytes(p.train) + BlockBytes(p.test) + BlockBytes(p.neighbors) + BlockBytes(p.distances)
  }

  lemma HeaderReadsBack(file: seq<Byte>, header: seq<Word>, rest: seq<Byte>)
    requires |header| == 4 && file == BlockBytes(header) + rest
    ensures Cells(file, 0, 4) == header
  {
    assert file == [] + BlockBytes(header) + rest;
    BlockReadsBack(file, [], header, rest);
  }

  lemma VectorPartsReadBack(p: Parts)
    requires |p.header| == 4
    ensures Cells(PartsBytes(p), 0, 4) == p.header
    ensures Cells(PartsBytes(p), 16, |p.train|) == p.train
    ensures Cells(PartsBytes(p), 16 + 4 * |p.train|, |p.test|) == p.test
  {
    var file := PartsBytes(p);
    var b0, b1, b2 := BlockBytes(p.header), BlockBytes(p.train), BlockBytes(p.test);
    var b3, b4 := BlockBytes(p.neighbors), BlockBytes(p.distances);
    SumsRegroup(file, b0, b1, b2, b3, b4);
    HeaderReadsBack(file, p.header, b1 + b2 + b3 + b4);
    BlockReadsBack(file, b0, p.train, b2 + b3 + b4);
    BlockReadsBack(file, b0 + b1, p.test, b3 + b4);
  }

  lemma SumsRegroup(file: seq<Byte>, b0: seq<Byte>, b1: seq<Byte>, b2: seq<Byte>, b3: seq<Byte>, b4: seq<Byte>)
    requires file == b0 + b1 + b2 + b3 + b4
    ensures file == b0 + (b1 + b2 + b3 + b4) == b0 + b1 + (b2 + b3 + b4) == (b0 + b1) + b2 + (b3 + b4)
  {
  }

  lemma TruthPartsReadBack(p: Parts)
    requires |p.header| == 4
    ensures var pos := 16 + 4 * |p.train| + 4 * |p.test|;
            && Cells(PartsBytes(p), pos, |p.neighbors|) == p.neighbors
            && Cells(PartsBytes(p), pos + 4 * |p.neighbors|, |p.distances|) == p.distances
  {
    var file := PartsBytes(p);
    var b0, b1, b2 := BlockBytes(p.header), BlockBytes(p.train), BlockBytes(p.test);
    var b3, b4 := BlockBytes(p.neighbors), BlockBytes(p.distances);
    assert Cells(file, |b0 + b1 + b2|, |p.neighbors|) == p.neighbors by {
      BlockReadsBack(file, b0 + b1 + b2, p.neighbors, b4);
    }
    assert Cells(file, |b0 + b1 + b2 + b3|, |p.distances|) == p.distances by {
      assert file == (b0 + b1 + b2 + b3) + b4 + [];
      BlockReadsBack(file, b0 + b1 + b2 + b3, p.distances, []);
    }
  }

  lemma PartsReadBack(p: Parts)
    requires |p.header| == 4 && |p.neighbors| == |p.distances|
    ensures PartsAt(PartsBytes(p), |p.train|, |p.test|, |p.neighbors|) == p
  {
    VectorPartsReadBack(p);
    TruthPartsReadBack(p);
  }

  function CellCount(x: nat, y: nat): nat {
    x * y
  }

  function Header(s: Dataset): seq<Word>
    requires WellSized(s)
  {
    [s.dim, s.trainCount, s.testCount, s.topk]
  }

  function FileOf(s: Dataset): seq<Byte>
    requires WellSized(s)
  {
    PartsBytes(Parts(Header(s), s.train, s.test, s.neighbors, s.distances))
  }

  /** Writes the header, then the four blocks, in this order. */
  method WriteBin(s: Dataset) returns (file: seq<Byte>)
    requires WellSized(s)
    ensures file == FileOf(s)
  {
    file := BlockBytes(Header(s));
    file := file + BlockBytes(s.train);
    file := file + BlockBytes(s.test);
    file := file + BlockBytes(s.neighbors);
    file := file + BlockBytes(s.distances);
  }

  /** The file as its header describes it; nothing when the file ends before its header says it should. */
  function Parsed(file: seq<Byte>): Option<Dataset> {
    if |file| < 16 then None
    else
      var h := Cells(file, 0, 4);
      var a, b, c := CellCount(h[0], h[1]), CellCount(h[0], h[2]), CellCount(h[3], h[2]);
      if |file| < 16 + 4 * a + 4 * b + 4 * c + 4 * c then None
      else
        var p := PartsAt(file, a, b, c);
        Some(Dataset(h[0], h[1], h[2], h[3], p.train, p.test, p.neighbors, p.distances))
  }

  /** What was written reads back exactly. */
  lemma FileReadsBack(s: Dataset)
    requires WellSized(s)
    ensures Parsed(FileOf(s)) == Some(s)
  {
    PartsReadBack(Parts(Header(s), s.train, s.test, s.neighbors, s.distances));
  }

  lemma {:induction false} BlocksJoin(a: seq<Word>, b: seq<Word>)
    ensures BlockBytes(a + b) == BlockBytes(a) + BlockBytes(b)
    decreases |a|
  {
    if a == [] {
      assert a + b == b;
    } else {
      assert (a + b)[1..] == a[1..] + b;
      BlocksJoin(a[1..], b);
    }
  }

  lemma {:induction false} BytesOfWord(ws: seq<Word>, k: nat)
    requires k < |ws|
    ensures BlockBytes(ws)[4 * k..4 * k + 4] == [ws[k] % 256, ws[k] / 256 % 256, ws[k] / 65536 % 256, ws[k] / 16777216]
    decreases |ws|
  {
    var rest := BlockBytes(ws[1..]);
    if k == 0 {
      assert BlockBytes(ws)[..4] == WordBytes(ws[0]);
    } else {
      BytesOfWord(ws[1..], k - 1);
      assert BlockBytes(ws)[4 * k..4 * k + 4] == rest[4 * (k - 1)..4 * (k - 1) + 4];
    }
  }

  /** The layout of a file: the four sizes and the cells of the four blocks, each as four bytes, the lowest first. */
  lemma FileLayout(s: Dataset, words: seq<Word>, k: nat)
    requires WellSized(s)
    requires words == [s.dim, s.trainCount, s.testCount, s.topk] + s.train + s.test + s.neighbors + s.distances
    requires k < |words|
    ensures |FileOf(s)| == 4 * |words|
    ensures FileOf(s)[4 * k..4 * k + 4]
         == [words[k] % 256, words[k] / 256 % 256, words[k] / 65536 % 256, words[k] / 16777216]
  {
    var h := [s.dim, s.trainCount, s.testCount, s.topk];
    BlocksJoin(h, s.train);
    BlocksJoin(h + s.train, s.test);
    BlocksJoin(h + s.train + s.test, s.neighbors);
    BlocksJoin(h + s.train + s.test + s.neighbors, s.distances);
    BytesOfWord(words, k);
  }

  /** The number of bytes that a header asks for. */
  function FileSize(dim: nat, trainCount: nat, testCount: nat, topk: nat): nat {
    16 + 4 * CellCount(dim, trainCount) + 4 * CellCount(dim, testCount)
       + 4 * CellCount(topk, testCount) + 4 * CellCount(topk, testCount)
  }

  /** Bytes behind the last block change nothing. */
  lemma LongerFileReads(file: seq<Byte>, longer: seq<Byte>)
    requires file <= longer && Parsed(file).Some?
    ensures Parsed(longer) == Parsed(file)
  {
    SamePrefix(file, longer, 0, 4);
    var h := Cells(file, 0, 4);
    var a, b, c := CellCount(h[0], h[1]), CellCount(h[0], h[2]), CellCount(h[3], h[2]);
    SamePrefix(file, longer, 16, a);
    SamePrefix(file, longer, 16 + 4 * a, b);
    SamePrefix(file, longer, 16 + 4 * a + 4 * b, c);
    SamePrefix(file, longer, 16 + 4 * a + 4 * b + 4 * c, c);
  }

  lemma ShortFileFails(file: seq<Byte>, n: nat, h: seq<Word>)
    requires n < |file| && |file| >= 16 && h == Cells(file, 0, 4)
    requires |file| == FileSize(h[0], h[1], h[2], h[3])
    ensures Parsed(file[..n]).None?
  {
    if n >= 16 {
      SamePrefix(file[..n], file, 0, 4);
    }
  }

  /** Bytes behind the last block change nothing, and a file cut short anywhere is not read. */
  lemma OnlyWholeFilesAreRead(s: Dataset, more: seq<Byte>, n: nat)
    requires WellSized(s) && n < |FileOf(s)|
    ensures Parsed(FileOf(s) + more) == Some(s) && Parsed(FileOf(s)[..n]).None?
  {
    FileReadsBack(s);
    LongerFileReads(FileOf(s), FileOf(s) + more);
    VectorPartsReadBack(Parts(Header(s), s.train, s.test, s.neighbors, s.distances));
    ShortFileFails(FileOf(s), n, Header(s));
  }

  lemma SamePrefix(file: seq<Byte>, longer: seq<Byte>, pos: nat, n: nat)
    requires file <= longer && pos + 4 * n <= |file|
    ensures Cells(file, pos, n) == Cells(longer, pos, n)
  {
    forall i | 0 <= i < n ensures WordAt(file, pos + 4 * i) == WordAt(longer, pos + 4 * i) {
    }
  }

  /** Reads the header, then the four blocks whose sizes it gives. */
  method ReadBin(file: seq<Byte>) returns (r: Option<Dataset>)
    ensures r == Parsed(file)
  {
    if |file| < 16 {
      return None;
    }
    var h := ReadBlock(file, 0, 4);
    var a, b, c := CellCount(h[0], h[1]), CellCount(h[0], h[2]), CellCount(h[3], h[2]);
    if |file| < 16 + 4 * a + 4 * b + 4 * c + 4 * c {
      return None;
    }
    var train := ReadBlock(file, 16, a);
    var test := ReadBlock(file, 16 + 4 * a, b);
    var neighbors := ReadBlock(file, 16 + 4 * a + 4 * b, c);
    var distances := ReadBlock(file, 16 + 4 * a + 4 * b + 4 * c, c);
    r := Some(Dataset(h[0], h[1], h[2], h[3], train, test, neighbors, distances));
  }
}
