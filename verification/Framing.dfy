/** Length-prefixed messages in a byte stream. */
module Framing {
  import opened Words
  import opened Options
  import opened Varint

  /** A message type seen through its serialisation. */
  datatype Codec<!M> = Codec(write: M -> seq<Byte>, parse: seq<Byte> -> Option<M>)

  /** Parsing inverts serialising, for these messages. */
  ghost predicate Faithful<M>(c: Codec<M>, ms: seq<M>) {
    forall i :: 0 <= i < |ms| ==> c.parse(c.write(ms[i])) == Some(ms[i])
  }

  function Frame(payload: seq<Byte>): seq<Byte> {
    Encoded(|payload|) + payload
  }

  method EncodeMessage<M>(c: Codec<M>, out: seq<Byte>, m: M) returns (out': seq<Byte>)
    ensures out' == out + Frame(c.write(m))
  {
    var payload := c.write(m);
    var prefix := EncodeVarint(|payload|);
    out' := out + prefix + payload;
    assert out' == out + (prefix + payload);
  }

  /** Reading `size` bytes: fewer if the stream ends first, everything if the size is negative. */
  function ReadUpTo(b: seq<Byte>, size: int): (seq<Byte>, seq<Byte>) {
    if size < 0 || size >= |b| then (b, []) else (b[..size], b[size..])
  }

  /** One attempt to read a message: its bytes and the rest of the stream, or the end of decoding. */
  datatype Attempt = Buffer(payload: seq<Byte>, rest: seq<Byte>) | Stop(rest: seq<Byte>)

  function NextBuffer(b: seq<Byte>): Attempt {
    match DecodedFrom(b, 0, 0)
    case EndOfFile => Stop([])
    case TooManyBytes => DecodeIsBounded(b, 0, 0); TooManyUsesTen(b, 0, 0); Stop(b[10..])
    case Value(size, used) =>
      DecodeIsBounded(b, 0, 0);
      if size == 0 then Stop(b[used..])
      else
        var (payload, rest) := ReadUpTo(b[used..], size);
        Buffer(payload, rest)
  }

  lemma {:induction false} TooManyUsesTen(b: seq<Byte>, k: nat, result: nat)
    requires k < 10 && DecodedFrom(b, k, result).TooManyBytes?
    ensures |b| >= 10 - k
    decreases 10 - k
  {
    if b[0] >= 128 && k < 9 {
      TooManyUsesTen(b[1..], k + 1, result + Bits(b[0], k));
    }
  }

  lemma FrameSplits(payload: seq<Byte>, rest: seq<Byte>)
    ensures var b, used := Frame(payload) + rest, |Encoded(|payload|)|;
            b == Encoded(|payload|) + (payload + rest) && b[used..] == payload + rest
    ensures (payload + rest)[..|payload|] == payload && (payload + rest)[|payload|..] == rest
  {
    assert Frame(payload) + rest == Encoded(|payload|) + (payload + rest);
  }

  lemma TakenWholeIff(payload: seq<Byte>, rest: seq<Byte>, size: nat)
    requires size == |payload| % TWO32
    ensures size != 0 && ReadUpTo(payload + rest, size) == (payload, rest) <==> 1 <= |payload| < TWO32
  {
    var both := payload + rest;
    if |payload| < TWO32 {
      assert size == |payload|;
      assert both[..size] == payload && both[size..] == rest;
      assert rest == [] ==> both == payload;
    } else {
      assert size < |payload| && |ReadUpTo(both, size).0| == size;
    }
  }

  /** The reader trusts the low 32 bits of the length it finds. */
  lemma NextBufferOfFrame(payload: seq<Byte>, rest: seq<Byte>)
    requires |payload| < TWO63
    ensures var size := |payload| % TWO32;
            NextBuffer(Frame(payload) + rest) ==
              if size == 0 then Stop(payload + rest)
              else Buffer(ReadUpTo(payload + rest, size).0, ReadUpTo(payload + rest, size).1)
  {
    FrameSplits(payload, rest);
    DecodeOfEncode(|payload|, payload + rest);
  }

  /**
    A framed payload comes back whole, with exactly the rest left, if and only if its length is between 1 and 2^32 - 1.
   */
  lemma FrameReadsBackIff(payload: seq<Byte>, rest: seq<Byte>)
    requires |payload| < TWO63
    ensures NextBuffer(Frame(payload) + rest) == Buffer(payload, rest) <==> 1 <= |payload| < TWO32
    ensures |payload| == 0 ==> NextBuffer(Frame(payload) + rest) == Stop(rest)
  {
    NextBufferOfFrame(payload, rest);
    TakenWholeIff(payload, rest, |payload| % TWO32);
    assert [] + rest == rest;
  }

  /** A message cut short by the end of the stream is handed over as it is. */
  lemma CutMessageIsRead(n: nat, part: seq<Byte>)
    requires |part| < n < TWO32
    ensures NextBuffer(Encoded(n) + part) == Buffer(part, [])
  {
    var b, used := Encoded(n) + part, |Encoded(n)|;
    assert n % TWO32 == n;
    DecodeOfEncode(n, part);
    assert b[used..] == part;
    AllIsTaken(b, n, used);
  }

  lemma AllIsTaken(b: seq<Byte>, size: int, used: nat)
    requires used <= |b| && DecodedFrom(b, 0, 0) == Value(size, used) && (size < 0 || |b| - used <= size != 0)
    ensures NextBuffer(b) == Buffer(b[used..], [])
  {
  }

  /** A size of 2^63 or more reads as negative, and then the whole stream is taken for the message. */
  lemma HugeSizeTakesAll(size: nat, rest: seq<Byte>)
    requires TWO63 <= size < Pow128(10)
    ensures NextBuffer(Encoded(size) + rest) == Buffer(rest, [])
  {
    var b, used := Encoded(size) + rest, |Encoded(size)|;
    DecodeOfEncode(size, rest);
    assert b[used..] == rest;
    AllIsTaken(b, size % TWO32 - TWO32, used);
  }

  /** Decoding ends at a size of more than ten bytes, of which ten are used up, and at one that is cut short. */
  lemma BadSizeStops(b: seq<Byte>, n: nat)
    requires GoesOn(b, n)
    ensures n >= 10 ==> |b| >= 10 && NextBuffer(b) == Stop(b[10..])
    ensures n < 10 && n == |b| ==> NextBuffer(b) == Stop([])
  {
    DecodeMeans(b, n);
  }

  lemma NextBufferShrinks(b: seq<Byte>)
    ensures NextBuffer(b).Buffer? ==> |NextBuffer(b).rest| < |b|
  {
    DecodeIsBounded(b, 0, 0);
  }

  /**
    All messages up to the first failed attempt, and what is left of the stream then, or up to a payload that does not
    parse.
   */
  datatype Decoded<M> = Messages(ms: seq<M>, rest: seq<Byte>) | ParseFailure(ms: seq<M>)

  function Prepend<M>(ms: seq<M>, d: Decoded<M>): Decoded<M> {
    match d
    case ParseFailure(more) => ParseFailure(ms + more)
    case Messages(more, rest) => Messages(ms + more, rest)
  }

  lemma PrependTwice<M>(a: seq<M>, b: seq<M>, d: Decoded<M>)
    ensures Prepend(a, Prepend(b, d)) == Prepend(a + b, d)
  {
    assert a + (b + d.ms) == (a + b) + d.ms;
  }

  function DecodedAll<M>(c: Codec<M>, b: seq<Byte>): Decoded<M>
    decreases |b|
  {
    NextBufferShrinks(b);
    match NextBuffer(b)
    case Stop(rest) => Messages([], rest)
    case Buffer(payload, rest) =>
      match c.parse(payload)
      case None => ParseFailure([])
      case Some(m) =>
        Prepend([m], DecodedAll(c, rest))
  }

  /** The decoding loop of the trace readers. */
  method DecodeAll<M>(c: Codec<M>, b: seq<Byte>) returns (r: Decoded<M>)
    ensures r == DecodedAll(c, b)
  {
    var ms: seq<M>, left := [], b;
    while true
      invariant DecodedAll(c, b) == Prepend(ms, DecodedAll(c, left))
      decreases |left|
    {
      NextBufferShrinks(left);
      var attempt := NextBuffer(left);
      if attempt.Stop? {
        return Messages(ms, attempt.rest);
      }
      var parsed := c.parse(attempt.payload);
      if parsed.None? {
        return ParseFailure(ms);
      }
      PrependTwice(ms, [parsed.value], DecodedAll(c, attempt.rest));
      ms, left := ms + [parsed.value], attempt.rest;
    }
  }

  function Frames<M>(c: Codec<M>, ms: seq<M>): seq<Byte> {
    if ms == [] then [] else Frame(c.write(ms[0])) + Frames(c, ms[1..])
  }

  ghost predicate Framable<M>(c: Codec<M>, ms: seq<M>) {
    forall i :: 0 <= i < |ms| ==> 1 <= |c.write(ms[i])| < TWO32
  }

  lemma FrameDecodes<M>(c: Codec<M>, m: M, rest: seq<Byte>)
    requires c.parse(c.write(m)) == Some(m) && 1 <= |c.write(m)| < TWO32
    ensures DecodedAll(c, Frame(c.write(m)) + rest) == Prepend([m], DecodedAll(c, rest))
  {
    FrameReadsBackIff(c.write(m), rest);
  }

  /** Written messages decode to themselves, followed by whatever the rest of the stream decodes to. */
  lemma {:induction false} FramesDecode<M>(c: Codec<M>, ms: seq<M>, tail: seq<Byte>)
    requires Faithful(c, ms) && Framable(c, ms)
    ensures DecodedAll(c, Frames(c, ms) + tail) == Prepend(ms, DecodedAll(c, tail))
    decreases |ms|
  {
    if ms == [] {
      assert Frames(c, ms) + tail == tail;
      assert Prepend([], DecodedAll(c, tail)) == DecodedAll(c, tail) by {
        assert forall more: seq<M> :: [] + more == more;
      }
    } else {
      assert Frames(c, ms) + tail == Frame(c.write(ms[0])) + (Frames(c, ms[1..]) + tail);
      FrameDecodes(c, ms[0], Frames(c, ms[1..]) + tail);
      FramesDecode(c, ms[1..], tail);
      PrependTwice([ms[0]], ms[1..], DecodedAll(c, tail));
      assert [ms[0]] + ms[1..] == ms;
    }
  }

  /** The stream round trip: all messages, in order, stopping exactly at the end. */
  lemma StreamRoundTrip<M>(c: Codec<M>, ms: seq<M>)
    requires Faithful(c, ms) && Framable(c, ms)
    ensures DecodedAll(c, Frames(c, ms)) == Messages(ms, [])
  {
    FramesDecode(c, ms, []);
    assert Frames(c, ms) + [] == Frames(c, ms) && ms + [] == ms;
  }

  /** A message that does not parse is a failure, after all messages before it. */
  lemma BadMessageFails<M>(c: Codec<M>, ms: seq<M>, payload: seq<Byte>, tail: seq<Byte>)
    requires Faithful(c, ms) && Framable(c, ms) && 1 <= |payload| < TWO32 && c.parse(payload).None?
    ensures DecodedAll(c, Frames(c, ms) + (Frame(payload) + tail)) == ParseFailure(ms)
  {
    FramesDecode(c, ms, Frame(payload) + tail);
    FrameReadsBackIff(payload, tail);
    assert ms + [] == ms;
  }

  /** An empty message ends decoding early: everything behind it stays unread. */
  lemma EmptyMessageEndsDecoding<M>(c: Codec<M>, ms: seq<M>, tail: seq<Byte>)
    requires Faithful(c, ms) && Framable(c, ms)
    ensures DecodedAll(c, Frames(c, ms) + (Frame([]) + tail)) == Messages(ms, tail)
  {
    FramesDecode(c, ms, Frame([]) + tail);
    FrameReadsBackIff([], tail);
    assert ms + [] == ms;
  }
}
