/** Base-128 varints as the trace tools write and read them. */
module Varint {
  import opened Words

  function Pow128(k: nat): (p: nat)
    ensures p > 0
  {
    if k == 0 then 1 else 128 * Pow128(k - 1)
  }

  /** The groups of seven bits, least significant first, all but the last with the continuation bit. */
  function Encoded(v: nat): (b: seq<Byte>)
    ensures |b| > 0
  {
    if v < 128 then [v] else [128 + v % 128] + Encoded(v / 128)
  }

  lemma EncodedStep(bits: nat, rest: nat)
    requires bits < 128 && rest > 0
    ensures Encoded(bits + 128 * rest) == [128 + bits] + Encoded(rest % 128 + 128 * (rest / 128))
  {
    assert (bits + 128 * rest) % 128 == bits && (bits + 128 * rest) / 128 == rest;
  }

  method EncodeVarint(value: nat) returns (out: seq<Byte>)
    ensures out == Encoded(value)
  {
    out := [];
    var bits: nat, rest: nat := value % 128, value / 128;
    while rest != 0
      invariant bits < 128
      invariant out + Encoded(bits + 128 * rest) == Encoded(value)
      decreases rest
    {
      EncodedStep(bits, rest);
      out := out + [128 + bits];
      bits, rest := rest % 128, rest / 128;
    }
    out := out + [bits];
  }

  datatype Outcome = Value(v: int, used: nat) | EndOfFile | TooManyBytes

  /** What the decoder makes of the collected bits: sign extension above the 63-bit range, else the low 32 bits. */
  function Finish(result: nat): int {
    if result > TWO63 - 1 then result % TWO32 - TWO32 else result % TWO32
  }

  /** The seven low bits of a byte, moved to their place behind `k` bytes. */
  function Bits(c: nat, k: nat): nat {
    var low: nat := c % 128;
    low * Pow128(k)
  }

  /** The decoder after `k` bytes that gave `result`. */
  function DecodedFrom(b: seq<Byte>, k: nat, result: nat): Outcome
    requires k < 10
    decreases 10 - k
  {
    if b == [] then EndOfFile
    else
      var result' := result + Bits(b[0], k);
      if b[0] < 128 then Value(Finish(result'), k + 1)
      else if 7 * (k + 1) >= 64 then TooManyBytes
      else DecodedFrom(b[1..], k + 1, result')
  }

  lemma DecodeStep(b: seq<Byte>, pos: nat, result: nat)
    requires pos < |b| && pos < 10
    ensures var result' := result + Bits(b[pos], pos);
            DecodedFrom(b[pos..], pos, result) ==
              if b[pos] < 128 then Value(Finish(result'), pos + 1)
              else if pos == 9 then TooManyBytes
              else DecodedFrom(b[pos + 1..], pos + 1, result')
  {
    assert b[pos..][0] == b[pos] && b[pos..][1..] == b[pos + 1..];
  }

  method DecodeVarint(b: seq<Byte>) returns (r: Outcome)
    ensures r == DecodedFrom(b, 0, 0)
  {
    var result: nat, shift: nat, pos: nat := 0, 0, 0;
    while true
      invariant pos <= |b| && shift == 7 * pos && pos < 10
      invariant DecodedFrom(b, 0, 0) == DecodedFrom(b[pos..], pos, result)
      decreases 10 - pos
    {
      if pos == |b| {
        return EndOfFile;
      }
      var c: nat := b[pos];
      DecodeStep(b, pos, result);
      result := result + Bits(c, pos);
      if c < 128 {
        return Value(Finish(result), pos + 1);
      }
      pos, shift := pos + 1, shift + 7;
      if shift >= 64 {
        return TooManyBytes;
      }
    }
  }

  /** The first byte of an encoding, and what follows it. */
  lemma FirstByte(v: nat, rest: seq<Byte>)
    ensures Encoded(v) + rest != []
    ensures v < 128 ==> (Encoded(v) + rest)[0] == v && |Encoded(v)| == 1
    ensures v >= 128 ==> (Encoded(v) + rest)[0] == 128 + v % 128 && (Encoded(v) + rest)[1..] == Encoded(v / 128) + rest
    ensures v >= 128 ==> |Encoded(v)| == 1 + |Encoded(v / 128)|
  {
    if v >= 128 {
      assert Encoded(v) + rest == [128 + v % 128] + (Encoded(v / 128) + rest);
    }
  }

  lemma BitsOfFirst(v: nat, k: nat)
    ensures Bits(128 + v % 128, k) == Bits(v, k)
    ensures Bits(v, k) + v / 128 * Pow128(k + 1) == v * Pow128(k)
  {
    Regrouped(v % 128, v / 128, Pow128(k));
  }

  lemma Regrouped(low: nat, high: nat, p: nat)
    ensures low * p + high * (128 * p) == (low + 128 * high) * p
  {
  }

  /** The low seven bits of the first `n` bytes, least significant group first. */
  ghost function Collected(b: seq<Byte>, n: nat): nat
    requires n <= |b|
  {
    if n == 0 then 0
    else
      var c: nat := b[n - 1];
      Collected(b, n - 1) + c % 128 * Pow128(n - 1)
  }

  /** The first `n` bytes carry the continuation bit. */
  ghost predicate GoesOn(b: seq<Byte>, n: nat) {
    n <= |b| && forall i :: 0 <= i < n ==> b[i] >= 128
  }

  lemma CollectMore(b: seq<Byte>, n: nat)
    requires n < |b|
    ensures Collected(b, n + 1) == Collected(b, n) + Bits(b[n], n)
  {
  }

  /** The decoder that has read the first `k` of some bytes that all go on reads up to the last of them. */
  lemma {:induction false} DecodeSkips(b: seq<Byte>, k: nat, n: nat)
    requires k <= n < 10 && GoesOn(b, n)
    ensures DecodedFrom(b[k..], k, Collected(b, k)) == DecodedFrom(b[n..], n, Collected(b, n))
    decreases n
  {
    if k < n {
      DecodeSkips(b, k, n - 1);
      DecodeStep(b, n - 1, Collected(b, n - 1));
      CollectMore(b, n - 1);
    }
  }

  lemma FinishMeans(r: nat)
    ensures Finish(r) == if r < TWO63 then r % TWO32 else r % TWO32 - TWO32
  {
  }

  /** Where the first byte without the continuation bit ends the reading. */
  lemma DecodeEnds(b: seq<Byte>, k: nat, n: nat)
    requires k <= n < 10 && n < |b| && GoesOn(b, n) && b[n] < 128
    ensures DecodedFrom(b[k..], k, Collected(b, k)) == Value(Finish(Collected(b, n + 1)), n + 1)
  {
    DecodeSkips(b, k, n);
    DecodeStep(b, n, Collected(b, n));
    CollectMore(b, n);
  }

  lemma DecodeGivesUp(b: seq<Byte>, k: nat, n: nat)
    requires k <= n < 10 && GoesOn(b, n)
    ensures n == |b| ==> DecodedFrom(b[k..], k, Collected(b, k)) == EndOfFile
    ensures n == 9 < |b| && b[n] >= 128 ==> DecodedFrom(b[k..], k, Collected(b, k)) == TooManyBytes
  {
    DecodeSkips(b, k, n);
    if n < |b| {
      DecodeStep(b, n, Collected(b, n));
    }
  }

  /**
    What the decoder makes of any bytes: the groups collected up to the first byte without the continuation bit, an end
    of file if there is none, and an error if ten bytes have it.
   */
  lemma DecodeMeans(b: seq<Byte>, n: nat)
    requires GoesOn(b, n)
    ensures n < 10 && n < |b| && b[n] < 128 ==>
              DecodedFrom(b, 0, 0) == Value(if Collected(b, n + 1) < TWO63 then Collected(b, n + 1) % TWO32
                                            else Collected(b, n + 1) % TWO32 - TWO32, n + 1)
    ensures n < 10 && n == |b| ==> DecodedFrom(b, 0, 0) == EndOfFile
    ensures n >= 10 ==> DecodedFrom(b, 0, 0) == TooManyBytes
  {
    assert b[0..] == b && Collected(b, 0) == 0;
    if n >= 10 {
      DecodeGivesUp(b, 0, 9);
    } else if n == |b| {
      DecodeGivesUp(b, 0, n);
    } else if b[n] < 128 {
      DecodeEnds(b, 0, n);
      FinishMeans(Collected(b, n + 1));
    }
  }

  /** Every byte of an encoding but the last has the continuation bit, and the groups collected are the value. */
  lemma EncodedIsBase128(v: nat)
    ensures var b := Encoded(v); GoesOn(b, |b| - 1) && b[|b| - 1] < 128 && Collected(b, |b|) == v
  {
    EncodedGroups(v, Encoded(v), 0, v);
  }

  /** The encoding of `v` from byte `k` on, when `rest` is left to encode. */
  lemma {:induction false} EncodedGroups(v: nat, b: seq<Byte>, k: nat, rest: nat)
    requires k < |b| && b[k..] == Encoded(rest) && GoesOn(b, k) && Collected(b, k) + rest * Pow128(k) == v
    ensures GoesOn(b, |b| - 1) && b[|b| - 1] < 128 && Collected(b, |b|) == v
    decreases rest
  {
    assert b[k] == b[k..][0];
    FirstByte(rest, []);
    assert Encoded(rest) + [] == Encoded(rest);
    CollectMore(b, k);
    BitsOfFirst(rest, k);
    if rest < 128 {
      assert |b[k..]| == 1;
      assert rest / 128 == 0;
    } else {
      assert b[k + 1..] == b[k..][1..];
      EncodedGroups(v, b, k + 1, rest / 128);
    }
  }

  /** Seven bits per byte: the encoding fits into `n` bytes exactly when the value is below 128^n. */
  lemma {:induction false} EncodedLength(v: nat, n: nat)
    requires n > 0
    ensures |Encoded(v)| <= n <==> v < Pow128(n)
    decreases n
  {
    if v >= 128 && n > 1 {
      EncodedLength(v / 128, n - 1);
    }
    assert Pow128(1) == 128 * Pow128(0);
    assert n > 1 ==> Pow128(n) >= 128 by { if n > 1 { Pow128AtLeast(n - 1); } }
  }

  lemma {:induction false} Pow128AtLeast(n: nat)
    ensures Pow128(n) >= 1 && (n >= 1 ==> Pow128(n) >= 128)
  {
    if n > 0 {
      Pow128AtLeast(n - 1);
    }
  }

  lemma {:induction false} CollectedPrefix(a: seq<Byte>, rest: seq<Byte>, n: nat)
    requires n <= |a|
    ensures Collected(a + rest, n) == Collected(a, n)
  {
    if n > 0 {
      CollectedPrefix(a, rest, n - 1);
    }
  }

  /**
    Decoding an encoding, with anything behind it: below 2^63 the value modulo 2^32, then, up to ten bytes,
    that value sign-extended, and an error beyond. The bytes used are exactly those of the encoding.
   */
  lemma DecodeOfEncode(v: nat, rest: seq<Byte>)
    ensures v < TWO63 ==> DecodedFrom(Encoded(v) + rest, 0, 0) == Value(v % TWO32, |Encoded(v)|)
    ensures TWO63 <= v < Pow128(10) ==> DecodedFrom(Encoded(v) + rest, 0, 0) == Value(v % TWO32 - TWO32, |Encoded(v)|)
    ensures v >= Pow128(10) ==> DecodedFrom(Encoded(v) + rest, 0, 0) == TooManyBytes
  {
    var n := |Encoded(v)|;
    var b := Encoded(v) + rest;
    Pow128Nine();
    EncodedLength(v, 10);
    EncodedIsBase128(v);
    CollectedPrefix(Encoded(v), rest, n);
    assert b[n - 1] == Encoded(v)[n - 1];
    if n <= 10 {
      DecodeMeans(b, n - 1);
    } else {
      DecodeMeans(b, 10);
    }
  }

  lemma Pow128Nine()
    ensures Pow128(9) == TWO63 && Pow128(10) == 128 * TWO63
  {
    assert Pow128(1) == 128 && Pow128(2) == 16384;
    assert Pow128(3) == 2097152 && Pow128(4) == 268435456;
    assert Pow128(5) == 34359738368 && Pow128(6) == 4398046511104;
    assert Pow128(7) == 562949953421312 && Pow128(8) == 72057594037927936;
  }

  /** On every byte stream the decoder stops within ten bytes, with a value between -2^32 and 2^32 if it gives one. */
  lemma {:induction false} DecodeIsBounded(b: seq<Byte>, k: nat, result: nat)
    requires k < 10
    ensures var r := DecodedFrom(b, k, result);
            r.Value? ==> k < r.used <= 10 && r.used - k <= |b| && -TWO32 <= r.v < TWO32
    ensures DecodedFrom(b, k, result).EndOfFile? ==> |b| < 10 - k && forall i :: 0 <= i < |b| ==> b[i] >= 128
    decreases 10 - k
  {
    if b != [] && b[0] >= 128 && k < 9 {
      DecodeIsBounded(b[1..], k + 1, result + Bits(b[0], k));
    }
  }
}
