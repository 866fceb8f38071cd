/** Bytes and the little-endian words that the binary formats store. */
module Bytes {

  /** An element of a buffer. `Low` is its value as an `unsigned char`; only the integers below 256
      are bytes, and whatever else stands in a sequence reads as zero. */
  type Byte = int

  const LIMIT16: nat := 0x1_0000
  const LIMIT32: nat := 0x1_0000_0000

  predicate IsBytes(b: seq<Byte>) {
    forall i :: 0 <= i < |b| ==> 0 <= b[i] < 0x100
  }

  function Low(b: Byte): (n: nat)
    ensures n < 0x100
  {
    if 0 <= b < 0x100 then b else 0
  }

  /** `read_le16`. */
  function Le16(b: seq<Byte>, i: nat): (n: nat)
    requires i + 2 <= |b|
    ensures n < LIMIT16
  {
    Low(b[i]) + 0x100 * Low(b[i + 1])
  }

  /** `read_le32`. */
  function Le32(b: seq<Byte>, i: nat): (n: nat)
    requires i + 4 <= |b|
    ensures n < LIMIT32
  {
    Le16(b, i) + LIMIT16 * Le16(b, i + 2)
  }

  ghost function Enc16(n: nat): (b: seq<Byte>)
    requires n < LIMIT16
    ensures |b| == 2 && Le16(b, 0) == n
  {
    assert n == n % 0x100 + 0x100 * (n / 0x100);
    var low: nat, high: nat :| low < 0x100 && n == low + 0x100 * high;
    [low, high]
  }

  ghost function Enc32(n: nat): (b: seq<Byte>)
    requires n < LIMIT32
    ensures |b| == 4 && Le32(b, 0) == n
  {
    Enc16(n % LIMIT16) + Enc16(n / LIMIT16)
  }

  /** Two (four) bytes are the encoding of the word they hold. */
  lemma Enc16Of(b: seq<Byte>)
    requires |b| == 2 && IsBytes(b)
    ensures Enc16(Le16(b, 0)) == b
  {
  }

  lemma Enc32Of(b: seq<Byte>)
    requires |b| == 4 && IsBytes(b)
    ensures Enc32(Le32(b, 0)) == b
  {
    var low, high := b[..2], b[2..];
    Enc16Of(low);
    Enc16Of(high);
    assert Le16(low, 0) == Le16(b, 0) && Le16(high, 0) == Le16(b, 2);
    Enc32Halves(Le16(low, 0), Le16(high, 0));
    assert b == low + high;
  }

  lemma Enc32Halves(low: nat, high: nat)
    requires low < LIMIT16 && high < LIMIT16
    ensures low + LIMIT16 * high < LIMIT32 && Enc32(low + LIMIT16 * high) == Enc16(low) + Enc16(high)
  {
    var n := low + LIMIT16 * high;
    assert n / LIMIT16 == high && n % LIMIT16 == low;
  }

  /** A word is read from its own bytes only. */
  lemma Le16Slice(b: seq<Byte>, i: nat)
    requires i + 2 <= |b|
    ensures Le16(b[i..i + 2], 0) == Le16(b, i)
  {
  }

  lemma Le32Slice(b: seq<Byte>, i: nat)
    requires i + 4 <= |b|
    ensures Le32(b[i..i + 4], 0) == Le32(b, i)
  {
  }
}
