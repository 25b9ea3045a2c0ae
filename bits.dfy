/** Bit packing of the de-jitter collector: comparison outcomes are shifted
    into an 8-bit accumulator, the earliest outcome ending up most significant. */
module Bits {

  /** The mask selecting bit `i`, counted from the most significant bit
      (i == 0) down to the least significant one (i == 7). */
  function Mask(i: nat): bv8
    requires i < 8
  {
    match i
    case 0 => 0x80 case 1 => 0x40 case 2 => 0x20 case 3 => 0x10
    case 4 => 0x08 case 5 => 0x04 case 6 => 0x02 case _ => 0x01
  }

  /** Bit `i` of `b`, counted from the most significant one. */
  function BitOf(b: bv8, i: nat): bool
    requires i < 8
  {
    b & Mask(i) != 0
  }

  /** One step of the accumulator: shift left by one (dropping the top bit,
      the accumulator being an unsigned char) and put the outcome in bit 0.
      Every old bit moves one place up and the outcome becomes the lowest bit. */
  function ShiftIn(b: bv8, bit: bool): (r: bv8)
    ensures BitOf(r, 7) == bit
    ensures forall i :: 0 <= i < 7 ==> BitOf(r, i) == BitOf(b, i + 1)
  {
    (b << 1) | (if bit then 1 else 0)
  }

  /** As a number, the new accumulator is twice the old one modulo 256, plus
      the outcome. */
  lemma ShiftInValue(b: bv8, bit: bool)
    ensures ShiftIn(b, bit) as int == (b as int * 2) % 256 + (if bit then 1 else 0)
  {
    assert (b << 1) as int == (b as int * 2) % 256;
    assert ShiftIn(b, bit) == (b << 1) + (if bit then 1 else 0);
  }

  /** The accumulator step as two statements: shift, then set bit 0 for a 1. */
  lemma ShiftInSteps(b: bv8)
    ensures ShiftIn(b, false) == b << 1 && ShiftIn(b, true) == (b << 1) | 1
  {
  }

  /** The accumulator after shifting in every outcome of `bs`, starting from `b`. */
  function Accumulate(b: bv8, bs: seq<bool>): bv8
  {
    if bs == [] then b else ShiftIn(Accumulate(b, bs[..|bs| - 1]), bs[|bs| - 1])
  }

  /** The byte made of exactly eight outcomes. */
  function Pack(bs: seq<bool>): bv8
    requires |bs| == 8
  {
    Accumulate(0, bs)
  }

  /** The eight outcomes a byte holds, most significant first. */
  function Unpack(b: bv8): (bs: seq<bool>)
    ensures |bs| == 8
  {
    seq(8, i requires 0 <= i < 8 => BitOf(b, i))
  }

  /** The bytes formed by grouping `h` into runs of eight outcomes, in order:
      byte `j` packs outcomes 8j .. 8j+7, and a trailing incomplete group
      forms no byte. */
  function Bytes(h: seq<bool>): (r: seq<bv8>)
    ensures |r| == |h| / 8
  {
    seq(|h| / 8, j requires 0 <= j < |h| / 8 => Pack(h[8 * j..8 * j + 8]))
  }

  /** Two bytes with the same eight bits are equal. */
  lemma SameBits(x: bv8, y: bv8)
    requires forall i :: 0 <= i < 8 ==> BitOf(x, i) == BitOf(y, i)
    ensures x == y
  {
    assert BitOf(x, 0) == BitOf(y, 0) && BitOf(x, 1) == BitOf(y, 1);
    assert BitOf(x, 2) == BitOf(y, 2) && BitOf(x, 3) == BitOf(y, 3);
    assert BitOf(x, 4) == BitOf(y, 4) && BitOf(x, 5) == BitOf(y, 5);
    assert BitOf(x, 6) == BitOf(y, 6) && BitOf(x, 7) == BitOf(y, 7);
  }

  /** After shifting in `bs`, the low bits hold the last outcomes of `bs` and
      the high bits hold what is left of `b`. */
  lemma {:induction false} AccumulateBits(b: bv8, bs: seq<bool>, i: nat)
    requires i < 8
    ensures BitOf(Accumulate(b, bs), i) ==
              if 8 - |bs| <= i then bs[|bs| - 8 + i] else BitOf(b, i + |bs|)
    decreases |bs|
  {
    if bs != [] {
      var init, last := bs[..|bs| - 1], bs[|bs| - 1];
      if i < 7 {
        AccumulateBits(b, init, i + 1);
        assert init + [last] == bs;
      }
    }
  }

  /** Outcome `i` of a packed byte is bit `i` counted from the most significant one. */
  lemma PackBits(bs: seq<bool>, i: nat)
    requires |bs| == 8 && i < 8
    ensures BitOf(Pack(bs), i) == bs[i]
  {
    AccumulateBits(0, bs, i);
  }

  /** Only the eight most recent outcomes survive in the accumulator: whatever
      it held before, and every earlier outcome, has been shifted out. */
  lemma LastEight(b: bv8, h: seq<bool>)
    requires |h| >= 8
    ensures Accumulate(b, h) == Pack(h[|h| - 8..])
  {
    var last := h[|h| - 8..];
    var x, y := Accumulate(b, h), Pack(last);
    forall i | 0 <= i < 8 ensures BitOf(x, i) == BitOf(y, i) {
      AccumulateBits(b, h, i);
      PackBits(last, i);
      assert last[i] == h[|h| - 8 + i];
    }
    SameBits(x, y);
  }

  /** Packing and unpacking are inverse to each other. */
  lemma UnpackPack(bs: seq<bool>)
    requires |bs| == 8
    ensures Unpack(Pack(bs)) == bs
  {
    forall i | 0 <= i < 8 ensures Unpack(Pack(bs))[i] == bs[i] {
      PackBits(bs, i);
    }
  }

  lemma PackUnpack(b: bv8)
    ensures Pack(Unpack(b)) == b
  {
    forall i | 0 <= i < 8 ensures BitOf(Pack(Unpack(b)), i) == BitOf(b, i) {
      PackBits(Unpack(b), i);
    }
    SameBits(Pack(Unpack(b)), b);
  }

  /** One more outcome that leaves the count short of a multiple of eight
      forms no new byte. */
  lemma BytesSnocPartial(h: seq<bool>, x: bool)
    requires (|h| + 1) % 8 != 0
    ensures Bytes(h + [x]) == Bytes(h)
  {
    var h' := h + [x];
    assert |h'| / 8 == |h| / 8;
    forall j | 0 <= j < |h| / 8 ensures h'[8 * j..8 * j + 8] == h[8 * j..8 * j + 8] {
    }
  }

  /** One more outcome that makes the count a multiple of eight completes a
      byte, which packs the last eight outcomes. */
  lemma BytesSnocComplete(h: seq<bool>, x: bool)
    requires (|h| + 1) % 8 == 0
    ensures Bytes(h + [x]) == Bytes(h) + [Pack((h + [x])[|h| + 1 - 8..])]
  {
    var h' := h + [x];
    var m := |h| / 8;
    assert |h'| / 8 == m + 1 && 8 * m + 8 == |h'|;
    forall j | 0 <= j < m ensures h'[8 * j..8 * j + 8] == h[8 * j..8 * j + 8] {
    }
    assert h'[8 * m..8 * m + 8] == h'[|h| + 1 - 8..];
  }
}
