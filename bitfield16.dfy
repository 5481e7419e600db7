/**
 * Mask, shift and single-bit arithmetic on 16-bit registers: the pure part of
 * readBitW, readBitsW, writeBitW and writeBitsW in I2CdevPi.cpp.
 *
 * The source computes `((1 << length) - 1) << (bitStart - length + 1)` in C
 * `int` and truncates the result to `uint16_t`.  For the arguments the source
 * documents (bit positions 0-15, a field that fits below `bitStart`) that
 * `int` never overflows, and arithmetic modulo 2^16 commutes with the
 * truncation, so computing directly in `bv16` gives exactly the truncated C
 * value.  In particular a field as wide as the register gets the all-ones mask
 * (`(1 << 16) - 1` is 65535 in `int`, and 0 - 1 is 65535 in `bv16`).
 *
 * A field is named here by its least significant bit `lsb` and its `length`.
 * The source names it by its most significant bit `bitStart`; the two are
 * related by `lsb == bitStart - length + 1`, the shift the source applies.
 */
module BitField16 {

  /** Bit `i` of `x` is set. */
  predicate Bit16(x: bv16, i: bv8)
    requires i < 16
  {
    (x >> i) & 1 == 1
  }

  /** A field of `length` bits starting at bit `lsb` fits in the register. */
  predicate Field16(lsb: bv8, length: bv8)
  {
    lsb <= 16 && length <= 16 - lsb
  }

  /** The fields readBitsW and writeBitsW accept (`bitStart` 0-15, at most
      `bitStart + 1` bits) are exactly the fields that fit in the register. */
  lemma SourceField16(bitStart: bv8, length: bv8)
    requires bitStart < 16 && length <= bitStart + 1
    ensures Field16(bitStart + 1 - length, length)
  {}

  /** `mask` in readBitsW and writeBitsW (I2CdevPi.cpp:166, I2CdevPi.cpp:316): exactly the
      bits `lsb .. lsb + length - 1` set. */
  function Mask16(lsb: bv8, length: bv8): (m: bv16)
    requires Field16(lsb, length)
    ensures forall i: bv8 :: i < 16 ==> (Bit16(m, i) <==> lsb <= i && i - lsb < length)
  {
    ((1 << length) - 1) << lsb
  }

  /** The value readBitsW stores: the field, right-aligned (I2CdevPi.cpp:166-169).  Every
      bit from `length` upwards is clear, so the value is below 2^length. */
  function Extract16(b: bv16, lsb: bv8, length: bv8): (r: bv16)
    requires Field16(lsb, length)
    ensures r >> length == 0
  {
    (b & Mask16(lsb, length)) >> lsb
  }

  /** The value writeBitsW writes back (I2CdevPi.cpp:316-320).  Every bit outside the
      mask keeps its old value. */
  function Insert16(b: bv16, lsb: bv8, length: bv8, data: bv16): (r: bv16)
    requires Field16(lsb, length)
    ensures r & !Mask16(lsb, length) == b & !Mask16(lsb, length)
  {
    Merge16(b, data << lsb, Mask16(lsb, length));
    (b & !Mask16(lsb, length)) | ((data << lsb) & Mask16(lsb, length))
  }

  /** Reading back a field just written yields the low `length` bits of the
      data, i.e. the data modulo 2^length: the bits of `data` from `length`
      upwards are discarded. */
  lemma InsertExtract16(b: bv16, lsb: bv8, length: bv8, data: bv16)
    requires Field16(lsb, length)
    ensures Extract16(Insert16(b, lsb, length, data), lsb, length) == data & ((1 << length) - 1)
  {
    Merge16(b, data << lsb, Mask16(lsb, length));
    ShiftAnd16(data, (1 << length) - 1, lsb);
    ShiftBack16(data, lsb, length);
  }

  /** The field comes out right-aligned: masking then shifting down is the
      same as shifting the register down and keeping its low `length` bits. */
  lemma ExtractAligned16(b: bv16, lsb: bv8, length: bv8)
    requires Field16(lsb, length)
    ensures Extract16(b, lsb, length) == (b >> lsb) & ((1 << length) - 1)
  {}

  /** Writing back the field just read leaves the register as it was. */
  lemma ExtractInsert16(b: bv16, lsb: bv8, length: bv8)
    requires Field16(lsb, length)
    ensures Insert16(b, lsb, length, Extract16(b, lsb, length)) == b
  {}

  /** The value readBitW stores: `b & (1 << bitNum)`, which is not right-aligned
      (I2CdevPi.cpp:119). */
  function BitValue16(b: bv16, bitNum: bv8): (r: bv16)
    requires bitNum < 16
    ensures r == 0 || r == 1 << bitNum
    ensures r != 0 <==> Bit16(b, bitNum)
  {
    b & (1 << bitNum)
  }

  /** The value writeBitW writes back (I2CdevPi.cpp:265): bit `bitNum` is set iff `data`
      is non-zero. */
  function SetBit16(b: bv16, bitNum: bv8, data: bv16): (r: bv16)
    requires bitNum < 16
    ensures Bit16(r, bitNum) <==> data != 0
  {
    OwnBit16(b, bitNum);
    if data != 0 then b | (1 << bitNum) else b & !(1 << bitNum)
  }

  /** writeBitW leaves every bit other than `bitNum` as it was. */
  lemma SetBit16Keeps(b: bv16, bitNum: bv8, data: bv16)
    requires bitNum < 16
    ensures SetBit16(b, bitNum, data) & !(1 << bitNum) == b & !(1 << bitNum)
  {
    if data != 0 {
      Merge16(b, !0, 1 << bitNum);
    } else {
      Merge16(b, 0, 1 << bitNum);
    }
  }

  /** What readBitW returns for the value writeBitW wrote is non-zero iff
      the data was. */
  lemma SetBitReadBack16(r: bv16, b: bv16, bitNum: bv8, data: bv16)
    requires bitNum < 16 && r == SetBit16(b, bitNum, data)
    ensures BitValue16(r, bitNum) != 0 <==> data != 0
  {
    assert Bit16(r, bitNum) <==> data != 0;
  }

  // Helpers.  The solver handles shifts by a symbolic amount badly on whole
  // words, so the facts above are assembled from these small steps.

  /** Combining `b` outside `m` with `e` inside `m`. */
  lemma Merge16(b: bv16, e: bv16, m: bv16)
    ensures ((b & !m) | (e & m)) & !m == b & !m
    ensures ((b & !m) | (e & m)) & m == e & m
  {}

  lemma OwnBit16(b: bv16, bitNum: bv8)
    requires bitNum < 16
    ensures Bit16(b | (1 << bitNum), bitNum)
    ensures !Bit16(b & !(1 << bitNum), bitNum)
  {}

  lemma ShiftSplit16(x: bv16, s: bv8)
    requires 1 <= s <= 16
    ensures (x << 1) << (s - 1) == x << s
  {}

  /** Shifting left distributes over `&`, by induction on the shift. */
  lemma {:induction false} ShiftAnd16(x: bv16, y: bv16, s: bv8)
    requires s <= 16
    ensures (x << s) & (y << s) == (x & y) << s
    decreases s
  {
    if s != 0 {
      ShiftAnd16(x << 1, y << 1, s - 1);
      ShiftSplit16(x, s);
      ShiftSplit16(y, s);
      ShiftSplit16(x & y, s);
      assert (x << 1) & (y << 1) == (x & y) << 1;
    }
  }

  /** A field shifted up into place and back down again is unchanged. */
  lemma ShiftBack16(x: bv16, lsb: bv8, length: bv8)
    requires Field16(lsb, length)
    ensures ((x & ((1 << length) - 1)) << lsb) >> lsb == x & ((1 << length) - 1)
  {}

  /** The sample word in the comment of readBitsW (I2CdevPi.cpp:158-162): the
      field of 3 bits ending at bit 12 of 1101011001101001 holds 101, and that
      is what readBitsW returns (the comment shows 010). */
  lemma Extract16Example()
    ensures Extract16(0xD669, 10, 3) == 0x5
  {}

  /** The example in the comment of writeBitsW (I2CdevPi.cpp:307-313): writing
      010 into the field of 3 bits ending at bit 12 of 1010111110010110 gives
      1010101110010110. */
  lemma Insert16Example()
    ensures Mask16(10, 3) == 0x1C00
    ensures Insert16(0xAF96, 10, 3, 0x2) == 0xAB96
  {}
}
