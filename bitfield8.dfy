/**
 * Mask, shift and single-bit arithmetic on 8-bit registers: the pure part of
 * readBit, readBits, writeBit and writeBits in I2CdevPi.cpp.
 *
 * The source computes `((1 << length) - 1) << (bitStart - length + 1)` in C
 * `int` and truncates the result to `uint8_t`.  For the arguments the source
 * documents (bit positions 0-7, a field that fits below `bitStart`) that
 * `int` never overflows, and arithmetic modulo 2^8 commutes with the
 * truncation, so computing directly in `bv8` gives exactly the truncated C
 * value.  In particular a field as wide as the register gets the all-ones mask
 * (`(1 << 8) - 1` is 255 in `int`, and 0 - 1 is 255 in `bv8`).
 *
 * A field is named here by its least significant bit `lsb` and its `length`.
 * The source names it by its most significant bit `bitStart`; the two are
 * related by `lsb == bitStart - length + 1`, the shift the source applies.
 */
module BitField8 {

  /** Bit `i` of `x` is set. */
  predicate Bit8(x: bv8, i: bv8)
    requires i < 8
  {
    (x >> i) & 1 == 1
  }

  /** A field of `length` bits starting at bit `lsb` fits in the register. */
  predicate Field8(lsb: bv8, length: bv8)
  {
    lsb <= 8 && length <= 8 - lsb
  }

  /** The fields readBits and writeBits accept (`bitStart` 0-7, at most
      `bitStart + 1` bits) are exactly the fields that fit in the register. */
  lemma SourceField8(bitStart: bv8, length: bv8)
    requires bitStart < 8 && length <= bitStart + 1
    ensures Field8(bitStart + 1 - length, length)
  {}

  /** `mask` in readBits and writeBits (I2CdevPi.cpp:140, I2CdevPi.cpp:287): exactly the
      bits `lsb .. lsb + length - 1` set. */
  function Mask8(lsb: bv8, length: bv8): (m: bv8)
    requires Field8(lsb, length)
    ensures forall i: bv8 :: i < 8 ==> (Bit8(m, i) <==> lsb <= i && i - lsb < length)
  {
    ((1 << length) - 1) << lsb
  }

  /** The value readBits stores: the field, right-aligned (I2CdevPi.cpp:140-143).  Every
      bit from `length` upwards is clear, so the value is below 2^length. */
  function Extract8(b: bv8, lsb: bv8, length: bv8): (r: bv8)
    requires Field8(lsb, length)
    ensures r >> length == 0
  {
    (b & Mask8(lsb, length)) >> lsb
  }

  /** The value writeBits writes back (I2CdevPi.cpp:287-291).  Every bit outside the
      mask keeps its old value. */
  function Insert8(b: bv8, lsb: bv8, length: bv8, data: bv8): (r: bv8)
    requires Field8(lsb, length)
    ensures r & !Mask8(lsb, length) == b & !Mask8(lsb, length)
  {
    Merge8(b, data << lsb, Mask8(lsb, length));
    (b & !Mask8(lsb, length)) | ((data << lsb) & Mask8(lsb, length))
  }

  /** Reading back a field just written yields the low `length` bits of the
      data, i.e. the data modulo 2^length: the bits of `data` from `length`
      upwards are discarded. */
  lemma InsertExtract8(b: bv8, lsb: bv8, length: bv8, data: bv8)
    requires Field8(lsb, length)
    ensures Extract8(Insert8(b, lsb, length, data), lsb, length) == data & ((1 << length) - 1)
  {
    Merge8(b, data << lsb, Mask8(lsb, length));
    ShiftAnd8(data, (1 << length) - 1, lsb);
    ShiftBack8(data, lsb, length);
  }

  /** The field comes out right-aligned: masking then shifting down is the
      same as shifting the register down and keeping its low `length` bits. */
  lemma ExtractAligned8(b: bv8, lsb: bv8, length: bv8)
    requires Field8(lsb, length)
    ensures Extract8(b, lsb, length) == (b >> lsb) & ((1 << length) - 1)
  {}

  /** Writing back the field just read leaves the register as it was. */
  lemma ExtractInsert8(b: bv8, lsb: bv8, length: bv8)
    requires Field8(lsb, length)
    ensures Insert8(b, lsb, length, Extract8(b, lsb, length)) == b
  {}

  /** The value readBit stores: `b & (1 << bitNum)`, which is not right-aligned
      (I2CdevPi.cpp:104). */
  function BitValue8(b: bv8, bitNum: bv8): (r: bv8)
    requires bitNum < 8
    ensures r == 0 || r == 1 << bitNum
    ensures r != 0 <==> Bit8(b, bitNum)
  {
    b & (1 << bitNum)
  }

  /** The value writeBit writes back (I2CdevPi.cpp:251): bit `bitNum` is set iff `data`
      is non-zero. */
  function SetBit8(b: bv8, bitNum: bv8, data: bv8): (r: bv8)
    requires bitNum < 8
    ensures Bit8(r, bitNum) <==> data != 0
  {
    OwnBit8(b, bitNum);
    if data != 0 then b | (1 << bitNum) else b & !(1 << bitNum)
  }

  /** writeBit leaves every bit other than `bitNum` as it was. */
  lemma SetBit8Keeps(b: bv8, bitNum: bv8, data: bv8)
    requires bitNum < 8
    ensures SetBit8(b, bitNum, data) & !(1 << bitNum) == b & !(1 << bitNum)
  {
    Merge8(b, !0, 1 << bitNum);
    Merge8(b, 0, 1 << bitNum);
  }

  /** What readBit returns for the value writeBit wrote is non-zero iff the
      data was. */
  lemma SetBitReadBack8(r: bv8, b: bv8, bitNum: bv8, data: bv8)
    requires bitNum < 8 && r == SetBit8(b, bitNum, data)
    ensures BitValue8(r, bitNum) != 0 <==> data != 0
  {
    assert Bit8(r, bitNum) <==> data != 0;
  }

  // Helpers.  The solver handles shifts by a symbolic amount badly on whole
  // words, so the facts above are assembled from these small steps.

  /** Combining `b` outside `m` with `e` inside `m`. */
  lemma Merge8(b: bv8, e: bv8, m: bv8)
    ensures ((b & !m) | (e & m)) & !m == b & !m
    ensures ((b & !m) | (e & m)) & m == e & m
  {}

  lemma OwnBit8(b: bv8, bitNum: bv8)
    requires bitNum < 8
    ensures Bit8(b | (1 << bitNum), bitNum)
    ensures !Bit8(b & !(1 << bitNum), bitNum)
  {}

  lemma ShiftSplit8(x: bv8, s: bv8)
    requires 1 <= s <= 8
    ensures (x << 1) << (s - 1) == x << s
  {}

  /** Shifting left distributes over `&`, by induction on the shift. */
  lemma {:induction false} ShiftAnd8(x: bv8, y: bv8, s: bv8)
    requires s <= 8
    ensures (x << s) & (y << s) == (x & y) << s
    decreases s
  {
    if s != 0 {
      ShiftAnd8(x << 1, y << 1, s - 1);
      ShiftSplit8(x, s);
      ShiftSplit8(y, s);
      ShiftSplit8(x & y, s);
      assert (x << 1) & (y << 1) == (x & y) << 1;
    }
  }

  /** A field shifted up into place and back down again is unchanged. */
  lemma ShiftBack8(x: bv8, lsb: bv8, length: bv8)
    requires Field8(lsb, length)
    ensures ((x & ((1 << length) - 1)) << lsb) >> lsb == x & ((1 << length) - 1)
  {}

  /** The example in the comment of readBits (I2CdevPi.cpp:133-137): the field
      of 3 bits ending at bit 4 of 01101001 reads as 010. */
  lemma Extract8Example()
    ensures Extract8(0x69, 2, 3) == 0x2
  {}

  /** The example in the comment of writeBits (I2CdevPi.cpp:278-284): writing
      010 into the field of 3 bits ending at bit 4 of 10101111 gives
      10101011. */
  lemma Insert8Example()
    ensures Mask8(2, 3) == 0x1C
    ensures Insert8(0xAF, 2, 3, 0x2) == 0xAB
  {}
}
