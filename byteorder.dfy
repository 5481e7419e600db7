/**
 * Byte order of 16-bit register transfers.
 *
 * SMBus Read Word and Write Word (section 6.5.4 and 6.5.5 of the System
 * Management Bus specification, version 3) carry the low data byte first.
 * Devices such as the ADS1115 send and expect the high byte first, so
 * readWords swaps the bytes of every word it receives (I2CdevPi.cpp:234-235)
 * and writeWords swaps every word before sending it (I2CdevPi.cpp:384-385).
 */
module ByteOrder {

  /** The low and the high byte of a word. */
  function Lo(w: bv16): bv8
  {
    (w & 0xFF) as bv8
  }

  function Hi(w: bv16): bv8
  {
    (w >> 8) as bv8
  }

  /** `__bswap_16`: the two bytes of the word exchanged. */
  function Bswap16(w: bv16): (r: bv16)
    ensures Hi(r) == Lo(w) && Lo(r) == Hi(w)
  {
    (w << 8) | (w >> 8)
  }

  /** Swapping twice gives back the word. */
  lemma Bswap16Involution(w: bv16)
    ensures Bswap16(Bswap16(w)) == w
  {}

  /** A word is determined by its two bytes. */
  lemma WordFromBytes(v: bv16, w: bv16)
    requires Hi(v) == Hi(w) && Lo(v) == Lo(w)
    ensures v == w
  {}

  /** The data bytes of an SMBus Write Word or Read Word, in bus order: the
      low byte first. */
  function SmbusDataBytes(w: bv16): (bytes: seq<bv8>)
    ensures |bytes| == 2
  {
    [Lo(w), Hi(w)]
  }

  /** The word an SMBus Read Word assembles from its two data bytes. */
  function SmbusWord(first: bv8, second: bv8): (w: bv16)
    ensures SmbusDataBytes(w) == [first, second]
  {
    ((second as bv16) << 8) | (first as bv16)
  }

  /** The bytes writeWords puts on the bus for a register value: the high
      byte first. */
  function WordOnWire(data: bv16): (bytes: seq<bv8>)
    ensures bytes == [Hi(data), Lo(data)]
  {
    SmbusDataBytes(Bswap16(data))
  }

  /** The value readWords stores for the two bytes a device sends: the first
      byte is the high byte. */
  function WordFromWire(first: bv8, second: bv8): (w: bv16)
    ensures Hi(w) == first && Lo(w) == second
  {
    Bswap16(SmbusWord(first, second))
  }

  /** A word written by writeWords and sent back unchanged by the device is
      read back by readWords as the same word. */
  lemma WireRoundTrip(w: bv16)
    ensures WordFromWire(WordOnWire(w)[0], WordOnWire(w)[1]) == w
  {
    WordFromBytes(WordFromWire(Hi(w), Lo(w)), w);
  }

  /** Writing 0x1234 puts 0x12 and then 0x34 on the bus. */
  lemma WireExample()
    ensures WordOnWire(0x1234) == [0x12, 0x34]
  {}
}
