/**
 * The I2Cdev register-access layer (I2CdevPi.cpp).
 *
 * The static session fields become fields of one `I2Cdev` object, and the
 * devices on the bus become two register stores in that object.  The
 * platform calls are replaced as follows:
 * - `wiringPiI2CSetup` and `ioctl(I2C_SLAVE)` take their outcome from a
 *   `Platform` argument;
 * - the four wiringPi register calls become the small methods `ReadReg8`,
 *   `ReadReg16`, `WriteReg8` and `WriteReg16` on the stores.
 * Every caller buffer (`uint8_t *data`, `uint16_t *data`) is an array, and a
 * single-value out-parameter is an array of length one.
 */
module I2CdevPi {
  import opened BusSession
  import opened ByteOrder
  import opened RegisterStore
  import opened BitField8
  import opened BitField16

  class I2Cdev {
    /** The static session fields (I2CdevPi.cpp:27-28). */
    var handle: int
    var currentDevAddr: bv8

    /** The devices' 8-bit registers and 16-bit registers.  A 16-bit register
        holds the word as SMBus carries it, i.e. before any byte swap. */
    var regs8: map<Key, bv8>
    var regs16: map<Key, bv16>

    /** How many times the handle has been rebound (`ioctl(I2C_SLAVE)`). */
    ghost var rebinds: nat

    /** The session as it stands. */
    function Bus(): Session
      reads this
    {
      Session(handle, currentDevAddr)
    }

    predicate Valid()
      reads this
    {
      BusSession.Valid(Bus())
    }

    /** The static initialisers (I2CdevPi.cpp:27-28), with the devices' initial
        registers. */
    constructor (regs8: map<Key, bv8>, regs16: map<Key, bv16>)
      ensures Bus() == Initial() && Valid()
      ensures this.regs8 == regs8 && this.regs16 == regs16
      ensures rebinds == 0
    {
      handle := -1;
      currentDevAddr := 0;
      this.regs8 := regs8;
      this.regs16 := regs16;
      rebinds := 0;
    }

    /** openDevice (I2CdevPi.cpp:56-81), step by step on the fields; it does
        what BusSession.OpenDevice states. */
    method OpenDevice(devAddr: bv8, p: Platform) returns (ok: bool)
      modifies this`handle, this`currentDevAddr, this`rebinds
      ensures var o := BusSession.OpenDevice(old(Bus()), devAddr, p);
        Bus() == o.session && ok == o.ok && rebinds == old(rebinds) + Rebinds(o)
      ensures old(Valid()) ==> Valid()
    {
      if handle < 0 {
        handle := p.setupHandle;
        if handle >= 0 {
          currentDevAddr := devAddr;
          return true;
        }
      } else {
        if currentDevAddr != devAddr {
          rebinds := rebinds + 1;
          if !p.selectOk {
            return false;
          } else {
            currentDevAddr := devAddr;
          }
        }
      }
      return true;
    }

    /** The guard in front of every transfer (I2CdevPi.cpp:206-208, 227-229,
        356-358, 377-379): openDevice only if the address differs from the
        bound one, and its result ignored. */
    method SelectDevice(devAddr: bv8, p: Platform)
      modifies this`handle, this`currentDevAddr, this`rebinds
      ensures var o := Select(old(Bus()), devAddr, p);
        Bus() == o.session && rebinds == old(rebinds) + Rebinds(o)
      ensures old(Valid()) ==> Valid()
    {
      if devAddr != currentDevAddr {
        var _ := OpenDevice(devAddr, p);
      }
    }

    /** `wiringPiI2CReadReg8(handle, reg)`, cast to `uint8_t`. */
    method ReadReg8(reg: int) returns (v: bv8)
      ensures v == Fetch(regs8, Bus(), reg, NoAck8)
    {
      v := Fetch(regs8, Bus(), reg, NoAck8);
    }

    /** `wiringPiI2CReadReg16(handle, reg)`, cast to `uint16_t`. */
    method ReadReg16(reg: int) returns (v: bv16)
      ensures v == Fetch(regs16, Bus(), reg, NoAck16)
    {
      v := Fetch(regs16, Bus(), reg, NoAck16);
    }

    /** `wiringPiI2CWriteReg8(handle, reg, v)`. */
    method WriteReg8(reg: int, v: bv8)
      modifies this`regs8
      ensures regs8 == Put(old(regs8), Bus(), reg, v)
    {
      regs8 := Put(regs8, Bus(), reg, v);
    }

    /** `wiringPiI2CWriteReg16(handle, reg, v)`. */
    method WriteReg16(reg: int, v: bv16)
      modifies this`regs16
      ensures regs16 == Put(old(regs16), Bus(), reg, v)
    {
      regs16 := Put(regs16, Bus(), reg, v);
    }

    /** readBytes (I2CdevPi.cpp:204-216): open the device only if the address
        differs, ignore the result, then read registers `regAddr ..
        regAddr + length - 1` in order into `data`.  Returns `length`.  The
        `int8_t` loop counter needs `length <= 127`. */
    method ReadBytes(devAddr: bv8, regAddr: bv8, length: nat, data: array<bv8>, p: Platform) returns (count: int)
      requires length <= 127 && length <= data.Length
      modifies this, data
      ensures old(Valid()) ==> Valid()
      ensures count == length
      ensures var o := Select(old(Bus()), devAddr, p);
        && Bus() == o.session
        && rebinds == old(rebinds) + Rebinds(o)
        && forall i :: 0 <= i < length ==> data[i] == Fetch(regs8, o.session, regAddr as int + i, NoAck8)
      ensures forall i :: length <= i < data.Length ==> data[i] == old(data[i])
      ensures regs8 == old(regs8) && regs16 == old(regs16)
    {
      SelectDevice(devAddr, p);
      count := 0;
      while count < length
        modifies data
        invariant 0 <= count <= length
        invariant forall i :: 0 <= i < count ==> data[i] == Fetch(regs8, Bus(), regAddr as int + i, NoAck8)
        invariant forall i :: length <= i < data.Length ==> data[i] == old(data[i])
      {
        data[count] := ReadReg8(regAddr as int + count);
        count := count + 1;
      }
    }

    /** readWords (I2CdevPi.cpp:226-239): like readBytes, but every raw word
        is byte-swapped before it is stored. */
    method ReadWords(devAddr: bv8, regAddr: bv8, length: nat, data: array<bv16>, p: Platform) returns (count: int)
      requires length <= 127 && length <= data.Length
      modifies this, data
      ensures old(Valid()) ==> Valid()
      ensures count == length
      ensures var o := Select(old(Bus()), devAddr, p);
        && Bus() == o.session
        && rebinds == old(rebinds) + Rebinds(o)
        && forall i :: 0 <= i < length ==> data[i] == Bswap16(Fetch(regs16, o.session, regAddr as int + i, NoAck16))
      ensures forall i :: length <= i < data.Length ==> data[i] == old(data[i])
      ensures regs8 == old(regs8) && regs16 == old(regs16)
    {
      SelectDevice(devAddr, p);
      count := 0;
      while count < length
        modifies data
        invariant 0 <= count <= length
        invariant forall i :: 0 <= i < count ==> data[i] == Bswap16(Fetch(regs16, Bus(), regAddr as int + i, NoAck16))
        invariant forall i :: length <= i < data.Length ==> data[i] == old(data[i])
      {
        data[count] := ReadReg16(regAddr as int + count);
        data[count] := Bswap16(data[count]);
        count := count + 1;
      }
    }

    /** writeBytes (I2CdevPi.cpp:354-366): open the device only if the address
        differs, ignore the result, write `data[0 .. length - 1]` to registers
        `regAddr ..` in order, and return true whatever happened. */
    method WriteBytes(devAddr: bv8, regAddr: bv8, length: nat, data: array<bv8>, p: Platform) returns (ok: bool)
      requires length <= 127 && length <= data.Length
      modifies this
      ensures old(Valid()) ==> Valid()
      ensures ok
      ensures var o := Select(old(Bus()), devAddr, p);
        && Bus() == o.session
        && rebinds == old(rebinds) + Rebinds(o)
        && regs8 == WriteRun(old(regs8), o.session, regAddr as int, data[..length])
      ensures regs16 == old(regs16)
    {
      SelectDevice(devAddr, p);
      ghost var before := regs8;
      ghost var sent := data[..length];
      var count := 0;
      while count < length
        modifies this`regs8
        invariant 0 <= count <= length
        invariant regs8 == WriteRun(before, Bus(), regAddr as int, sent[..count])
      {
        WriteRunStep(before, Bus(), regAddr as int, sent, count);
        WriteReg8(regAddr as int + count, data[count]);
        count := count + 1;
      }
      assert sent[..length] == sent;
      return true;
    }

    /** writeWords (I2CdevPi.cpp:375-389): like writeBytes, but every word is
        byte-swapped before it is sent. */
    method WriteWords(devAddr: bv8, regAddr: bv8, length: nat, data: array<bv16>, p: Platform) returns (ok: bool)
      requires length <= 127 && length <= data.Length
      modifies this
      ensures old(Valid()) ==> Valid()
      ensures ok
      ensures var o := Select(old(Bus()), devAddr, p);
        && Bus() == o.session
        && rebinds == old(rebinds) + Rebinds(o)
        && regs16 == WriteRun(old(regs16), o.session, regAddr as int, SwapAll(data[..length]))
      ensures regs8 == old(regs8)
    {
      SelectDevice(devAddr, p);
      ghost var before := regs16;
      ghost var sent := SwapAll(data[..length]);
      var count := 0;
      while count < length
        modifies this`regs16
        invariant 0 <= count <= length
        invariant regs16 == WriteRun(before, Bus(), regAddr as int, sent[..count])
      {
        var value := Bswap16(data[count]);
        assert sent[count] == value;
        WriteRunStep(before, Bus(), regAddr as int, sent, count);
        WriteReg16(regAddr as int + count, value);
        count := count + 1;
      }
      assert sent[..length] == sent;
      assert regs16 == WriteRun(before, Bus(), regAddr as int, sent);
      return true;
    }

    /** readByte (I2CdevPi.cpp:181-183): readBytes of one register. */
    method ReadByte(devAddr: bv8, regAddr: bv8, data: array<bv8>, p: Platform) returns (count: int)
      requires 1 <= data.Length
      modifies this, data
      ensures old(Valid()) ==> Valid()
      ensures count == 1
      ensures var o := Select(old(Bus()), devAddr, p);
        && Bus() == o.session
        && rebinds == old(rebinds) + Rebinds(o)
        && data[0] == Fetch(regs8, o.session, regAddr as int, NoAck8)
      ensures data[1..] == old(data[1..])
      ensures regs8 == old(regs8) && regs16 == old(regs16)
    {
      count := ReadBytes(devAddr, regAddr, 1, data, p);
    }

    /** readWord (I2CdevPi.cpp:192-194): readWords of one register; the value
        is the raw bus word byte-swapped. */
    method ReadWord(devAddr: bv8, regAddr: bv8, data: array<bv16>, p: Platform) returns (count: int)
      requires 1 <= data.Length
      modifies this, data
      ensures old(Valid()) ==> Valid()
      ensures count == 1
      ensures var o := Select(old(Bus()), devAddr, p);
        && Bus() == o.session
        && rebinds == old(rebinds) + Rebinds(o)
        && data[0] == Bswap16(Fetch(regs16, o.session, regAddr as int, NoAck16))
      ensures data[1..] == old(data[1..])
      ensures regs8 == old(regs8) && regs16 == old(regs16)
    {
      count := ReadWords(devAddr, regAddr, 1, data, p);
    }

    /** readBit (I2CdevPi.cpp:101-106): the register value with every bit but
        `bitNum` cleared; the count of readByte is passed on. */
    method ReadBit(devAddr: bv8, regAddr: bv8, bitNum: bv8, data: array<bv8>, p: Platform) returns (count: int)
      requires bitNum < 8 && 1 <= data.Length
      modifies this, data
      ensures old(Valid()) ==> Valid()
      ensures count == 1
      ensures var o := Select(old(Bus()), devAddr, p);
        && Bus() == o.session
        && rebinds == old(rebinds) + Rebinds(o)
        && data[0] == BitValue8(Fetch(regs8, o.session, regAddr as int, NoAck8), bitNum)
      ensures data[1..] == old(data[1..])
      ensures regs8 == old(regs8) && regs16 == old(regs16)
    {
      var b := new bv8[1];
      count := ReadByte(devAddr, regAddr, b, p);
      data[0] := BitValue8(b[0], bitNum);
    }

    /** readBitW (I2CdevPi.cpp:116-121). */
    method ReadBitW(devAddr: bv8, regAddr: bv8, bitNum: bv8, data: array<bv16>, p: Platform) returns (count: int)
      requires bitNum < 16 && 1 <= data.Length
      modifies this, data
      ensures old(Valid()) ==> Valid()
      ensures count == 1
      ensures var o := Select(old(Bus()), devAddr, p);
        && Bus() == o.session
        && rebinds == old(rebinds) + Rebinds(o)
        && data[0] == BitValue16(Bswap16(Fetch(regs16, o.session, regAddr as int, NoAck16)), bitNum)
      ensures data[1..] == old(data[1..])
      ensures regs8 == old(regs8) && regs16 == old(regs16)
    {
      var w := new bv16[1];
      count := ReadWord(devAddr, regAddr, w, p);
      data[0] := BitValue16(w[0], bitNum);
    }

    /** readBits (I2CdevPi.cpp:132-146): the field of `length` bits whose
        highest bit is `bitStart`, right-aligned.  `data` is written only when
        readByte reports a non-zero count, which it always does. */
    method ReadBits(devAddr: bv8, regAddr: bv8, bitStart: bv8, length: bv8, data: array<bv8>, p: Platform) returns (count: int)
      requires bitStart < 8 && length <= bitStart + 1 && 1 <= data.Length
      modifies this, data
      ensures old(Valid()) ==> Valid()
      ensures count == 1
      ensures Field8(bitStart + 1 - length, length)
      ensures var o := Select(old(Bus()), devAddr, p);
        && Bus() == o.session
        && rebinds == old(rebinds) + Rebinds(o)
        && data[0] == Extract8(Fetch(regs8, o.session, regAddr as int, NoAck8), bitStart + 1 - length, length)
      ensures data[1..] == old(data[1..])
      ensures regs8 == old(regs8) && regs16 == old(regs16)
    {
      SourceField8(bitStart, length);
      var b := new bv8[1];
      count := ReadByte(devAddr, regAddr, b, p);
      if count != 0 {
        data[0] := Extract8(b[0], bitStart + 1 - length, length);
      }
    }

    /** readBitsW (I2CdevPi.cpp:157-172). */
    method ReadBitsW(devAddr: bv8, regAddr: bv8, bitStart: bv8, length: bv8, data: array<bv16>, p: Platform) returns (count: int)
      requires bitStart < 16 && length <= bitStart + 1 && 1 <= data.Length
      modifies this, data
      ensures old(Valid()) ==> Valid()
      ensures count == 1
      ensures Field16(bitStart + 1 - length, length)
      ensures var o := Select(old(Bus()), devAddr, p);
        && Bus() == o.session
        && rebinds == old(rebinds) + Rebinds(o)
        && data[0] == Extract16(Bswap16(Fetch(regs16, o.session, regAddr as int, NoAck16)), bitStart + 1 - length, length)
      ensures data[1..] == old(data[1..])
      ensures regs8 == old(regs8) && regs16 == old(regs16)
    {
      SourceField16(bitStart, length);
      var w := new bv16[1];
      count := ReadWord(devAddr, regAddr, w, p);
      if count != 0 {
        data[0] := Extract16(w[0], bitStart + 1 - length, length);
      }
    }

    /** writeByte (I2CdevPi.cpp:333-335): writeBytes of one value. */
    method WriteByte(devAddr: bv8, regAddr: bv8, data: bv8, p: Platform) returns (ok: bool)
      modifies this
      ensures old(Valid()) ==> Valid()
      ensures ok
      ensures var o := Select(old(Bus()), devAddr, p);
        && Bus() == o.session
        && rebinds == old(rebinds) + Rebinds(o)
        && regs8 == Put(old(regs8), o.session, regAddr as int, data)
      ensures regs16 == old(regs16)
    {
      var buffer := new bv8[1];
      buffer[0] := data;
      assert buffer[..1] == [data];
      ok := WriteBytes(devAddr, regAddr, 1, buffer, p);
    }

    /** writeWord (I2CdevPi.cpp:343-345): writeWords of one value, which goes
        to the register byte-swapped. */
    method WriteWord(devAddr: bv8, regAddr: bv8, data: bv16, p: Platform) returns (ok: bool)
      modifies this
      ensures old(Valid()) ==> Valid()
      ensures ok
      ensures var o := Select(old(Bus()), devAddr, p);
        && Bus() == o.session
        && rebinds == old(rebinds) + Rebinds(o)
        && regs16 == Put(old(regs16), o.session, regAddr as int, Bswap16(data))
      ensures regs8 == old(regs8)
    {
      var buffer := new bv16[1];
      buffer[0] := data;
      assert buffer[..1] == [data];
      ok := WriteWords(devAddr, regAddr, 1, buffer, p);
    }

    /** writeBit (I2CdevPi.cpp:248-253): read the register, set or clear bit
        `bitNum` as `data` is non-zero or zero, write it back.  The read and
        the write each give openDevice a chance, answered by `p` and `q`. */
    method WriteBit(devAddr: bv8, regAddr: bv8, bitNum: bv8, data: bv8, p: Platform, q: Platform) returns (ok: bool)
      requires bitNum < 8
      modifies this
      ensures old(Valid()) ==> Valid()
      ensures ok
      ensures var o1 := Select(old(Bus()), devAddr, p);
        var o2 := Select(o1.session, devAddr, q);
        && Bus() == o2.session
        && rebinds == old(rebinds) + Rebinds(o1) + Rebinds(o2)
        && regs8 == Put(old(regs8), o2.session, regAddr as int,
                        SetBit8(Fetch(old(regs8), o1.session, regAddr as int, NoAck8), bitNum, data))
      ensures regs16 == old(regs16)
    {
      var b := new bv8[1];
      var _ := ReadByte(devAddr, regAddr, b, p);
      ok := WriteByte(devAddr, regAddr, SetBit8(b[0], bitNum, data), q);
    }

    /** writeBitW (I2CdevPi.cpp:262-267). */
    method WriteBitW(devAddr: bv8, regAddr: bv8, bitNum: bv8, data: bv16, p: Platform, q: Platform) returns (ok: bool)
      requires bitNum < 16
      modifies this
      ensures old(Valid()) ==> Valid()
      ensures ok
      ensures var o1 := Select(old(Bus()), devAddr, p);
        var o2 := Select(o1.session, devAddr, q);
        && Bus() == o2.session
        && rebinds == old(rebinds) + Rebinds(o1) + Rebinds(o2)
        && regs16 == Put(old(regs16), o2.session, regAddr as int,
                         Bswap16(SetBit16(Bswap16(Fetch(old(regs16), o1.session, regAddr as int, NoAck16)), bitNum, data)))
      ensures regs8 == old(regs8)
    {
      var w := new bv16[1];
      var _ := ReadWord(devAddr, regAddr, w, p);
      ok := WriteWord(devAddr, regAddr, SetBit16(w[0], bitNum, data), q);
    }

    /** writeBits (I2CdevPi.cpp:277-296): read the register, replace the field
        of `length` bits whose highest bit is `bitStart` by the low bits of
        `data`, write it back.  The write happens only when readByte reports a
        non-zero count, which it always does. */
    method WriteBits(devAddr: bv8, regAddr: bv8, bitStart: bv8, length: bv8, data: bv8, p: Platform, q: Platform) returns (ok: bool)
      requires bitStart < 8 && length <= bitStart + 1
      modifies this
      ensures old(Valid()) ==> Valid()
      ensures ok
      ensures Field8(bitStart + 1 - length, length)
      ensures var o1 := Select(old(Bus()), devAddr, p);
        var o2 := Select(o1.session, devAddr, q);
        && Bus() == o2.session
        && rebinds == old(rebinds) + Rebinds(o1) + Rebinds(o2)
        && regs8 == Put(old(regs8), o2.session, regAddr as int,
                        Insert8(Fetch(old(regs8), o1.session, regAddr as int, NoAck8), bitStart + 1 - length, length, data))
      ensures regs16 == old(regs16)
    {
      SourceField8(bitStart, length);
      var b := new bv8[1];
      var count := ReadByte(devAddr, regAddr, b, p);
      if count != 0 {
        ok := WriteByte(devAddr, regAddr, Insert8(b[0], bitStart + 1 - length, length, data), q);
      } else {
        ok := false;
      }
    }

    /** writeBitsW (I2CdevPi.cpp:306-325). */
    method WriteBitsW(devAddr: bv8, regAddr: bv8, bitStart: bv8, length: bv8, data: bv16, p: Platform, q: Platform) returns (ok: bool)
      requires bitStart < 16 && length <= bitStart + 1
      modifies this
      ensures old(Valid()) ==> Valid()
      ensures ok
      ensures Field16(bitStart + 1 - length, length)
      ensures var o1 := Select(old(Bus()), devAddr, p);
        var o2 := Select(o1.session, devAddr, q);
        && Bus() == o2.session
        && rebinds == old(rebinds) + Rebinds(o1) + Rebinds(o2)
        && regs16 == Put(old(regs16), o2.session, regAddr as int,
                         Bswap16(Insert16(Bswap16(Fetch(old(regs16), o1.session, regAddr as int, NoAck16)), bitStart + 1 - length, length, data)))
      ensures regs8 == old(regs8)
    {
      SourceField16(bitStart, length);
      var w := new bv16[1];
      var count := ReadWord(devAddr, regAddr, w, p);
      if count != 0 {
        ok := WriteWord(devAddr, regAddr, Insert16(w[0], bitStart + 1 - length, length, data), q);
      } else {
        ok := false;
      }
    }

    /** A driver that has the device bound (as after a successful openDevice)
        writes a field with writeBits and reads it back with readBits: it gets
        the data modulo 2^length, and no rebind happens. */
    method WriteThenReadBits(devAddr: bv8, regAddr: bv8, bitStart: bv8, length: bv8, data: bv8,
                             out: array<bv8>, p: Platform, q: Platform, r: Platform)
      requires IsOpen(Bus()) && currentDevAddr == devAddr
      requires bitStart < 8 && length <= bitStart + 1 && 1 <= out.Length
      modifies this, out
      ensures Bus() == old(Bus()) && rebinds == old(rebinds)
      ensures out[0] == data & ((1 << length) - 1)
    {
      var _ := WriteBits(devAddr, regAddr, bitStart, length, data, p, q);
      FieldRoundTrip8(old(regs8), Bus(), regAddr as int, bitStart, length, data);
      var _ := ReadBits(devAddr, regAddr, bitStart, length, out, r);
    }

    /** The same for a word register: writeWord then readWord yields the
        word. */
    method WriteThenReadWord(devAddr: bv8, regAddr: bv8, data: bv16, out: array<bv16>, p: Platform, q: Platform)
      requires IsOpen(Bus()) && currentDevAddr == devAddr && 1 <= out.Length
      modifies this, out
      ensures Bus() == old(Bus()) && rebinds == old(rebinds)
      ensures out[0] == data
    {
      var _ := WriteWord(devAddr, regAddr, data, p);
      WordRoundTrip(old(regs16), Bus(), regAddr as int, data);
      var _ := ReadWord(devAddr, regAddr, out, q);
    }
  }

  /** The sleep request delay passes to `nanosleep` (I2CdevPi.cpp:83-91):
      `howLong` milliseconds split into whole seconds and the remaining
      nanoseconds, which are below one second.  The sleep itself is not
      modelled. */
  datatype Timespec = Timespec(sec: nat, nsec: nat)

  function Sleeper(howLong: nat): (t: Timespec)
    requires howLong < 0x1_0000_0000
    ensures t.nsec < 1000000000 && t.nsec % 1000000 == 0
    ensures t.sec * 1000 + t.nsec / 1000000 == howLong
  {
    Timespec(howLong / 1000, (howLong % 1000) * 1000000)
  }

  // Round trips through a device register.  Each lemma takes the register
  // value the write stores (as the write methods above state it) and reads it
  // back the way the read methods state it, on a session that is open, as it
  // is after a successful openDevice for that address.

  /** writeBits then readBits on the same field yields the data modulo
      2^length; the bits of the register outside the field keep the value
      writeBits read. */
  lemma FieldRoundTrip8(store: map<Key, bv8>, s: Session, reg: int, bitStart: bv8, length: bv8, data: bv8)
    requires IsOpen(s) && bitStart < 8 && length <= bitStart + 1
    ensures Field8(bitStart + 1 - length, length)
    ensures var v := Fetch(store, s, reg, NoAck8);
      var r := Fetch(Put(store, s, reg, Insert8(v, bitStart + 1 - length, length, data)), s, reg, NoAck8);
      && Extract8(r, bitStart + 1 - length, length) == data & ((1 << length) - 1)
      && r & !Mask8(bitStart + 1 - length, length) == v & !Mask8(bitStart + 1 - length, length)
  {
    SourceField8(bitStart, length);
    InsertExtract8(Fetch(store, s, reg, NoAck8), bitStart + 1 - length, length, data);
  }

  /** writeBitsW then readBitsW: the byte swaps on the way out and back in
      cancel, and the field reads back as the data modulo 2^length. */
  lemma FieldRoundTrip16(store: map<Key, bv16>, s: Session, reg: int, bitStart: bv8, length: bv8, data: bv16)
    requires IsOpen(s) && bitStart < 16 && length <= bitStart + 1
    ensures Field16(bitStart + 1 - length, length)
    ensures var v := Bswap16(Fetch(store, s, reg, NoAck16));
      var r := Bswap16(Fetch(Put(store, s, reg, Bswap16(Insert16(v, bitStart + 1 - length, length, data))), s, reg, NoAck16));
      && Extract16(r, bitStart + 1 - length, length) == data & ((1 << length) - 1)
      && r & !Mask16(bitStart + 1 - length, length) == v & !Mask16(bitStart + 1 - length, length)
  {
    SourceField16(bitStart, length);
    var v := Bswap16(Fetch(store, s, reg, NoAck16));
    WordRoundTrip(store, s, reg, Insert16(v, bitStart + 1 - length, length, data));
    InsertExtract16(v, bitStart + 1 - length, length, data);
  }

  /** writeBit then readBit: the bit reads back non-zero iff the data was
      non-zero, and every other bit keeps the value writeBit read. */
  lemma BitRoundTrip8(store: map<Key, bv8>, s: Session, reg: int, bitNum: bv8, data: bv8)
    requires IsOpen(s) && bitNum < 8
    ensures var v := Fetch(store, s, reg, NoAck8);
      var r := Fetch(Put(store, s, reg, SetBit8(v, bitNum, data)), s, reg, NoAck8);
      && (BitValue8(r, bitNum) != 0 <==> data != 0)
      && r & !(1 << bitNum) == v & !(1 << bitNum)
  {
    var v := Fetch(store, s, reg, NoAck8);
    var w := SetBit8(v, bitNum, data);
    var r := Fetch(Put(store, s, reg, w), s, reg, NoAck8);
    assert r == w;
    SetBitReadBack8(r, v, bitNum, data);
    SetBit8Keeps(v, bitNum, data);
  }

  /** writeBitW then readBitW: the bit reads back non-zero iff the data was
      non-zero. */
  lemma BitRoundTrip16(store: map<Key, bv16>, s: Session, reg: int, bitNum: bv8, data: bv16)
    requires IsOpen(s) && bitNum < 16
    ensures var v := Bswap16(Fetch(store, s, reg, NoAck16));
      var r := Bswap16(Fetch(Put(store, s, reg, Bswap16(SetBit16(v, bitNum, data))), s, reg, NoAck16));
      BitValue16(r, bitNum) != 0 <==> data != 0
  {
    var v := Bswap16(Fetch(store, s, reg, NoAck16));
    var w := SetBit16(v, bitNum, data);
    var r := Bswap16(Fetch(Put(store, s, reg, Bswap16(w)), s, reg, NoAck16));
    WordRoundTrip(store, s, reg, w);
    SetBitReadBack16(r, v, bitNum, data);
  }

  /** writeWord then readWord yields the word: the register holds it
      byte-swapped, and readWord swaps it back. */
  lemma WordRoundTrip(store: map<Key, bv16>, s: Session, reg: int, w: bv16)
    requires IsOpen(s)
    ensures Bswap16(Fetch(Put(store, s, reg, Bswap16(w)), s, reg, NoAck16)) == w
  {
    Bswap16Involution(w);
  }

  /** writeWords then readWords of the same registers yields the words. */
  lemma WordsRoundTrip(store: map<Key, bv16>, s: Session, reg: int, words: seq<bv16>)
    requires IsOpen(s)
    ensures SwapAll(ReadRun(WriteRun(store, s, reg, SwapAll(words)), s, reg, |words|, NoAck16)) == words
  {
    ReadAfterWrite(store, s, reg, SwapAll(words), NoAck16);
    SwapAllInvolution(words);
  }

  /** The word writeWords stores for `words[i]` goes on the bus, low byte
      first as SMBus Write Word sends it, as the bytes of `words[i]` high byte
      first. */
  lemma WordsOnWire(store: map<Key, bv16>, s: Session, reg: int, words: seq<bv16>, i: int)
    requires IsOpen(s) && 0 <= i < |words|
    ensures var m := WriteRun(store, s, reg, SwapAll(words));
      && (s.currentDevAddr, reg + i) in m
      && SmbusDataBytes(m[(s.currentDevAddr, reg + i)]) == WordOnWire(words[i])
  {
    WriteRunContents(store, s, reg, SwapAll(words));
  }

  /** The value readWords stores for register `reg + i` is the word the device
      sent, read with its first bus byte as the high byte. */
  lemma WordsFromWire(store: map<Key, bv16>, s: Session, reg: int, n: nat, i: int)
    requires 0 <= i < n
    ensures var raw := Fetch(store, s, reg + i, NoAck16);
      SwapAll(ReadRun(store, s, reg, n, NoAck16))[i] == WordFromWire(SmbusDataBytes(raw)[0], SmbusDataBytes(raw)[1])
  {
    var raw := Fetch(store, s, reg + i, NoAck16);
    WordFromBytes(SmbusWord(Lo(raw), Hi(raw)), raw);
  }

  /** On a closed bus every read yields all ones and every write is lost. */
  lemma ClosedBus(s: Session, regs8: map<Key, bv8>, regs16: map<Key, bv16>, reg: int, b: bv8, w: bv16)
    requires !IsOpen(s)
    ensures Fetch(regs8, s, reg, NoAck8) == 0xFF && Fetch(regs16, s, reg, NoAck16) == 0xFFFF
    ensures Put(regs8, s, reg, b) == regs8 && Put(regs16, s, reg, w) == regs16
  {}
}
