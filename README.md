# I2Cdev register access for the Raspberry Pi, in Dafny

This project models the `I2Cdev` class of I2CdevPi.cpp. The class is the
I2C register-access layer under the ADS1115 voltage/current monitor. It holds
one process-wide bus session in two static fields: the bus file `handle` and
the slave address `currentDevAddr` the handle is bound to. `openDevice` opens
the bus lazily and rebinds the handle only when the address changes. On top of
the session sit:

- byte and word transfers of `length` consecutive registers (`readBytes`,
  `readWords`, `writeBytes`, `writeWords`), with words byte-swapped in both
  directions;
- single-register shorthands (`readByte`, `readWord`, `writeByte`,
  `writeWord`);
- single-bit and bit-field read-modify-write operations on 8-bit and 16-bit
  registers.

Files:

- `session.dfy` (module `BusSession`): the session and `openDevice` as
  functions on values, and the guard every transfer puts in front of it.
- `bitfield8.dfy`, `bitfield16.dfy` (modules `BitField8`, `BitField16`): the
  mask, extract, insert and single-bit arithmetic on `bv8` and `bv16`.
- `byteorder.dfy` (module `ByteOrder`): `__bswap_16` and the byte order of
  SMBus Read Word and Write Word (section 6.5.4 and 6.5.5 of the System
  Management Bus specification, version 3: low data byte first).
- `store.dfy` (module `RegisterStore`): the devices behind the bus, as a map
  from (slave address, register) to value.
- `i2cdev.dfy` (module `I2CdevPi`): class `I2Cdev`, with the two session
  fields, the two register stores and a ghost rebind counter. `openDevice`
  and every register operation is a method here, doing the same steps on the
  fields and arrays. `delay` is represented by its arithmetic only. Round-trip
  lemmas and two client methods follow the class.

The platform is replaced as follows:

- The outcomes of `wiringPiI2CSetup` and `ioctl(I2C_SLAVE)` arrive as a
  `Platform` argument. A read-modify-write operation gives openDevice two
  chances, one for the read and one for the write, so it takes two `Platform`
  values.
- The four wiringPi register calls act on the register stores of the device
  the handle is bound to.
- A read that no device answers makes wiringPi return -1. Cast to `uint8_t`
  or `uint16_t`, that is 0xFF or 0xFFFF. This happens on a closed bus or at a
  register absent from the store.
- A write on a closed bus is lost. In the model that is the only way a write is lost: on an open bus every write reaches the store, whether or not a device answers at the bound address.

Behaviour of the code that the lemmas make explicit:

- A failed `wiringPiI2CSetup` still makes `openDevice` return true.
  `BusSession.ClosedBusSetup`
- The transfers ignore openDevice's result. After a failed rebind they go to
  the previously bound device. `BusSession.StaleTargetAfterFailedRebind`
- A failed rebind is retried by the next call with the same address.
  `BusSession.FailedRebindRetried`
- While the bus is closed, a transfer to address 0 never opens it. This
  holds from the initial session and after a failed setup.
  `BusSession.AddressZeroNeverOpens`
- `readByte` always reports a count of 1. The `count != 0` guards in
  `readBits`, `readBitsW`, `writeBits` and `writeBitsW` therefore always pass,
  so a failed read shows up only as an all-ones value.

Where the intended behaviour and the code differ, the model follows the
code:

- A caller of writeBits would expect the field to read back as the data it
  wrote. It reads back as the data modulo 2^length: the bits of the data
  above the field are dropped. `BitField8.InsertExtract8`
- The doc comments of readBytes and readWords say that -1 indicates failure
  (I2CdevPi.cpp:202, I2CdevPi.cpp:224). The code never returns -1: it does
  not propagate openDevice's failure and always returns length.
- openDevice rebinds only when the address changes, so two calls with the
  same address should issue at most one rebind. That holds only when the
  first rebind succeeds; a failed rebind is retried by the next call.
  `BusSession.OpenDeviceIdempotent`, `BusSession.FailedRebindRetried`
- The sample word in the comment of `readBitsW` (I2CdevPi.cpp:158-162) holds
  101 in the marked field, not the 010 the comment shows.
  `BitField16.Extract16Example` states the value the code computes.

## Model

| member | source | states |
|---|---|---|
| BusSession.Initial | I2CdevPi.cpp:27-28 | The initial session has the bus closed and satisfies the session invariant. |
| BusSession.Valid | I2CdevPi.cpp:27-28 | The session invariant: while the bus is closed the session is bound to address 0. It holds initially, and openDevice, the transfer guard and every transfer method keep it. |
| BusSession.OpenDevice | I2CdevPi.cpp:56-81 | A rebind happens iff the bus is open and the address differs. The result is false iff a rebind failed. The handle is kept when open, else it is the setup result. The session is bound to devAddr when the call succeeds on an open bus, otherwise the address is kept. The session invariant is preserved. |
| BusSession.Select | I2CdevPi.cpp:206-208 | openDevice is called only when devAddr differs from the bound address; with the same address nothing changes. |
| BusSession.SameAddressNoRebind | I2CdevPi.cpp:67-68 | With the bus open and the same address: true, no rebind, session unchanged. |
| BusSession.OtherAddressRebinds | I2CdevPi.cpp:67-77 | With the bus open and another address: a rebind; on success bound to the new address, on failure false with the session unchanged. |
| BusSession.ClosedBusSetup | I2CdevPi.cpp:58-66 | On a closed bus, a valid setup handle opens the bus bound to devAddr. A failed setup leaves the handle negative and the address unchanged, and still returns true. |
| BusSession.OpenDeviceIdempotent | I2CdevPi.cpp:56-81 | After a call that succeeded and left the bus open, a second call with the same address issues no rebind and changes nothing. |
| BusSession.FailedRebindRetried | I2CdevPi.cpp:72-75 | After a failed rebind, the next call with the same address rebinds again. |
| BusSession.AddressZeroNeverOpens | I2CdevPi.cpp:206-208 | On a closed bus that satisfies the session invariant, the transfer guard for address 0 leaves the session as it is. This covers the initial session and the session left by a failed setup. |
| BusSession.StaleTargetAfterFailedRebind | I2CdevPi.cpp:206-208 | After a failed rebind, a transfer's session is the old one, bound to another address. |
| BusSession.SelectKeepsOpenAndValid | I2CdevPi.cpp:56-81 | The transfer guard keeps an open bus open and keeps the session invariant. |
| BitField8.SourceField8 | I2CdevPi.cpp:140 | Every field the source accepts (bitStart 0-7, length at most bitStart+1) fits in the register at shift bitStart-length+1. |
| BitField8.Mask8 | I2CdevPi.cpp:140 | Bit i of the mask is set iff lsb <= i < lsb+length; a full-width field gets the all-ones mask. |
| BitField8.Extract8 | I2CdevPi.cpp:140-143 | The value readBits stores has no bit set from length upwards, i.e. it is below 2^length. |
| BitField8.Insert8 | I2CdevPi.cpp:287-291 | Every bit outside the mask of the value writeBits writes back equals the bit read. |
| BitField8.InsertExtract8 | I2CdevPi.cpp:140-143 | Extracting the field from the value Insert8 wrote gives the data modulo 2^length. |
| BitField8.ExtractAligned8 | I2CdevPi.cpp:140-143 | readBits' value is the field right-aligned: the register shifted down by the field's lowest bit, with only its low length bits kept. |
| BitField8.ExtractInsert8 | I2CdevPi.cpp:287-291 | Writing back the field just read leaves the register unchanged. |
| BitField8.BitValue8 | I2CdevPi.cpp:104 | readBit's value is 0 or 2^bitNum, and non-zero iff bit bitNum of the register is set. |
| BitField8.SetBit8 | I2CdevPi.cpp:251 | writeBit's value has bit bitNum set iff data is non-zero. |
| BitField8.SetBit8Keeps | I2CdevPi.cpp:251 | writeBit's value equals the value read in every bit but bitNum. |
| BitField8.SetBitReadBack8 | I2CdevPi.cpp:104 | readBit of the value writeBit produced is non-zero iff the data was. |
| BitField8.Extract8Example | I2CdevPi.cpp:133-137 | The readBits example of the source comment: 3 bits ending at bit 4 of 01101001 read as 010. |
| BitField8.Insert8Example | I2CdevPi.cpp:278-284 | The writeBits example of the source comment: mask 00011100; 010 written into 10101111 gives 10101011. |
| BitField16.SourceField16 | I2CdevPi.cpp:166 | Every field readBitsW/writeBitsW accept fits in the 16-bit register. |
| BitField16.Mask16 | I2CdevPi.cpp:166 | Bit i of the 16-bit mask is set iff lsb <= i < lsb+length. |
| BitField16.Extract16 | I2CdevPi.cpp:166-169 | The value readBitsW stores is below 2^length. |
| BitField16.Insert16 | I2CdevPi.cpp:316-320 | The value writeBitsW writes back keeps every bit outside the mask. |
| BitField16.InsertExtract16 | I2CdevPi.cpp:166-169 | Extracting the field just inserted gives the data modulo 2^length. |
| BitField16.ExtractAligned16 | I2CdevPi.cpp:166-169 | readBitsW's value is the field right-aligned: the word shifted down by the field's lowest bit, with only its low length bits kept. |
| BitField16.ExtractInsert16 | I2CdevPi.cpp:316-320 | Writing back the field just read leaves the word unchanged. |
| BitField16.BitValue16 | I2CdevPi.cpp:119 | readBitW's value is 0 or 2^bitNum, non-zero iff the bit is set. |
| BitField16.SetBit16 | I2CdevPi.cpp:265 | writeBitW's value has bit bitNum set iff data is non-zero. |
| BitField16.SetBit16Keeps | I2CdevPi.cpp:265 | writeBitW's value equals the value read in every other bit. |
| BitField16.SetBitReadBack16 | I2CdevPi.cpp:119 | readBitW of the value writeBitW produced is non-zero iff the data was. |
| BitField16.Extract16Example | I2CdevPi.cpp:158-162 | On the sample word of the readBitsW comment the field ending at bit 12 reads as 101. |
| BitField16.Insert16Example | I2CdevPi.cpp:307-313 | The writeBitsW example of the source comment: mask 0x1C00; 010 written into 0xAF96 gives 0xAB96. |
| ByteOrder.Bswap16 | I2CdevPi.cpp:235 | `__bswap_16`: the result's high byte is the argument's low byte and its low byte the argument's high byte. |
| ByteOrder.Bswap16Involution | I2CdevPi.cpp:384 | Swapping twice gives back the word. |
| ByteOrder.SmbusWord | I2CdevPi.cpp:234 | The word SMBus Read Word assembles has its two data bytes in bus order, low byte first. |
| ByteOrder.WordOnWire | I2CdevPi.cpp:384-385 | writeWords puts the high byte of the value on the bus first. |
| ByteOrder.WordFromWire | I2CdevPi.cpp:234-235 | readWords takes the first byte from the bus as the high byte. |
| ByteOrder.WireRoundTrip | I2CdevPi.cpp:234-235 | Bytes sent by writeWords and returned unchanged by the device read back as the same word. |
| ByteOrder.WireExample | I2CdevPi.cpp:384-385 | Writing 0x1234 puts 0x12 and then 0x34 on the bus. |
| RegisterStore.Fetch | I2CdevPi.cpp:213 | A register read yields all ones on a closed bus and for a register the bound device does not have. Otherwise it yields the bound device's value of that register. |
| RegisterStore.Put | I2CdevPi.cpp:363 | On a closed bus a register write changes nothing. On an open bus the register of the bound device is present afterwards and holds the value. That every other register is kept is `RegisterStore.PutElsewhere`. |
| RegisterStore.PutElsewhere | I2CdevPi.cpp:363 | A register write leaves every other register, of the bound device and of every other device, present or absent as before and with its old value. This covers writeByte, writeWord, writeBit(W) and writeBits(W), whose new store is one Put. |
| RegisterStore.WriteRun | I2CdevPi.cpp:362-364 | The write loop changes nothing on a closed bus, and never removes a register. |
| RegisterStore.ReadRun | I2CdevPi.cpp:212-214 | The loop yields length values, the i-th being the read of register regAddr+i. |
| RegisterStore.WriteRunAppend | I2CdevPi.cpp:362-364 | Each further loop iteration is one more register write after the earlier ones. |
| RegisterStore.WriteRunContents | I2CdevPi.cpp:362-364 | On an open bus, the written registers are exactly regAddr..regAddr+length-1 of the bound device, holding the data in order. Every other register is unchanged. On a closed bus nothing changes. |
| RegisterStore.ReadAfterWrite | I2CdevPi.cpp:212-214 | Reading back a run just written on an open bus yields the data. |
| RegisterStore.WriteElsewhere | I2CdevPi.cpp:362-364 | A write run leaves registers of other devices, and other registers of the same device, as they were. |
| RegisterStore.SwapAll | I2CdevPi.cpp:235 | Every word of the sequence is byte-swapped, length kept. |
| RegisterStore.SwapAllInvolution | I2CdevPi.cpp:384 | Swapping a sequence twice gives it back. |
| I2CdevPi.I2Cdev.constructor | I2CdevPi.cpp:27-28 | The session starts with handle -1 and address 0, satisfying the invariant, with no rebinds. |
| I2CdevPi.I2Cdev.OpenDevice | I2CdevPi.cpp:56-81 | The fields end as BusSession.OpenDevice states, the result is its result, and a rebind is counted iff one was issued. The session invariant is kept. |
| I2CdevPi.I2Cdev.SelectDevice | I2CdevPi.cpp:206-208 | Fields as BusSession.Select states; openDevice is called only when the address differs. |
| I2CdevPi.I2Cdev.ReadReg8 | I2CdevPi.cpp:213 | `wiringPiI2CReadReg8` cast to uint8_t: the register of the bound device, or 0xFF when none answers. |
| I2CdevPi.I2Cdev.ReadReg16 | I2CdevPi.cpp:234 | `wiringPiI2CReadReg16` cast to uint16_t: the raw word of the register, or 0xFFFF when none answers. |
| I2CdevPi.I2Cdev.WriteReg8 | I2CdevPi.cpp:363 | `wiringPiI2CWriteReg8`: one Put of the value on the current session; nothing else changes. |
| I2CdevPi.I2Cdev.WriteReg16 | I2CdevPi.cpp:385 | `wiringPiI2CWriteReg16`: one Put of the word on the current session; nothing else changes. |
| I2CdevPi.I2Cdev.ReadBytes | I2CdevPi.cpp:204-216 | Returns length. For each i below length, data[i] is the read of register regAddr+i on the selected session. The rest of data and both stores are unchanged. |
| I2CdevPi.I2Cdev.ReadWords | I2CdevPi.cpp:226-239 | Returns length; data[i] is the byte-swapped raw read of register regAddr+i; nothing else changes. |
| I2CdevPi.I2Cdev.WriteBytes | I2CdevPi.cpp:354-366 | Returns true. The 8-bit store becomes the write run of data[0..length) from regAddr on the selected session. The 16-bit store is unchanged. |
| I2CdevPi.I2Cdev.WriteWords | I2CdevPi.cpp:375-389 | Returns true; the 16-bit store becomes the write run of the byte-swapped data. |
| I2CdevPi.I2Cdev.ReadByte | I2CdevPi.cpp:181-183 | Returns 1; data[0] is the read of regAddr on the selected session. |
| I2CdevPi.I2Cdev.ReadWord | I2CdevPi.cpp:192-194 | Returns 1; data[0] is the byte-swapped raw read. |
| I2CdevPi.I2Cdev.ReadBit | I2CdevPi.cpp:101-106 | Returns readByte's count 1; data[0] is BitValue8 of the register. |
| I2CdevPi.I2Cdev.ReadBitW | I2CdevPi.cpp:116-121 | Returns 1; data[0] is BitValue16 of the swapped word. |
| I2CdevPi.I2Cdev.ReadBits | I2CdevPi.cpp:132-146 | Returns 1; data[0] is Extract8 of the register over the field ending at bitStart. |
| I2CdevPi.I2Cdev.ReadBitsW | I2CdevPi.cpp:157-172 | Returns 1; data[0] is Extract16 of the swapped word. |
| I2CdevPi.I2Cdev.WriteByte | I2CdevPi.cpp:333-335 | Returns true; the register on the selected session holds data. |
| I2CdevPi.I2Cdev.WriteWord | I2CdevPi.cpp:343-345 | Returns true; the register holds the byte-swapped word. |
| I2CdevPi.I2Cdev.WriteBit | I2CdevPi.cpp:248-253 | Returns true. The register is read on the first selected session. SetBit8 of that value is written on the session selected again for the write. Rebinds are counted for both. |
| I2CdevPi.I2Cdev.WriteBitW | I2CdevPi.cpp:262-267 | The same for a word register, through the byte swaps. |
| I2CdevPi.I2Cdev.WriteBits | I2CdevPi.cpp:277-296 | Returns true; writes Insert8 of the value read into the field ending at bitStart. |
| I2CdevPi.I2Cdev.WriteBitsW | I2CdevPi.cpp:306-325 | The same for a word register, through the byte swaps. |
| I2CdevPi.I2Cdev.WriteThenReadBits | I2CdevPi.cpp:277-296 | With the device bound, writeBits then readBits yields the data modulo 2^length, with no rebind. |
| I2CdevPi.I2Cdev.WriteThenReadWord | I2CdevPi.cpp:343-345 | With the device bound, writeWord then readWord yields the word. |
| I2CdevPi.Sleeper | I2CdevPi.cpp:87-88 | howLong milliseconds split into seconds and whole milliseconds' worth of nanoseconds below one second, which add back up to howLong. |
| I2CdevPi.FieldRoundTrip8 | I2CdevPi.cpp:287-292 | writeBits then readBits on an open bus yields the data modulo 2^length, and the bits outside the field keep the value read. |
| I2CdevPi.FieldRoundTrip16 | I2CdevPi.cpp:316-321 | The same for 16-bit registers, through both byte swaps. |
| I2CdevPi.BitRoundTrip8 | I2CdevPi.cpp:248-253 | writeBit then readBit reads non-zero iff data was non-zero; every other bit keeps the value read. |
| I2CdevPi.BitRoundTrip16 | I2CdevPi.cpp:262-267 | writeBitW then readBitW reads non-zero iff data was non-zero. |
| I2CdevPi.WordRoundTrip | I2CdevPi.cpp:343-345 | writeWord then readWord on an open bus yields the word. |
| I2CdevPi.WordsRoundTrip | I2CdevPi.cpp:375-389 | writeWords then readWords of the same registers yields the words. |
| I2CdevPi.WordsOnWire | I2CdevPi.cpp:384-385 | The register writeWords stores for words[i] is present, and SMBus Write Word sends it as words[i] high byte first. |
| I2CdevPi.WordsFromWire | I2CdevPi.cpp:234-235 | The value readWords stores for register reg+i is the word the device sent, with the first bus byte as the high byte. |
| I2CdevPi.ClosedBus | I2CdevPi.cpp:213 | On a closed bus every read yields all ones and every write is lost. |

## Left out

- The static fields `handle` and `currentDevAddr` (I2CdevPi.cpp:27-28) are per-object fields of the Dafny `I2Cdev` class, and the devices are per-object stores. Two C++ `I2Cdev` objects share one session and one bus, but two Dafny objects would hold two sessions and two sets of devices. The model assumes that a program uses a single `I2Cdev` object.
- The 8-bit and 16-bit registers are two independent stores, `regs8` and `regs16`. On a device both widths reach the same register, and the operation, not the register, decides the width. In the model a byte write never changes what a word read of the same register returns, and the reverse. The clauses "the 16-bit store is unchanged" of WriteBytes, WriteByte, WriteBit and WriteBits, and "the 8-bit store is unchanged" of their word counterparts, hold only because of that split.
- The constructor `I2Cdev()` (I2CdevPi.cpp:32-47) is not modelled. It probes the board revision, chooses the bus device path and initialises wiringPi: platform setup with no effect on the session fields.
- `delay` is modelled only as the split of the milliseconds into seconds and nanoseconds. `nanosleep` itself is I/O and is not modelled.
- `readTimeout` (I2CdevPi.cpp:25) and the `timeout` parameters of the read operations are not modelled. They are unused on the Pi.
- wiringPi and the kernel are not modelled. `wiringPiI2CSetup`, `ioctl(I2C_SLAVE)` and the four register calls become the `Platform` outcomes and the register stores. Their other effects are not captured: error messages, `errno`, and the real bus traffic.
- `wiringPiFailure` is taken to return, both after a failed rebind and inside a failed `wiringPiI2CSetup`, which reports its own failure through `wiringPiFailure` and then returns a negative handle. Whether it exits the process instead depends on a wiringPi setting outside this code. `BusSession.ClosedBusSetup` and `BusSession.StaleTargetAfterFailedRebind` describe the returning case.
- Register indices are kept as the `int` `regAddr + count`. The SMBus command byte the kernel sends would reduce an index above 255 modulo 256; that reduction is inside wiringPi and is not modelled. For example, writeBytes of 10 bytes from register 250 writes registers 250..255 and then 0..3 on the bus, but the model writes keys 250..259. Three statements therefore hold only in the int-keyed store once an index reaches 256: `RegisterStore.WriteElsewhere`, the clause of `RegisterStore.WriteRunContents` that every other register is unchanged, and the values `ReadBytes`/`ReadWords` return at those indices.
- A write on an open bus always reaches the store. A write that no device acknowledges, for example because no device answers at the bound address, is not modelled: on the bus it is lost, `writeBytes` ignores the failure and returns true (I2CdevPi.cpp:362-365), and a later read still yields all ones. The round-trip statements therefore assume a device that acknowledges writes at the bound address: `RegisterStore.ReadAfterWrite`, `I2CdevPi.FieldRoundTrip8`, `I2CdevPi.FieldRoundTrip16`, `I2CdevPi.BitRoundTrip8`, `I2CdevPi.BitRoundTrip16`, `I2CdevPi.WordRoundTrip`, `I2CdevPi.WordsRoundTrip`, `I2CdevPi.I2Cdev.WriteThenReadBits` and `I2CdevPi.I2Cdev.WriteThenReadWord`.
- The stores are plain memories: a device that changes its registers by itself is not modelled, nor one that answers reads of registers never written.
- Concurrency, and the non-atomicity of read-modify-write, are not modelled: the model is sequential.
- The order of the individual register calls is not recorded as a trace. The store functions build reads and writes in loop order, which fixes the final state, but no log of the calls is kept.
- The monitor application (vimon.cpp, vimon.h, vimon_cal.h) and the test driver (test.cpp) are not part of this model.
- I2CdevPi.I2Cdev.ReadBytes: requires `length <= 127`. The source's `int8_t` counter cannot count past 127, so a larger length never ends the loop.
- I2CdevPi.I2Cdev.ReadWords: requires `length <= 127`, for the same reason.
- I2CdevPi.I2Cdev.WriteBytes: requires `length <= 127`, for the same reason.
- I2CdevPi.I2Cdev.WriteWords: requires `length <= 127`, for the same reason.
- I2CdevPi.I2Cdev.ReadBit: requires `bitNum < 8`, the documented range. For 8 <= bitNum < 32 the C code would yield 0.
- I2CdevPi.I2Cdev.ReadBitW: requires `bitNum < 16`, the documented range.
- I2CdevPi.I2Cdev.WriteBit: requires `bitNum < 8`, the documented range. For 8 <= bitNum < 32 the C code would write the register back unchanged; from 32 on, `1 << bitNum` is undefined in C.
- I2CdevPi.I2Cdev.WriteBitW: requires `bitNum < 16`, the documented range.
- I2CdevPi.I2Cdev.ReadBits: requires `bitStart < 8` and `length <= bitStart + 1`, the documented ranges. A longer field makes the C shift negative, which is undefined.
- I2CdevPi.I2Cdev.ReadBitsW: requires `bitStart < 16` and `length <= bitStart + 1`, for the same reason.
- I2CdevPi.I2Cdev.WriteBits: requires `bitStart < 8` and `length <= bitStart + 1`, for the same reason.
- I2CdevPi.I2Cdev.WriteBitsW: requires `bitStart < 16` and `length <= bitStart + 1`, for the same reason.
- I2CdevPi.BitRoundTrip16: does not state that the other bits keep their value through the store. That part is `BitField16.SetBit16Keeps` on the value together with `I2CdevPi.WordRoundTrip`; stated in one lemma it is too costly for the solver.
