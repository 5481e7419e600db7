/**
 * The devices behind the bus, seen through the four wiringPi register calls
 * the transfers use: `wiringPiI2CReadReg8`, `wiringPiI2CReadReg16`,
 * `wiringPiI2CWriteReg8` and `wiringPiI2CWriteReg16`.
 *
 * The devices are an abstract register store: a map from (slave address,
 * register) to the value last written there.  A call reaches the device the
 * handle is currently bound to.  A read that no device answers (a closed bus,
 * or no such register at the bound address) makes wiringPi return -1, which
 * the transfer casts to `uint8_t` or `uint16_t`: all ones.  A write on a
 * closed bus reaches no device; a write on an open bus always reaches the
 * store, as if a device acknowledged it.  The register index is the `int`
 * `regAddr + count` the transfer computes, so it may exceed 255.
 */
module RegisterStore {
  import opened BusSession
  import opened ByteOrder

  type Key = (bv8, int)

  /** `(uint8_t)-1` and `(uint16_t)-1`: what a failed read yields. */
  const NoAck8: bv8 := 0xFF
  const NoAck16: bv16 := 0xFFFF

  /** One register read on the session's handle: the bound device's value,
      or `noAck` when the bus is closed or the device has no such register. */
  function Fetch<T>(store: map<Key, T>, s: Session, reg: int, noAck: T): (v: T)
    ensures !IsOpen(s) ==> v == noAck
    ensures v == noAck || (s.currentDevAddr, reg) in store
    ensures IsOpen(s) && (s.currentDevAddr, reg) in store ==> v == store[(s.currentDevAddr, reg)]
  {
    if IsOpen(s) && (s.currentDevAddr, reg) in store then store[(s.currentDevAddr, reg)] else noAck
  }

  /** One register write on the session's handle.  On an open bus it sets
      register `reg` of the bound device and no other; on a closed bus it
      reaches no device. */
  function Put<T>(store: map<Key, T>, s: Session, reg: int, v: T): (r: map<Key, T>)
    ensures !IsOpen(s) ==> r == store
    ensures IsOpen(s) ==> (s.currentDevAddr, reg) in r && r[(s.currentDevAddr, reg)] == v
  {
    if IsOpen(s) then store[(s.currentDevAddr, reg) := v] else store
  }

  /** A register write leaves every other register, of every device, as it
      was. */
  lemma PutElsewhere<T>(store: map<Key, T>, s: Session, reg: int, v: T, k: Key)
    requires k != (s.currentDevAddr, reg)
    ensures k in Put(store, s, reg, v) <==> k in store
    ensures k in store ==> Put(store, s, reg, v)[k] == store[k]
  {}

  /** The values of `n` successive reads starting at register `reg`, in the
      order the loop issues them. */
  function ReadRun<T>(store: map<Key, T>, s: Session, reg: int, n: nat, noAck: T): (vs: seq<T>)
    ensures |vs| == n
    ensures forall i :: 0 <= i < n ==> vs[i] == Fetch(store, s, reg + i, noAck)
  {
    if n == 0 then [] else ReadRun(store, s, reg, n - 1, noAck) + [Fetch(store, s, reg + n - 1, noAck)]
  }

  /** The store after writing `vs` to successive registers from `reg` on,
      in the order the loop issues the writes. */
  function WriteRun<T>(store: map<Key, T>, s: Session, reg: int, vs: seq<T>): (r: map<Key, T>)
    ensures !IsOpen(s) ==> r == store
    ensures store.Keys <= r.Keys
  {
    if |vs| == 0 then store
    else Put(WriteRun(store, s, reg, vs[..|vs| - 1]), s, reg + |vs| - 1, vs[|vs| - 1])
  }

  /** A run extended by one value is the run followed by one more write. */
  lemma WriteRunAppend<T>(store: map<Key, T>, s: Session, reg: int, vs: seq<T>, v: T)
    ensures WriteRun(store, s, reg, vs + [v]) == Put(WriteRun(store, s, reg, vs), s, reg + |vs|, v)
  {
    assert (vs + [v])[..|vs|] == vs;
  }

  /** The loop step: writing the first `n + 1` values is writing the first
      `n` and then value `n` to register `reg + n`. */
  lemma WriteRunStep<T>(store: map<Key, T>, s: Session, reg: int, vs: seq<T>, n: nat)
    requires n < |vs|
    ensures WriteRun(store, s, reg, vs[..n + 1]) == Put(WriteRun(store, s, reg, vs[..n]), s, reg + n, vs[n])
  {
    assert vs[..n + 1] == vs[..n] + [vs[n]];
    WriteRunAppend(store, s, reg, vs[..n], vs[n]);
  }

  /** On an open bus a write run adds or overwrites exactly the registers
      `reg .. reg + |vs| - 1` of the bound device, with the values of `vs`;
      on a closed bus it changes nothing. */
  lemma {:induction false} WriteRunContents<T>(store: map<Key, T>, s: Session, reg: int, vs: seq<T>)
    ensures var m := WriteRun(store, s, reg, vs);
      && (forall k :: k in m <==> k in store || (IsOpen(s) && k.0 == s.currentDevAddr && reg <= k.1 < reg + |vs|))
      && (IsOpen(s) ==> forall i :: 0 <= i < |vs| ==> m[(s.currentDevAddr, reg + i)] == vs[i])
      && (forall k :: k in store && !(IsOpen(s) && k.0 == s.currentDevAddr && reg <= k.1 < reg + |vs|) ==> m[k] == store[k])
  {
    if |vs| != 0 {
      WriteRunContents(store, s, reg, vs[..|vs| - 1]);
    }
  }

  /** Reading back a run just written on an open bus yields the run. */
  lemma ReadAfterWrite<T>(store: map<Key, T>, s: Session, reg: int, vs: seq<T>, noAck: T)
    requires IsOpen(s)
    ensures ReadRun(WriteRun(store, s, reg, vs), s, reg, |vs|, noAck) == vs
  {
    WriteRunContents(store, s, reg, vs);
  }

  /** A write run leaves every register outside it as it was: other devices,
      and other registers of the same device. */
  lemma WriteElsewhere<T>(store: map<Key, T>, s: Session, reg: int, vs: seq<T>, t: Session, r: int, noAck: T)
    requires !(IsOpen(s) && t.currentDevAddr == s.currentDevAddr && reg <= r < reg + |vs|)
    ensures Fetch(WriteRun(store, s, reg, vs), t, r, noAck) == Fetch(store, t, r, noAck)
  {
    WriteRunContents(store, s, reg, vs);
  }

  /** Every word of a sequence byte-swapped: what readWords does to the raw
      values it reads, and writeWords to the values it sends. */
  function SwapAll(ws: seq<bv16>): (r: seq<bv16>)
    ensures |r| == |ws|
    ensures forall i :: 0 <= i < |ws| ==> r[i] == Bswap16(ws[i])
  {
    if |ws| == 0 then [] else SwapAll(ws[..|ws| - 1]) + [Bswap16(ws[|ws| - 1])]
  }

  lemma SwapAllInvolution(ws: seq<bv16>)
    ensures SwapAll(SwapAll(ws)) == ws
  {
    forall i | 0 <= i < |ws|
      ensures SwapAll(SwapAll(ws))[i] == ws[i]
    {
      Bswap16Involution(ws[i]);
    }
  }
}
