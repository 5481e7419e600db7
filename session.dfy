/**
 * The bus session I2Cdev keeps in two static fields: the file handle of the
 * I2C bus (`handle`) and the slave address the handle is bound to
 * (`currentDevAddr`), I2CdevPi.cpp:27-28.  One handle is shared by every
 * device; `openDevice` opens the bus lazily and rebinds the handle to another
 * slave address only when the address changes (I2CdevPi.cpp:56-81).
 *
 * This module states `openDevice` as a function on session values; the class
 * in i2cdev.dfy performs the same steps on its fields and is proved equal to
 * it.  The outcomes of the two platform calls, `wiringPiI2CSetup` and
 * `ioctl(handle, I2C_SLAVE, devAddr)`, are not computed here: they arrive as a
 * `Platform` value.
 */
module BusSession {

  /** The two static fields. */
  datatype Session = Session(handle: int, currentDevAddr: bv8)

  /** Their initial values (I2CdevPi.cpp:27-28): no bus open, address 0. */
  function Initial(): (s: Session)
    ensures !IsOpen(s) && Valid(s)
  {
    Session(-1, 0)
  }

  /** What the platform answers during one call of openDevice: the value
      `wiringPiI2CSetup` would return (a handle, negative on failure) and
      whether `ioctl(I2C_SLAVE)` would succeed. */
  datatype Platform = Platform(setupHandle: int, selectOk: bool)

  /** The result of openDevice: the new session, the value it returns, and
      whether it issued a rebind (an `ioctl(I2C_SLAVE)` call). */
  datatype Opened = Opened(session: Session, ok: bool, rebind: bool)

  /** The bus is open when the handle is non-negative (I2CdevPi.cpp:58). */
  predicate IsOpen(s: Session)
  {
    s.handle >= 0
  }

  /** While the bus is closed the session is bound to no address but the
      initial one.  Holds initially and is kept by every operation. */
  predicate Valid(s: Session)
  {
    !IsOpen(s) ==> s.currentDevAddr == 0
  }

  /** openDevice (I2CdevPi.cpp:56-81).
      - On a closed bus it calls the setup; the handle becomes whatever setup
        returned, and the address is bound only when that handle is valid.
      - On an open bus it rebinds iff the address differs; a failed rebind
        returns false and leaves the binding as it was.
      - False comes from a failed rebind and from nothing else: a failed setup
        still returns true. */
  function OpenDevice(s: Session, devAddr: bv8, p: Platform): (o: Opened)
    ensures o.rebind <==> IsOpen(s) && s.currentDevAddr != devAddr
    ensures !o.ok <==> o.rebind && !p.selectOk
    ensures o.session.handle == if IsOpen(s) then s.handle else p.setupHandle
    ensures o.ok && IsOpen(o.session) ==> o.session.currentDevAddr == devAddr
    ensures !(o.ok && IsOpen(o.session)) ==> o.session.currentDevAddr == s.currentDevAddr
    ensures Valid(s) ==> Valid(o.session)
  {
    if !IsOpen(s) then
      if p.setupHandle >= 0 then Opened(Session(p.setupHandle, devAddr), true, false)
      else Opened(Session(p.setupHandle, s.currentDevAddr), true, false)
    else if s.currentDevAddr != devAddr then
      if !p.selectOk then Opened(s, false, true)
      else Opened(Session(s.handle, devAddr), true, true)
    else
      Opened(s, true, false)
  }

  /** The guard every transfer puts in front of openDevice, whose result it
      ignores (I2CdevPi.cpp:206-208, 227-229, 356-358, 377-379): openDevice is
      called only when the address differs from the bound one. */
  function Select(s: Session, devAddr: bv8, p: Platform): (o: Opened)
    ensures s.currentDevAddr == devAddr ==> o == Opened(s, true, false)
    ensures s.currentDevAddr != devAddr ==> o == OpenDevice(s, devAddr, p)
  {
    if devAddr != s.currentDevAddr then OpenDevice(s, devAddr, p) else Opened(s, true, false)
  }

  /** The number of rebinds an openDevice result stands for. */
  function Rebinds(o: Opened): nat
  {
    if o.rebind then 1 else 0
  }

  /** With the bus open, the same address is a no-op that succeeds. */
  lemma SameAddressNoRebind(s: Session, p: Platform)
    requires IsOpen(s)
    ensures OpenDevice(s, s.currentDevAddr, p) == Opened(s, true, false)
  {}

  /** With the bus open, a different address rebinds: on success the session
      is bound to it, on failure openDevice returns false and nothing changes. */
  lemma OtherAddressRebinds(s: Session, devAddr: bv8, p: Platform)
    requires IsOpen(s) && s.currentDevAddr != devAddr
    ensures OpenDevice(s, devAddr, p).rebind
    ensures p.selectOk ==> OpenDevice(s, devAddr, p) == Opened(Session(s.handle, devAddr), true, true)
    ensures !p.selectOk ==> OpenDevice(s, devAddr, p) == Opened(s, false, true)
  {}

  /** On a closed bus: a successful setup opens it bound to the address; a
      failed setup leaves it closed and unbound, and still reports true. */
  lemma ClosedBusSetup(s: Session, devAddr: bv8, p: Platform)
    requires !IsOpen(s)
    ensures p.setupHandle >= 0 ==> OpenDevice(s, devAddr, p) == Opened(Session(p.setupHandle, devAddr), true, false)
    ensures p.setupHandle < 0 ==> OpenDevice(s, devAddr, p) == Opened(Session(p.setupHandle, s.currentDevAddr), true, false)
  {}

  /** Once openDevice has left the bus open and bound, a second call with the
      same address issues no further rebind and changes nothing. */
  lemma OpenDeviceIdempotent(s: Session, devAddr: bv8, p: Platform, q: Platform)
    ensures var o := OpenDevice(s, devAddr, p);
      o.ok && IsOpen(o.session) ==> OpenDevice(o.session, devAddr, q) == Opened(o.session, true, false)
  {}

  /** A failed rebind is retried by the next call with the same address:
      nothing records the failure, so "at most one rebind per address change"
      holds only while rebinds succeed. */
  lemma FailedRebindRetried(s: Session, devAddr: bv8, p: Platform, q: Platform)
    requires IsOpen(s) && s.currentDevAddr != devAddr && !p.selectOk
    ensures OpenDevice(OpenDevice(s, devAddr, p).session, devAddr, q).rebind
  {}

  /** The transfer guard compares with the bound address only.  While the bus
      is closed the session stays bound to address 0 (Valid), so a transfer
      to address 0 never opens the bus: it proceeds on the invalid handle.
      This holds of the initial session and of the session a failed setup
      leaves. */
  lemma AddressZeroNeverOpens(s: Session, p: Platform)
    requires Valid(s) && !IsOpen(s)
    ensures Select(s, 0, p).session == s
  {}

  /** After a failed rebind the transfer is not abandoned: it goes to the
      previously bound device. */
  lemma StaleTargetAfterFailedRebind(s: Session, devAddr: bv8, p: Platform)
    requires IsOpen(s) && s.currentDevAddr != devAddr && !p.selectOk
    ensures Select(s, devAddr, p).session == s
    ensures Select(s, devAddr, p).session.currentDevAddr != devAddr
  {}

  /** Whatever the platform answers, a transfer leaves an open bus open and a
      session satisfying Valid still satisfying it. */
  lemma SelectKeepsOpenAndValid(s: Session, devAddr: bv8, p: Platform)
    ensures IsOpen(s) ==> IsOpen(Select(s, devAddr, p).session)
    ensures Valid(s) ==> Valid(Select(s, devAddr, p).session)
  {}
}
