/** The register map of the emulated I2C target: register addresses, the
    STATUS bit masks and the LOCK_STATUS values (samples/i2c_slave/src/i2c_slave.h). */
module RegisterMap {

  // Register addresses.
  const RegWhoAmI: nat := 0x00
  const RegCtrl1: nat := 0x01
  const RegStatus: nat := 0x02
  const RegTempL: nat := 0x03
  const RegTempH: nat := 0x04
  const RegHumidH: nat := 0x05
  const RegHumidL: nat := 0x06
  const RegConfig: nat := 0x07
  const RegPadding: nat := 0x08
  const RegSessionCode: nat := 0x09
  const RegUnlock: nat := 0x0A
  const RegLockStatus: nat := 0x0B
  const RegCount: nat := 0x0C

  // STATUS bits.
  const StatusDataReady: bv8 := 1 << 0
  const StatusLocked: bv8 := 1 << 1

  // LOCK_STATUS values.
  const Locked: bv8 := 0x01
  const Unlocked: bv8 := 0x00

  /** The named registers, in address order. */
  datatype Register =
    | WhoAmI | Ctrl1 | Status | TempL | TempH | HumidH | HumidL
    | Config | Padding | SessionCode | Unlock | LockStatus
  {
    /** The bus address of this register. */
    function Addr(): (a: nat)
      ensures a < RegCount
    {
      match this
      case WhoAmI => RegWhoAmI
      case Ctrl1 => RegCtrl1
      case Status => RegStatus
      case TempL => RegTempL
      case TempH => RegTempH
      case HumidH => RegHumidH
      case HumidL => RegHumidL
      case Config => RegConfig
      case Padding => RegPadding
      case SessionCode => RegSessionCode
      case Unlock => RegUnlock
      case LockStatus => RegLockStatus
    }
  }

  /** The register that answers at address `a`: every address below
      REG_COUNT names exactly one register. */
  function RegisterAt(a: nat): (r: Register)
    requires a < RegCount
    ensures r.Addr() == a
  {
    if a == RegWhoAmI then WhoAmI
    else if a == RegCtrl1 then Ctrl1
    else if a == RegStatus then Status
    else if a == RegTempL then TempL
    else if a == RegTempH then TempH
    else if a == RegHumidH then HumidH
    else if a == RegHumidL then HumidL
    else if a == RegConfig then Config
    else if a == RegPadding then Padding
    else if a == RegSessionCode then SessionCode
    else if a == RegUnlock then Unlock
    else LockStatus
  }

  /** Distinct registers have distinct addresses, so RegisterAt and Addr
      are inverse bijections between the registers and [0, REG_COUNT). */
  lemma AddrInjective(r1: Register, r2: Register)
    ensures r1.Addr() == r2.Addr() ==> r1 == r2
    ensures RegisterAt(r1.Addr()) == r1
  {
  }

  /** `x |= m`: sets the bits of `m` and leaves every other bit of `x`. */
  function SetBits(x: bv8, m: bv8): (r: bv8)
    ensures r & m == m
    ensures r & !m == x & !m
  {
    x | m
  }

  /** `x &= ~m`: clears the bits of `m` and leaves every other bit of `x`. */
  function ClearBits(x: bv8, m: bv8): (r: bv8)
    ensures r & m == 0
    ensures r & !m == x & !m
  {
    x & !m
  }

  /** The two STATUS flags are separate single bits, so setting or clearing
      one of them leaves the other as it was. */
  lemma StatusBitsIndependent(x: bv8)
    ensures StatusDataReady & StatusLocked == 0
    ensures SetBits(x, StatusDataReady) & StatusLocked == x & StatusLocked
    ensures ClearBits(x, StatusDataReady) & StatusLocked == x & StatusLocked
    ensures SetBits(x, StatusLocked) & StatusDataReady == x & StatusDataReady
    ensures ClearBits(x, StatusLocked) & StatusDataReady == x & StatusDataReady
  {
  }

  /** The two LOCK_STATUS values are distinguishable. */
  lemma LockValuesDistinct()
    ensures Locked != Unlocked
  {
  }

  /** `(uint8_t)(v & 0xFF)`: the low byte of a 16-bit value. */
  function LowByte(v: nat): bv8
  {
    (v % 256) as bv8
  }

  /** `(uint8_t)((v >> 8) & 0xFF)`: the high byte of a 16-bit value. */
  function HighByte(v: nat): bv8
  {
    ((v / 256) % 256) as bv8
  }

  /** A little-endian byte pair read back as a number: `high * 256 + low`. */
  function Combine(high: bv8, low: bv8): (v: nat)
    ensures v < 0x10000
  {
    (high as nat) * 256 + (low as nat)
  }

  /** Splitting a 16-bit value into its two bytes loses nothing. */
  lemma SplitCombine(v: nat)
    requires v < 0x10000
    ensures Combine(HighByte(v), LowByte(v)) == v
  {
    DivMod256(v);
    ByteValue(v % 256);
    ByteValue(v / 256);
  }

  lemma DivMod256(v: nat)
    requires v < 0x10000
    ensures v == (v / 256) * 256 + v % 256 && v / 256 < 256
  {
  }

  /** A number below 256 survives the trip to a byte and back. */
  lemma ByteValue(x: nat)
    requires x < 256
    ensures (x as bv8) as nat == x
  {
    BitsValue(x);
    var b := FromBits(x);
    assert (b as nat) as bv8 == b;
  }

  /** The byte holding the binary digits of `x`, assembled with shifts. */
  ghost function FromBits(x: nat): bv8
    requires x < 256
  {
    if x == 0 then 0 else (FromBits(x / 2) << 1) | LowBit(x)
  }

  ghost function LowBit(x: nat): bv8
  {
    if x % 2 == 1 then 1 else 0
  }

  lemma {:induction false} BitsValue(x: nat)
    requires x < 256
    ensures FromBits(x) as nat == x
  {
    if x != 0 {
      Halve(x);
      BitsValue(x / 2);
      LowBitValue(x);
      ShiftIn(FromBits(x / 2), LowBit(x));
    }
  }

  lemma Halve(x: nat)
    requires x < 256
    ensures x / 2 < 128 && x == 2 * (x / 2) + x % 2
  {
  }

  lemma LowBitValue(x: nat)
    ensures LowBit(x) as nat == x % 2
  {
  }

  lemma ShiftIn(b: bv8, c: bv8)
    requires b as nat < 128 && c as nat < 2
    ensures ((b << 1) | c) as nat == 2 * (b as nat) + c as nat
  {
  }
}
