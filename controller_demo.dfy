/** The bus-controller demo of samples/i2c_slave/src/main.c, replayed on the
    target's state machine: its register helpers become bus transactions
    (sequences of callbacks), and its scenario becomes a lemma. */
module ControllerDemo {
  import opened RegisterMap
  import opened TargetState
  import opened TargetProperties

  /** `i2c_write_reg`: a write transaction of the address byte and one data
      byte, then a stop. */
  function WriteReg(s: State, reg: bv8, val: bv8, now: int): State
  {
    WriteReceived(WriteReceived(WriteRequested(s), reg, now), val, now)
  }

  /** `i2c_read_reg`: a write transaction of the address byte, then a
      one-byte read. Returns the new state and the byte read. */
  function ReadReg(s: State, reg: bv8, now: int): (State, bv8)
  {
    var s1 := WriteReceived(WriteRequested(s), reg, now);
    (s1, ReadRequested(s1))
  }

  /** The two bytes of a two-byte read starting at register `reg`. */
  function ReadPair(s: State, reg: bv8, now: int): (State, bv8, bv8)
  {
    var s1 := WriteReceived(WriteRequested(s), reg, now);
    var (s2, second) := ReadProcessed(s1);
    (s2, ReadRequested(s1), second)
  }

  /** `i2c_read_u16`: a two-byte read combined as `buf[1] << 8 | buf[0]`. */
  function ReadU16(s: State, reg: bv8, now: int): (State, nat)
  {
    var (s2, first, second) := ReadPair(s, reg, now);
    (s2, Combine(second, first))
  }

  /** A two-byte read of the humidity that takes the register order of the
      map into account: HUMID_H comes first, so it is the high byte. */
  function ReadHumidity(s: State, now: int): (State, nat)
  {
    var (s2, first, second) := ReadPair(s, RegHumidH as bv8, now);
    (s2, Combine(first, second))
  }

  /** The helpers send the bytes the bus callbacks expect. */
  lemma TransactionsAsRuns(s: State, reg: bv8, val: bv8, now: int)
    ensures WriteReg(s, reg, val, now)
            == Run(s, [WriteRequest, WriteByte(reg, now), WriteByte(val, now), StopCondition])
    ensures ReadReg(s, reg, now).0
            == Run(s, [WriteRequest, WriteByte(reg, now), StopCondition, ReadRequest, StopCondition])
    ensures ReadPair(s, reg, now).0
            == Run(s, [WriteRequest, WriteByte(reg, now), StopCondition, ReadRequest, ReadContinue,
                       StopCondition])
  {
    var a := [WriteRequest, WriteByte(reg, now)];
    RunSingle(s, WriteRequest);
    RunSingle(WriteRequested(s), WriteByte(reg, now));
    RunAppend(s, [WriteRequest], [WriteByte(reg, now)]);
    assert [WriteRequest] + [WriteByte(reg, now)] == a;
    var s1 := Run(s, a);
    RunSingle(s1, WriteByte(val, now));
    RunSingle(Step(s1, WriteByte(val, now)), StopCondition);
    RunAppend(s1, [WriteByte(val, now)], [StopCondition]);
    RunAppend(s, a, [WriteByte(val, now), StopCondition]);
    assert a + ([WriteByte(val, now)] + [StopCondition])
           == [WriteRequest, WriteByte(reg, now), WriteByte(val, now), StopCondition];
    RunSingle(s1, StopCondition);
    RunSingle(s1, ReadRequest);
    RunAppend(s1, [StopCondition], [ReadRequest]);
    RunAppend(s1, [StopCondition, ReadRequest], [StopCondition]);
    assert [StopCondition] + [ReadRequest] == [StopCondition, ReadRequest];
    RunAppend(s, a, [StopCondition, ReadRequest, StopCondition]);
    assert a + ([StopCondition, ReadRequest] + [StopCondition])
           == [WriteRequest, WriteByte(reg, now), StopCondition, ReadRequest, StopCondition];
    var s2 := ReadProcessed(s1).0;
    RunSingle(s1, ReadContinue);
    RunSingle(s2, StopCondition);
    RunAppend(s1, [StopCondition, ReadRequest], [ReadContinue]);
    RunAppend(s1, [StopCondition, ReadRequest, ReadContinue], [StopCondition]);
    assert [StopCondition, ReadRequest] + [ReadContinue] == [StopCondition, ReadRequest, ReadContinue];
    RunAppend(s, a, [StopCondition, ReadRequest, ReadContinue, StopCondition]);
    assert a + ([StopCondition, ReadRequest, ReadContinue] + [StopCondition])
           == [WriteRequest, WriteByte(reg, now), StopCondition, ReadRequest, ReadContinue, StopCondition];
  }

  /** Sending a register's address as a byte selects that register. */
  lemma AddressByte(a: Address)
    ensures ((a as bv8) as nat) % RegCount == a
  {
    ByteValue(a);
  }

  /** A two-byte read at register `a` returns `a` and its successor, which
      after LOCK_STATUS is WHO_AM_I. */
  lemma ReadPairAt(s: State, a: Address, now: int)
    ensures ReadPair(s, a as bv8, now).1 == s.regs[a]
    ensures ReadPair(s, a as bv8, now).2 == s.regs[Next(a)]
  {
    AddressByte(a);
    FreshAddressPhase(s, a as bv8, now);
  }

  /** After a completed measurement a two-byte read from TEMP_L yields the
      temperature as (low, high), while one from HUMID_H yields the humidity
      as (high, low), because HUMID_H precedes HUMID_L in the map. */
  lemma MeasurementByteOrder(s: State, rand1: nat, rand2: nat, now: int)
    ensures var c := CompleteMeasurement(s, rand1, rand2);
      var t, h := Temperature(rand1), Humidity(rand2);
      ReadPair(c, RegTempL as bv8, now).1 == LowByte(t)
      && ReadPair(c, RegTempL as bv8, now).2 == HighByte(t)
      && ReadPair(c, RegHumidH as bv8, now).1 == HighByte(h)
      && ReadPair(c, RegHumidH as bv8, now).2 == LowByte(h)
  {
    var c := CompleteMeasurement(s, rand1, rand2);
    ReadPairAt(c, RegTempL, now);
    ReadPairAt(c, RegHumidH, now);
  }

  /** Read at HUMID_H with high byte first, the humidity comes back intact. */
  lemma ReadHumidityCorrect(s: State, rand1: nat, rand2: nat, now: int)
    ensures ReadHumidity(CompleteMeasurement(s, rand1, rand2), now).1 == Humidity(rand2)
  {
    MeasurementByteOrder(s, rand1, rand2, now);
    SplitCombine(Humidity(rand2));
  }

  /** `i2c_read_u16(REG_HUMID_H, …)` swaps the humidity's bytes: after a
      measurement with humidity 5000 (0x1388) it reads 0x8813 = 34835,
      outside the documented range [5000, 6999]. */
  lemma HumidityReadSwapped(s: State, rand1: nat, now: int)
    ensures ReadU16(CompleteMeasurement(s, rand1, 0), RegHumidH as bv8, now).1 == 34835
    ensures Humidity(0) == 5000
  {
    var c := CompleteMeasurement(s, rand1, 0);
    MeasurementByteOrder(s, rand1, 0, now);
    var p := ReadPair(c, RegHumidH as bv8, now);
    assert ReadU16(c, RegHumidH as bv8, now).1 == Combine(p.2, p.1);
    SwappedBytes();
  }

  lemma SwappedBytes()
    ensures Humidity(0) == 5000
    ensures Combine(LowByte(5000), HighByte(5000)) == 34835
  {
    assert LowByte(5000) == 0x88;
    assert HighByte(5000) == 0x13;
  }

  /** What the demo observes over the bus. */
  datatype Observed = Observed(
    whoAmI: bv8,             // step 1
    sessionCode: bv8,        // step 3
    status: bv8,             // step 5, after the measurement delay
    temp: nat,               // step 6
    humid: nat,
    lockAtTimeout: bv8,      // LOCK_STATUS after a tick exactly LOCK_TIMEOUT_MS after unlock
    lockAfterTimeout: bv8)   // step 7, after a tick one millisecond later

  /** Steps 1 to 3 of `main` at time `t` from the start-up state: read
      WHO_AM_I, try to start a measurement while locked, read the session
      code and write it back to UNLOCK. */
  function UnlockPhase(code: bv8, t: int): (State, bv8, bv8)
  {
    var s0 := Init(code);
    var (s1, who) := ReadReg(s0, RegWhoAmI as bv8, t);
    var s2 := WriteReg(s1, RegCtrl1 as bv8, 0x01, t);
    var (s3, c) := ReadReg(s2, RegSessionCode as bv8, t);
    var s4 := WriteReg(s3, RegUnlock as bv8, c, t);
    (s4, who, c)
  }

  /** Steps 4 to 6: start a measurement at `t`, let the device loop poll
      once the delay has passed, read STATUS, the temperature and the
      humidity. */
  function MeasurePhase(s: State, t: int, rand1: nat, rand2: nat): (State, bv8, nat, nat)
  {
    var s7 := WriteReg(s, RegCtrl1 as bv8, 0x01, t);
    var s8 := Poll(s7, t + MeasurementDelayMs, rand1, rand2);
    var (s9, st1) := ReadReg(s8, RegStatus as bv8, t + MeasurementDelayMs);
    var (s10, temp) := ReadU16(s9, RegTempL as bv8, t + MeasurementDelayMs);
    var (s11, humid) := ReadU16(s10, RegHumidH as bv8, t + MeasurementDelayMs);
    (s11, st1, temp, humid)
  }

  /** Step 7, its waiting loop run twice: lock-timer ticks exactly
      LOCK_TIMEOUT_MS after `t` and one millisecond later, each followed by
      a read of LOCK_STATUS. */
  function TimeoutPhase(s: State, t: int): (State, bv8, bv8)
  {
    var s12 := LockTimeout(s, t + LockTimeoutMs);
    var (s13, lock1) := ReadReg(s12, RegLockStatus as bv8, t + LockTimeoutMs);
    var s14 := LockTimeout(s13, t + LockTimeoutMs + 1);
    var (s15, lock2) := ReadReg(s14, RegLockStatus as bv8, t + LockTimeoutMs + 1);
    (s15, lock1, lock2)
  }

  /** The demo scenario of `main`, with every bus transaction at time `t`,
      the data-ready loop replaced by one poll of the device loop once the
      measurement delay has passed, and the auto-lock loop by lock-timer
      ticks at and just after the timeout. */
  function Scenario(rand: nat, t: int, rand1: nat, rand2: nat): Observed
  {
    var (s4, who, code) := UnlockPhase(SessionCodeOf(rand), t);
    var (s9, st1, temp, humid) := MeasurePhase(s4, t, rand1, rand2);
    var (_, lock1, lock2) := TimeoutPhase(s9, t);
    Observed(who, code, st1, temp, humid, lock1, lock2)
  }

  /** The demo reads 0x42; its CTRL1 write while locked starts nothing; it
      reads back the start-up session code, and writing it to UNLOCK
      unlocks the device at `t`. */
  lemma UnlockPhaseEffect(code: bv8, t: int)
    ensures var (s4, who, c) := UnlockPhase(code, t);
      who == 0x42 && c == code
      && s4.regs[RegLockStatus] == Unlocked && s4.unlockTime == t
      && !s4.inProgress && s4.regs[RegStatus] & StatusDataReady == 0
  {
    var s0 := Init(code);
    InitState(code);
    AddressByte(RegWhoAmI); AddressByte(RegCtrl1);
    AddressByte(RegSessionCode); AddressByte(RegUnlock);
    var (s1, who) := ReadReg(s0, RegWhoAmI as bv8, t);
    assert s1 == s0.(addrReceived := true) && who == 0x42;
    var s2 := WriteReg(s1, RegCtrl1 as bv8, 0x01, t);
    WriteCtrl1(s1.(currentReg := RegCtrl1), 0x01, t);
    assert s2 == s0.(regs := s0.regs[RegCtrl1 := 0x01], currentReg := RegStatus, addrReceived := true);
    var (s3, c) := ReadReg(s2, RegSessionCode as bv8, t);
    assert s3 == s2.(currentReg := RegSessionCode) && c == code;
    var s4 := WriteReg(s3, RegUnlock as bv8, c, t);
    WriteUnlock(s3.(currentReg := RegUnlock), c, t);
  }

  /** Unlocked and idle, a started measurement completes at the first poll
      after the delay: STATUS shows data-ready, the temperature reads back
      intact and the humidity byte-swapped; the lock state is untouched. */
  lemma MeasurePhaseEffect(s: State, t: int, rand1: nat, rand2: nat)
    requires s.regs[RegLockStatus] == Unlocked && !s.inProgress
    ensures var (s11, st1, temp, humid) := MeasurePhase(s, t, rand1, rand2);
      st1 & StatusDataReady != 0
      && temp == Temperature(rand1)
      && humid == Combine(LowByte(Humidity(rand2)), HighByte(Humidity(rand2)))
      && s11.regs[RegLockStatus] == Unlocked && s11.unlockTime == s.unlockTime
  {
    AddressByte(RegCtrl1); AddressByte(RegStatus);
    var s7 := WriteReg(s, RegCtrl1 as bv8, 0x01, t);
    WriteCtrl1(s.(currentReg := RegCtrl1, addrReceived := true), 0x01, t);
    assert s7.inProgress && s7.startTime == t && s7.unlockTime == s.unlockTime;
    assert s7.regs[RegLockStatus] == Unlocked;
    var s8 := Poll(s7, t + MeasurementDelayMs, rand1, rand2);
    PollEffect(s7, t + MeasurementDelayMs, rand1, rand2);
    assert s8 == CompleteMeasurement(s7, rand1, rand2);
    var (s9, st1) := ReadReg(s8, RegStatus as bv8, t + MeasurementDelayMs);
    assert s9.regs == s8.regs && s9.unlockTime == s.unlockTime && st1 == s8.regs[RegStatus];
    MeasurementByteOrder(s7, rand1, rand2, t + MeasurementDelayMs);
    ReadPairAt(s9, RegTempL, t + MeasurementDelayMs);
    var (s10, temp) := ReadU16(s9, RegTempL as bv8, t + MeasurementDelayMs);
    assert temp == Combine(HighByte(Temperature(rand1)), LowByte(Temperature(rand1)));
    SplitCombine(Temperature(rand1));
    assert s10.regs == s8.regs && s10.unlockTime == s.unlockTime;
    ReadPairAt(s10, RegHumidH, t + MeasurementDelayMs);
  }

  /** Unlocked at `t`, the device is still unlocked at a tick exactly
      LOCK_TIMEOUT_MS later and locked at the tick after. */
  lemma TimeoutPhaseEffect(s: State, t: int)
    requires s.regs[RegLockStatus] == Unlocked && s.unlockTime == t
    ensures TimeoutPhase(s, t).1 == Unlocked && TimeoutPhase(s, t).2 == Locked
  {
    AddressByte(RegLockStatus);
    var s12 := LockTimeout(s, t + LockTimeoutMs);
    assert s12 == s;
    var (s13, lock1) := ReadReg(s12, RegLockStatus as bv8, t + LockTimeoutMs);
    assert lock1 == Unlocked && s13.regs == s.regs && s13.unlockTime == t;
    LockDeviceEffect(s13);
  }

  /** The demo sees WHO_AM_I = 0x42, the start-up session code, data-ready
      after the delay, a temperature in range, the humidity with its bytes
      swapped, no relock at exactly LOCK_TIMEOUT_MS and a relock just
      after. */
  lemma ControllerScenario(rand: nat, t: int, rand1: nat, rand2: nat)
    ensures var o := Scenario(rand, t, rand1, rand2);
      o.whoAmI == 0x42
      && o.sessionCode == SessionCodeOf(rand)
      && o.status & StatusDataReady != 0
      && o.temp == Temperature(rand1) && 2000 <= o.temp <= 2999
      && o.humid == Combine(LowByte(Humidity(rand2)), HighByte(Humidity(rand2)))
      && o.lockAtTimeout == Unlocked
      && o.lockAfterTimeout == Locked
  {
    var p := UnlockPhase(SessionCodeOf(rand), t);
    UnlockPhaseEffect(SessionCodeOf(rand), t);
    var m := MeasurePhase(p.0, t, rand1, rand2);
    MeasurePhaseEffect(p.0, t, rand1, rand2);
    TimeoutPhaseEffect(m.0, t);
  }
}
