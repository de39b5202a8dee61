/** The demo of samples/i2c_slave/src/main.c driven against the Device
    object: each register helper issues the target's callbacks in the order
    a bus transfer delivers them. */
module ControllerMain {
  import opened RegisterMap
  import opened TargetState
  import opened ControllerDemo
  import opened I2cSlave

  /** `i2c_write_reg`. */
  method WriteRegister(d: Device, reg: bv8, val: bv8, now: int)
    requires d.Valid()
    modifies d, d.regs
    ensures d.Valid() && d.Abstract() == WriteReg(old(d.Abstract()), reg, val, now)
  {
    d.WriteRequested();
    d.WriteReceived(reg, now);
    d.WriteReceived(val, now);
    d.Stop();
  }

  /** `i2c_read_reg`. */
  method ReadRegister(d: Device, reg: bv8, now: int) returns (val: bv8)
    requires d.Valid()
    modifies d, d.regs
    ensures d.Valid() && (d.Abstract(), val) == ReadReg(old(d.Abstract()), reg, now)
  {
    d.WriteRequested();
    d.WriteReceived(reg, now);
    d.Stop();
    val := d.ReadRequested();
    d.Stop();
  }

  /** `i2c_read_u16`: two bytes combined as `buf[1] << 8 | buf[0]`. */
  method ReadRegister16(d: Device, reg: bv8, now: int) returns (val: nat)
    requires d.Valid()
    modifies d, d.regs
    ensures d.Valid() && (d.Abstract(), val) == ReadU16(old(d.Abstract()), reg, now)
  {
    d.WriteRequested();
    d.WriteReceived(reg, now);
    d.Stop();
    var b0 := d.ReadRequested();
    var b1 := d.ReadProcessed();
    d.Stop();
    val := Combine(b1, b0);
  }

  /** Steps 1 to 7 of `main` against a freshly initialised device, on the
      schedule of `Scenario`; the observations are those of `Scenario`, so
      ControllerScenario describes them. */
  method RunDemo(rand: nat, t: int, rand1: nat, rand2: nat) returns (o: Observed)
    ensures o == Scenario(rand, t, rand1, rand2)
  {
    var d := new Device(rand);
    var who := ReadRegister(d, RegWhoAmI as bv8, t);
    WriteRegister(d, RegCtrl1 as bv8, 0x01, t);
    var code := ReadRegister(d, RegSessionCode as bv8, t);
    WriteRegister(d, RegUnlock as bv8, code, t);
    WriteRegister(d, RegCtrl1 as bv8, 0x01, t);
    d.Poll(t + MeasurementDelayMs, rand1, rand2);
    var st1 := ReadRegister(d, RegStatus as bv8, t + MeasurementDelayMs);
    var temp := ReadRegister16(d, RegTempL as bv8, t + MeasurementDelayMs);
    var humid := ReadRegister16(d, RegHumidH as bv8, t + MeasurementDelayMs);
    d.LockTimeout(t + LockTimeoutMs);
    var lock1 := ReadRegister(d, RegLockStatus as bv8, t + LockTimeoutMs);
    d.LockTimeout(t + LockTimeoutMs + 1);
    var lock2 := ReadRegister(d, RegLockStatus as bv8, t + LockTimeoutMs + 1);
    o := Observed(who, code, st1, temp, humid, lock1, lock2);
  }
}
