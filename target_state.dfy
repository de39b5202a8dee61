/** The emulated I2C target of samples/i2c_slave/src/i2c_slave.c as a pure
    state machine: one function per callback or helper, each mapping the
    device state before the call to the state after it. The class in
    device.dfy is proved to follow these functions step by step. */
module TargetState {
  import opened RegisterMap

  const MeasurementDelayMs: int := 500
  const LockTimeoutMs: int := 5000

  /** The register file always holds exactly REG_COUNT bytes. */
  type Registers = r: seq<bv8> | |r| == RegCount
    witness [0, 0, 0, 0, 0, 0, 0, 0, 0, 0, 0, 0]

  /** A valid register address. */
  type Address = a: nat | a < RegCount

  /** The static contents of `registers[]` before initialisation. */
  const InitialRegisters: Registers :=
    [0x42, 0x00, StatusLocked, 0xFF, 0xFF, 0xFF, 0xFF, 0x00, 0x00, 0x00, 0x00, Locked]

  /** `reg_readonly[]`: WHO_AM_I, STATUS, TEMP_L/H, HUMID_H/L, SESSION_CODE
      and LOCK_STATUS reject bus writes. */
  const ReadOnlyMask: seq<bool> :=
    [true, false, true, true, true, true, true, false, false, true, false, true]

  predicate IsReadOnly(a: Address)
  {
    ReadOnlyMask[a]
  }

  /** The file-scope state of the device. */
  datatype State = State(
    regs: Registers,         // registers[]
    currentReg: Address,     // current_reg
    addrReceived: bool,      // reg_addr_received
    inProgress: bool,        // measurement_in_progress
    startTime: int,          // measurement_start_time_ms
    unlockTime: int)         // unlock_time_ms

  /** The register address after one auto-increment. */
  function Next(a: Address): Address
  {
    (a + 1) % RegCount
  }

  predicate IsLocked(s: State)
  {
    s.regs[RegLockStatus] == Locked
  }

  // ---------------------------------------------------------------------
  // Initialisation, lock controller, measurement controller

  /** The session code drawn at start-up: the low byte of a 32-bit random value. */
  function SessionCodeOf(rand: nat): bv8
  {
    (rand % 256) as bv8
  }

  /** Static initial values followed by `i2c_slave_init`'s register setup. */
  function Init(code: bv8): State
  {
    var r := InitialRegisters[RegSessionCode := code];
    State(r[RegStatus := StatusLocked][RegLockStatus := Locked], 0, false, false, 0, 0)
  }

  /** `lock_device`. */
  function LockDevice(s: State): State
  {
    var status := ClearBits(SetBits(s.regs[RegStatus], StatusLocked), StatusDataReady);
    var r := s.regs[RegLockStatus := Locked][RegStatus := status];
    s.(regs := r[RegTempL := 0xFF][RegTempH := 0xFF][RegHumidL := 0xFF][RegHumidH := 0xFF],
       inProgress := false)
  }

  /** `unlock_device`, with `k_uptime_get()` as `now`. */
  function UnlockDevice(s: State, now: int): State
  {
    var r := s.regs[RegLockStatus := Unlocked];
    s.(regs := r[RegStatus := ClearBits(r[RegStatus], StatusLocked)], unlockTime := now)
  }

  /** `lock_timeout_handler`. */
  function LockTimeout(s: State, now: int): State
  {
    if s.regs[RegLockStatus] == Unlocked && now - s.unlockTime > LockTimeoutMs then
      LockDevice(s)
    else
      s
  }

  /** `start_measurement`. */
  function StartMeasurement(s: State, now: int): State
  {
    if s.regs[RegLockStatus] == Locked then s
    else if s.inProgress then s
    else
      s.(inProgress := true, startTime := now,
         regs := s.regs[RegStatus := ClearBits(s.regs[RegStatus], StatusDataReady)])
  }

  /** The synthetic temperature `2000 + rand % 1000`, in hundredths of a degree. */
  function Temperature(rand: nat): (t: nat)
    ensures 2000 <= t <= 2999
  {
    2000 + rand % 1000
  }

  /** The synthetic humidity `5000 + rand % 2000`, in hundredths of a percent. */
  function Humidity(rand: nat): (h: nat)
    ensures 5000 <= h <= 6999
  {
    5000 + rand % 2000
  }

  /** `complete_measurement`, with the two `sys_rand32_get()` values as
      `rand1` and `rand2`. */
  function CompleteMeasurement(s: State, rand1: nat, rand2: nat): State
  {
    var t := Temperature(rand1);
    var h := Humidity(rand2);
    var r := s.regs[RegTempL := LowByte(t)][RegTempH := HighByte(t)];
    var r' := r[RegHumidL := LowByte(h)][RegHumidH := HighByte(h)];
    s.(regs := r'[RegStatus := SetBits(r'[RegStatus], StatusDataReady)], inProgress := false)
  }

  /** The completion condition polled by `i2c_slave_main`. */
  predicate MeasurementDue(s: State, now: int)
  {
    s.inProgress && now - s.startTime >= MeasurementDelayMs
  }

  /** One pass of the polling loop in `i2c_slave_main`. */
  function Poll(s: State, now: int, rand1: nat, rand2: nat): State
  {
    if MeasurementDue(s, now) then CompleteMeasurement(s, rand1, rand2) else s
  }

  // ---------------------------------------------------------------------
  // Bus callbacks

  /** `target_write_requested`: the next byte is an address again. */
  function WriteRequested(s: State): State
  {
    s.(addrReceived := false)
  }

  /** The side effects of storing `val` into writable register `a`. */
  function DataSideEffects(s: State, a: Address, val: bv8, now: int): State
  {
    var s1 := if a == RegCtrl1 && val & 0x01 != 0 then StartMeasurement(s, now) else s;
    if a == RegUnlock && val == s1.regs[RegSessionCode] then UnlockDevice(s1, now) else s1
  }

  /** `target_write_received`. */
  function WriteReceived(s: State, val: bv8, now: int): State
  {
    if !s.addrReceived then
      s.(currentReg := (val as nat) % RegCount, addrReceived := true)
    else
      var a := s.currentReg;
      var s1 := if IsReadOnly(a) then s else DataSideEffects(s.(regs := s.regs[a := val]), a, val, now);
      s1.(currentReg := Next(a))
  }

  /** `target_read_requested`: the byte sent back; the state is unchanged. */
  function ReadRequested(s: State): bv8
  {
    s.regs[s.currentReg]
  }

  /** `target_read_processed`: the new state and the byte sent back. */
  function ReadProcessed(s: State): (State, bv8)
  {
    var s' := s.(currentReg := Next(s.currentReg));
    (s', s'.regs[s'.currentReg])
  }

  // ---------------------------------------------------------------------
  // Sequential runs: each callback, timer tick and poll is one atomic step

  datatype Event =
    | WriteRequest
    | WriteByte(val: bv8, now: int)
    | ReadRequest
    | ReadContinue
    | StopCondition
    | TimerTick(now: int)
    | PollTick(now: int, rand1: nat, rand2: nat)

  function Step(s: State, e: Event): State
  {
    match e
    case WriteRequest => WriteRequested(s)
    case WriteByte(val, now) => WriteReceived(s, val, now)
    case ReadRequest => s
    case ReadContinue => ReadProcessed(s).0
    case StopCondition => s
    case TimerTick(now) => LockTimeout(s, now)
    case PollTick(now, rand1, rand2) => Poll(s, now, rand1, rand2)
  }

  function Run(s: State, evs: seq<Event>): State
    decreases |evs|
  {
    if evs == [] then s else Run(Step(s, evs[0]), evs[1..])
  }

  // ---------------------------------------------------------------------
  // The lock invariant

  /** The STATUS locked bit mirrors LOCK_STATUS, LOCK_STATUS holds one of the
      two lock values, and a locked device shows no data, no data-ready bit
      and no measurement in progress. */
  predicate LockConsistent(s: State)
  {
    var status := s.regs[RegStatus];
    (s.regs[RegLockStatus] == Locked || s.regs[RegLockStatus] == Unlocked)
    && ((status & StatusLocked != 0) <==> IsLocked(s))
    && (IsLocked(s) ==>
          status & StatusDataReady == 0
          && s.regs[RegTempL] == 0xFF && s.regs[RegTempH] == 0xFF
          && s.regs[RegHumidH] == 0xFF && s.regs[RegHumidL] == 0xFF
          && !s.inProgress)
  }

  /** The invariant of every reachable state. */
  predicate Inv(s: State)
  {
    s.regs[RegWhoAmI] == 0x42 && LockConsistent(s)
  }
}
