# Emulated I2C target register device — Dafny model

This project models the emulated I2C *target* of the `i2c_slave` sample: a
sensor-like peripheral with twelve byte registers that a bus controller
drives with address-then-data writes and auto-incrementing reads. It has a
lock controller: the device starts locked and unlocks when the controller
writes the session code into UNLOCK. It relocks on its own when strictly
more than 5000 ms have passed since the unlock. It also has a measurement
controller: a write of CTRL1 with bit 0 set starts a measurement while the
device is unlocked, and the polling loop completes it at least 500 ms
later. Completion writes synthetic temperature and humidity values and
sets the STATUS data-ready bit.

Files:

- `register_map.dfy` (module `RegisterMap`): the header's register
  addresses, the STATUS bits and the LOCK_STATUS values. It has a
  `Register` enumeration with its address bijection, the `|=` / `&= ~`
  bit updates, and the split of a 16-bit value into bytes.
- `target_state.dfy` (module `TargetState`): the device as a pure state
  machine. It has the register file, the read-only mask, and one function
  per callback and helper of `i2c_slave.c`. Sequential runs are modelled
  as event sequences. It also defines the lock invariant `Inv`.
- `target_properties.dfy` (module `TargetProperties`): what each
  operation does, the auto-increment law, and the proof that every
  reachable state satisfies the lock invariant.
- `device.dfy` (module `I2cSlave`): class `Device`. It holds the register
  `array<bv8>` and the file-scope flags, which its methods update in place.
  Each method is proved to make exactly the matching state-machine step.
  `Valid()` carries the lock invariant.
- `controller_demo.dfy` (module `ControllerDemo`) and `controller_main.dfy`
  (module `ControllerMain`): the bus-controller demo of `main.c`. Its
  register helpers become bus transactions, and its scenario is replayed
  once on the state machine and once on a `Device` object.

Modelling decisions:

- Register addresses come from the header: HUMID_H is 5 and HUMID_L is 6.
  The comments beside `registers[]` and `reg_readonly[]` in `i2c_slave.c`
  label these two slots the other way round. Both slots start at 0xFF and
  both are read-only, so the labels change no value.
- `target_stop` changes nothing. The next write's address phase comes only
  from `target_write_requested` clearing `reg_addr_received`. A stop
  condition therefore does not start a new address phase
  (i2c_slave.c:180, 241-245).
- Unlocking while already unlocked refreshes the unlock time.
- A data byte aimed at a read-only register still advances the pointer.
- Time (`k_uptime_get`) and the random source (`sys_rand32_get`) are
  parameters: `now`, `rand`, `rand1` and `rand2`.
- Each callback, timer tick and poll pass is one atomic step.

## Model

| member | source | states |
|---|---|---|
| `RegisterMap.Register.Addr` | samples/i2c_slave/src/i2c_slave.h:13-27 | every named register has an address below REG_COUNT |
| `RegisterMap.RegisterAt` | samples/i2c_slave/src/i2c_slave.h:13-27 | every address below REG_COUNT names the register whose address it is |
| `RegisterMap.AddrInjective` | samples/i2c_slave/src/i2c_slave.h:13-27 | distinct registers have distinct addresses; `RegisterAt` inverts `Addr` |
| `RegisterMap.SetBits` | samples/i2c_slave/src/i2c_slave.c:88 | `x \|= m` sets the bits of `m` and keeps every other bit |
| `RegisterMap.ClearBits` | samples/i2c_slave/src/i2c_slave.c:91 | `x &= ~m` clears the bits of `m` and keeps every other bit |
| `RegisterMap.StatusBitsIndependent` | samples/i2c_slave/src/i2c_slave.h:29-31 | the data-ready and locked bits are disjoint; setting or clearing one keeps the other |
| `RegisterMap.LockValuesDistinct` | samples/i2c_slave/src/i2c_slave.h:33-35 | LOCKED differs from UNLOCKED |
| `RegisterMap.Combine` | samples/i2c_slave/src/main.c:51 | a byte pair read back as `high * 256 + low` is a 16-bit value |
| `RegisterMap.LowByte` | samples/i2c_slave/src/i2c_slave.c:160-163 | no contract; the effect is stated by RegisterMap.SplitCombine |
| `RegisterMap.HighByte` | samples/i2c_slave/src/i2c_slave.c:160-163 | no contract; the effect is stated by RegisterMap.SplitCombine |
| `RegisterMap.SplitCombine` | samples/i2c_slave/src/i2c_slave.c:160-163 | the low and high bytes written for a 16-bit value recombine to that value |
| `TargetState.Temperature` | samples/i2c_slave/src/i2c_slave.c:155 | the synthetic temperature lies in [2000, 2999] |
| `TargetState.Humidity` | samples/i2c_slave/src/i2c_slave.c:156 | the synthetic humidity lies in [5000, 6999] |
| `TargetState.Init` | samples/i2c_slave/src/i2c_slave.c:260-268 | no contract; together with the static table at i2c_slave.c:32-45, the effect is stated by TargetProperties.InitState |
| `TargetState.SessionCodeOf` | samples/i2c_slave/src/i2c_slave.c:263 | no contract; the effect is stated by TargetProperties.InitState |
| `TargetState.LockDevice` | samples/i2c_slave/src/i2c_slave.c:81-102 | no contract; the effect is stated by TargetProperties.LockDeviceEffect and TargetProperties.LockDeviceIdempotent |
| `TargetState.UnlockDevice` | samples/i2c_slave/src/i2c_slave.c:104-117 | no contract; the effect is stated by TargetProperties.UnlockDeviceEffect |
| `TargetState.LockTimeout` | samples/i2c_slave/src/i2c_slave.c:120-128 | no contract; the effect is stated by TargetProperties.LockTimeoutEffect and TargetProperties.NoRelockAtBoundary |
| `TargetState.StartMeasurement` | samples/i2c_slave/src/i2c_slave.c:133-149 | no contract; the effect is stated by TargetProperties.StartMeasurementEffect |
| `TargetState.CompleteMeasurement` | samples/i2c_slave/src/i2c_slave.c:152-172 | no contract; the effect is stated by TargetProperties.PollEffect and TargetProperties.CompleteKeepsInv |
| `TargetState.MeasurementDue` | samples/i2c_slave/src/i2c_slave.c:287-288 | no contract; the effect is stated by TargetProperties.PollEffect |
| `TargetState.Poll` | samples/i2c_slave/src/i2c_slave.c:285-290 | no contract; the effect is stated by TargetProperties.PollEffect |
| `TargetState.WriteRequested` | samples/i2c_slave/src/i2c_slave.c:177-182 | no contract; the effect is stated by TargetProperties.FreshAddressPhase |
| `TargetState.DataSideEffects` | samples/i2c_slave/src/i2c_slave.c:202-214 | no contract; the effect is stated by TargetProperties.WriteCtrl1, TargetProperties.WriteUnlock and TargetProperties.SideEffectsKeepInv |
| `TargetState.WriteReceived` | samples/i2c_slave/src/i2c_slave.c:185-219 | no contract; the effect is stated by TargetProperties.FreshAddressPhase, ReadOnlyWriteRejected, WritableStored, WriteCtrl1, WriteUnlock and WriteReceivedKeepsInv |
| `TargetState.ReadRequested` | samples/i2c_slave/src/i2c_slave.c:222-228 | no contract; the effect is stated by TargetProperties.ReadCallbacks |
| `TargetState.ReadProcessed` | samples/i2c_slave/src/i2c_slave.c:231-238 | no contract; the effect is stated by TargetProperties.ReadCallbacks and TargetProperties.TwoByteRead |
| `TargetState.Step` | samples/i2c_slave/src/i2c_slave.c:247-253 | no contract; the effect is stated by TargetProperties.StepPreservesInv |
| `TargetState.Run` | samples/i2c_slave/src/i2c_slave.c:247-253 | no contract; the effect is stated by TargetProperties.AddressLaw, TargetProperties.RunPreservesInv and TargetProperties.Reachable |
| `TargetState.LockConsistent` | samples/i2c_slave/src/i2c_slave.c:81-117 | no contract; the effect is stated by TargetProperties.Reachable |
| `TargetState.Inv` | samples/i2c_slave/src/i2c_slave.c:32-45 | no contract; the effect is stated by TargetProperties.RunPreservesInv and TargetProperties.Reachable |
| `TargetProperties.InitState` | samples/i2c_slave/src/i2c_slave.c:260-268 | after start-up: locked, STATUS locked bit set and data-ready clear, TEMP/HUMID 0xFF, SESSION_CODE holds the drawn code, pointer at 0, no measurement, invariant holds |
| `TargetProperties.LockDeviceEffect` | samples/i2c_slave/src/i2c_slave.c:81-102 | lock sets LOCK_STATUS and the locked bit, clears data-ready, forces TEMP/HUMID to 0xFF, aborts the measurement, keeps the other STATUS bits, the other registers, the pointer and the timestamps; yields a lock-consistent state |
| `TargetProperties.LockDeviceIdempotent` | samples/i2c_slave/src/i2c_slave.c:81-102 | locking an already locked device changes nothing |
| `TargetProperties.UnlockDeviceEffect` | samples/i2c_slave/src/i2c_slave.c:104-117 | unlock sets UNLOCKED, clears only the locked bit, stamps the time, touches nothing else; a second unlock only refreshes the time |
| `TargetProperties.LockTimeoutEffect` | samples/i2c_slave/src/i2c_slave.c:120-128 | the timeout relocks exactly when unlocked and more than 5000 ms have passed, and otherwise changes nothing; locked afterwards iff locked before or expired |
| `TargetProperties.NoRelockAtBoundary` | samples/i2c_slave/src/i2c_slave.c:124 | exactly 5000 ms after the unlock nothing happens; one millisecond later the device relocks |
| `TargetProperties.StartMeasurementEffect` | samples/i2c_slave/src/i2c_slave.c:133-149 | start is a no-op while locked or running, so the start time is kept; otherwise it sets in-progress, records the time and clears only data-ready |
| `TargetProperties.PollEffect` | samples/i2c_slave/src/i2c_slave.c:152-172 | a poll completes only when running and at least 500 ms have passed; TEMP and HUMID then recombine to the generated values in range, data-ready is set with the rest of STATUS kept, in-progress is cleared, other registers and state unchanged; otherwise nothing changes |
| `TargetProperties.NextWraps` | samples/i2c_slave/src/i2c_slave.c:216 | the pointer moves to the next address and wraps from LOCK_STATUS to WHO_AM_I |
| `TargetProperties.FreshAddressPhase` | samples/i2c_slave/src/i2c_slave.c:177-192 | after write_requested the next byte sets the pointer to `val % 12` and changes no register |
| `TargetProperties.ReadOnlyWriteRejected` | samples/i2c_slave/src/i2c_slave.c:196-197 | a data byte for a read-only register changes nothing except advancing the pointer |
| `TargetProperties.WritableStored` | samples/i2c_slave/src/i2c_slave.c:196-216 | a data byte for a writable register is stored whatever the lock state and the pointer advances; CONFIG and PADDING have no other effect |
| `TargetProperties.WritableRegisters` | samples/i2c_slave/src/i2c_slave.c:48-61 | exactly CTRL1, CONFIG, PADDING and UNLOCK are writable, stated both by address and by the header's register names |
| `TargetProperties.WriteCtrl1` | samples/i2c_slave/src/i2c_slave.c:202-205 | a CTRL1 write that cannot start (bit 0 clear, locked or running) changes only CTRL1 and the pointer; one that starts also sets in-progress, the start time and clears data-ready |
| `TargetProperties.WriteUnlock` | samples/i2c_slave/src/i2c_slave.c:207-214 | an UNLOCK byte is stored; it unlocks, clears the STATUS locked bit and stamps the time exactly when it equals SESSION_CODE, keeping the address phase and every other register; otherwise lock state, STATUS and unlock time are unchanged |
| `TargetProperties.ReadCallbacks` | samples/i2c_slave/src/i2c_slave.c:221-238 | read_requested returns the current register without moving; read_processed advances, then returns the new register |
| `TargetProperties.TwoByteRead` | samples/i2c_slave/src/i2c_slave.c:231-238 | a two-byte read at `a` returns register `a` and then register `(a + 1) % 12`, so after LOCK_STATUS comes WHO_AM_I |
| `TargetProperties.AddressLaw` | samples/i2c_slave/src/i2c_slave.c:184-238 | from address A, a run with N data bytes and read continuations and no new write transaction ends at `(A + N) % 12` |
| `TargetProperties.AutoIncrement` | samples/i2c_slave/src/i2c_slave.c:216 | N data bytes or read continuations in a row from A end at `(A + N) % 12` |
| `TargetProperties.StoreKeepsInv` | samples/i2c_slave/src/i2c_slave.c:200 | storing into a writable register keeps the lock invariant and SESSION_CODE |
| `TargetProperties.StartKeepsInv` | samples/i2c_slave/src/i2c_slave.c:133-149 | starting a measurement keeps the lock invariant |
| `TargetProperties.UnlockKeepsInv` | samples/i2c_slave/src/i2c_slave.c:104-117 | unlocking keeps the lock invariant |
| `TargetProperties.WriteReceivedKeepsInv` | samples/i2c_slave/src/i2c_slave.c:185-219 | every written byte keeps the lock invariant and SESSION_CODE |
| `TargetProperties.SideEffectsKeepInv` | samples/i2c_slave/src/i2c_slave.c:202-214 | the CTRL1 and UNLOCK side effects of a data byte keep the lock invariant and SESSION_CODE |
| `TargetProperties.CompleteKeepsInv` | samples/i2c_slave/src/i2c_slave.c:152-172 | completing a running measurement keeps the lock invariant |
| `TargetProperties.PollKeepsInv` | samples/i2c_slave/src/i2c_slave.c:285-290 | every poll keeps the lock invariant and SESSION_CODE |
| `TargetProperties.StepPreservesInv` | samples/i2c_slave/src/i2c_slave.c:247-253 | every callback, timer tick and poll keeps the lock invariant and SESSION_CODE |
| `TargetProperties.RunPreservesInv` | samples/i2c_slave/src/i2c_slave.c:247-253 | every sequential run keeps the lock invariant and SESSION_CODE |
| `TargetProperties.Reachable` | samples/i2c_slave/src/i2c_slave.c:32-45 | in every state reachable from start-up: WHO_AM_I is 0x42, SESSION_CODE holds the start-up code, the locked bit is set iff LOCK_STATUS is LOCKED, LOCK_STATUS is LOCKED or UNLOCKED, and a locked device shows 0xFF data, no data-ready and no measurement |
| `I2cSlave.Device.constructor` | samples/i2c_slave/src/i2c_slave.c:260-268 | the new object is the start-up state for the drawn session code and satisfies the invariant |
| `I2cSlave.Device.LockDevice` | samples/i2c_slave/src/i2c_slave.c:81-102 | the in-place update makes exactly the lock transition |
| `I2cSlave.Device.UnlockDevice` | samples/i2c_slave/src/i2c_slave.c:104-117 | the in-place update makes exactly the unlock transition |
| `I2cSlave.Device.LockTimeout` | samples/i2c_slave/src/i2c_slave.c:120-128 | the timeout check makes exactly the timeout transition and keeps the invariant |
| `I2cSlave.Device.StartMeasurement` | samples/i2c_slave/src/i2c_slave.c:133-149 | the guarded start makes exactly the start transition |
| `I2cSlave.Device.CompleteMeasurement` | samples/i2c_slave/src/i2c_slave.c:152-172 | completion makes exactly the completion transition and keeps the invariant |
| `I2cSlave.Device.Poll` | samples/i2c_slave/src/i2c_slave.c:285-290 | one loop pass makes exactly the poll transition and keeps the invariant |
| `I2cSlave.Device.WriteRequested` | samples/i2c_slave/src/i2c_slave.c:177-182 | only the address-phase flag is reset |
| `I2cSlave.Device.WriteReceived` | samples/i2c_slave/src/i2c_slave.c:185-219 | each byte makes exactly the write transition, including its side effects, and keeps the invariant |
| `I2cSlave.Device.ReadRequested` | samples/i2c_slave/src/i2c_slave.c:222-228 | returns the current register and changes nothing |
| `I2cSlave.Device.ReadProcessed` | samples/i2c_slave/src/i2c_slave.c:231-238 | advances the pointer and returns the new register |
| `I2cSlave.Device.Stop` | samples/i2c_slave/src/i2c_slave.c:241-245 | the stop condition changes nothing |
| `ControllerDemo.WriteReg` | samples/i2c_slave/src/main.c:23-27 | no contract; the effect is stated by ControllerDemo.TransactionsAsRuns |
| `ControllerDemo.ReadReg` | samples/i2c_slave/src/main.c:30-37 | no contract; the effect is stated by ControllerDemo.TransactionsAsRuns |
| `ControllerDemo.ReadPair` | samples/i2c_slave/src/main.c:40-50 | no contract; the effect is stated by ControllerDemo.TransactionsAsRuns and ControllerDemo.ReadPairAt |
| `ControllerDemo.ReadU16` | samples/i2c_slave/src/main.c:40-53 | no contract; the effect is stated by ControllerDemo.MeasurementByteOrder and ControllerDemo.HumidityReadSwapped |
| `ControllerDemo.ReadHumidity` | samples/i2c_slave/src/main.c:108 | no contract; the effect is stated by ControllerDemo.ReadHumidityCorrect (the corrected read of the finding below) |
| `ControllerDemo.UnlockPhase` | samples/i2c_slave/src/main.c:69-90 | no contract; the effect is stated by ControllerDemo.UnlockPhaseEffect |
| `ControllerDemo.MeasurePhase` | samples/i2c_slave/src/main.c:92-110 | no contract; the effect is stated by ControllerDemo.MeasurePhaseEffect |
| `ControllerDemo.TimeoutPhase` | samples/i2c_slave/src/main.c:112-121 | no contract; the effect is stated by ControllerDemo.TimeoutPhaseEffect |
| `ControllerDemo.Scenario` | samples/i2c_slave/src/main.c:69-121 | no contract; the effect is stated by ControllerDemo.ControllerScenario |
| `ControllerDemo.TransactionsAsRuns` | samples/i2c_slave/src/main.c:22-53 | the controller helpers are the callback sequences of one write or read transfer |
| `ControllerDemo.ReadPairAt` | samples/i2c_slave/src/main.c:40-53 | a two-byte read at a register returns it and its successor, wrapping after LOCK_STATUS |
| `ControllerDemo.MeasurementByteOrder` | samples/i2c_slave/src/i2c_slave.h:17-20 | after a measurement, a two-byte read from TEMP_L yields (low, high) and one from HUMID_H yields (high, low) |
| `ControllerDemo.HumidityReadSwapped` | samples/i2c_slave/src/main.c:108 | reading humidity 5000 with `i2c_read_u16` at HUMID_H yields 34835 |
| `ControllerDemo.ReadHumidityCorrect` | samples/i2c_slave/src/main.c:108 | reading the pair at HUMID_H high byte first yields the generated humidity |
| `ControllerDemo.UnlockPhaseEffect` | samples/i2c_slave/src/main.c:69-90 | the demo reads 0x42, its CTRL1 write while locked starts nothing, it reads back the start-up session code, and writing it to UNLOCK unlocks the device and stamps the time |
| `ControllerDemo.MeasurePhaseEffect` | samples/i2c_slave/src/main.c:92-110 | unlocked and idle, the started measurement completes at the first poll after 500 ms: STATUS shows data-ready, the temperature reads back intact, the humidity byte-swapped, and the lock state is untouched |
| `ControllerDemo.TimeoutPhaseEffect` | samples/i2c_slave/src/main.c:112-121 | unlocked at `t`, LOCK_STATUS still reads UNLOCKED after a tick at `t + 5000` and LOCKED after a tick at `t + 5001` |
| `ControllerDemo.ControllerScenario` | samples/i2c_slave/src/main.c:69-121 | the demo reads 0x42 and the session code, sees data-ready, reads a temperature in range, reads the humidity byte-swapped, sees no relock at exactly 5000 ms and a relock just after |
| `ControllerMain.WriteRegister` | samples/i2c_slave/src/main.c:23-27 | on a `Device`, the write helper makes the write transaction's transition |
| `ControllerMain.ReadRegister` | samples/i2c_slave/src/main.c:30-37 | on a `Device`, the read helper makes the read transaction's transition and returns its byte |
| `ControllerMain.ReadRegister16` | samples/i2c_slave/src/main.c:40-53 | on a `Device`, the two-byte read returns `buf[1] * 256 + buf[0]` |
| `ControllerMain.RunDemo` | samples/i2c_slave/src/main.c:55-124 | the demo run against a `Device` object observes what the scenario describes |

## Left out

- Concurrency is left out. This covers the register mutex (i2c_slave.c:27-29), the lock timer running in interrupt context (i2c_slave.c:130, 277), the polling thread (i2c_slave.c:295-299), and the unprotected `measurement_in_progress = false` after the mutex is released (i2c_slave.c:169). Every callback, tick and poll is one atomic step, so interleavings inside a step are not modelled.
- Time is an unbounded `int`. The truncation of `now` to `uint32_t` in the polling loop (i2c_slave.c:286) and 64-bit overflow are not modelled.
- `sys_rand32_get` values are arbitrary naturals, and the model does not restrict them to 32 bits. The results depend only on them modulo 256, 1000 and 2000.
- Transport registration (`i2c_target_register` and its error return, i2c_slave.c:270-274), starting the timer (i2c_slave.c:277), sleeps and all logging are left out. None of them changes register state.
- The 1 s timer period and the 50 ms poll period are not modelled. Ticks and polls are events at any times the caller chooses, so latency bounds are not stated.
- The demo's readiness check, error returns, sleeps and its two waiting loops (main.c:57-63, 96-103, 113-121) are left out. The data-ready loop becomes one poll at `t + 500` followed by one STATUS read. The auto-lock loop becomes two passes, with timer ticks at `t + 5000` and `t + 5001`. Transactions before the poll happen at `t`; each later one happens at the time of the poll or tick before it.
- `I2cSlave.Device.CompleteMeasurement` requires a measurement in progress. Its only caller, the polling loop, guarantees this, and the method needs it to keep the lock invariant. The state-machine function `TargetState.CompleteMeasurement` has no such requirement.
- `I2cSlave.Device.LockDevice`, `I2cSlave.Device.UnlockDevice` and `I2cSlave.Device.StartMeasurement` promise only well-formedness and the exact transition, not the invariant. They are helpers called in the middle of a step, and the step that calls them re-establishes the invariant.

## Findings

| source | as written | input that shows it | evidently intended | confidence | as-written member | corrected member |
|---|---|---|---|---|---|---|
| samples/i2c_slave/src/main.c:108 | `i2c_read_u16(REG_HUMID_H, …)` combines the pair as `buf[1] << 8 \| buf[0]`, but HUMID_H (address 5) comes first, so the bytes are swapped | humidity 5000 (`rand2 = 0`, bytes 0x13 at HUMID_H and 0x88 at HUMID_L) reads back as 34835 | the generated humidity, 5000, in [5000, 6999] | not executed; high | `ControllerDemo.HumidityReadSwapped` | `ControllerDemo.ReadHumidityCorrect` |

The device model keeps the header's layout. The corrected read
(`ControllerDemo.ReadHumidity`) takes the first byte as the high byte. The
replay of the demo (`ControllerDemo.Scenario`, `ControllerMain.RunDemo`)
runs `main.c` as written, so it observes the swapped value.
