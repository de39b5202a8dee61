/** The emulated I2C target as the source keeps it: a register array and a
    handful of flags updated in place by the bus callbacks, the lock timer
    and the polling loop (samples/i2c_slave/src/i2c_slave.c). Each method
    is one atomic step and is proved to perform the matching transition of
    the state machine in target_state.dfy, so the lemmas proved there hold
    of the object; Valid() carries the lock invariant. */
module I2cSlave {
  import opened RegisterMap
  import opened TargetState
  import TargetProperties

  class Device {
    const regs: array<bv8>     // registers[]
    var currentReg: nat        // current_reg
    var addrReceived: bool     // reg_addr_received
    var inProgress: bool       // measurement_in_progress
    var startTime: int         // measurement_start_time_ms
    var unlockTime: int        // unlock_time_ms

    ghost predicate WellFormed()
      reads this
    {
      regs.Length == RegCount && currentReg < RegCount
    }

    /** The state-machine view of the object. */
    ghost function Abstract(): State
      reads this, regs
      requires WellFormed()
    {
      State(regs[..], currentReg, addrReceived, inProgress, startTime, unlockTime)
    }

    /** The object invariant: a well-formed state satisfying the lock invariant. */
    ghost predicate Valid()
      reads this, regs
    {
      WellFormed() && Inv(Abstract())
    }

    /** The static initialisers and `i2c_slave_init`'s register setup, with
        the `sys_rand32_get()` value of the session code as `rand`. */
    constructor (rand: nat)
      ensures fresh(regs)
      ensures Valid() && Abstract() == Init(SessionCodeOf(rand))
    {
      regs := new bv8[RegCount](i requires 0 <= i < RegCount => InitialRegisters[i]);
      currentReg, addrReceived := 0, false;
      inProgress, startTime, unlockTime := false, 0, 0;
      new;
      assert regs[..] == InitialRegisters;
      var code := SessionCodeOf(rand);
      regs[RegSessionCode] := code;
      regs[RegStatus] := StatusLocked;
      regs[RegLockStatus] := Locked;
      TargetProperties.InitState(code);
    }

    /** `lock_device`. */
    method LockDevice()
      requires WellFormed()
      modifies this, regs
      ensures WellFormed() && Abstract() == TargetState.LockDevice(old(Abstract()))
    {
      regs[RegLockStatus] := Locked;
      // set the locked bit and clear data-ready in one store
      regs[RegStatus] := (regs[RegStatus] | StatusLocked) & !StatusDataReady;
      regs[RegTempL] := 0xFF;
      regs[RegTempH] := 0xFF;
      regs[RegHumidL] := 0xFF;
      regs[RegHumidH] := 0xFF;
      inProgress := false;
    }

    /** `unlock_device`, with `k_uptime_get()` as `now`. */
    method UnlockDevice(now: int)
      requires WellFormed()
      modifies this, regs
      ensures WellFormed() && Abstract() == TargetState.UnlockDevice(old(Abstract()), now)
    {
      regs[RegLockStatus] := Unlocked;
      regs[RegStatus] := regs[RegStatus] & !StatusLocked;
      unlockTime := now;
    }

    /** `lock_timeout_handler`, run once per timer tick. */
    method LockTimeout(now: int)
      requires Valid()
      modifies this, regs
      ensures Valid() && Abstract() == TargetState.LockTimeout(old(Abstract()), now)
    {
      if regs[RegLockStatus] == Unlocked {
        if now - unlockTime > LockTimeoutMs {
          LockDevice();
        }
      }
      TargetProperties.StepPreservesInv(old(Abstract()), TimerTick(now));
    }

    /** `start_measurement`. */
    method StartMeasurement(now: int)
      requires WellFormed()
      modifies this, regs
      ensures WellFormed() && Abstract() == TargetState.StartMeasurement(old(Abstract()), now)
    {
      if regs[RegLockStatus] == Locked {
        return;
      }
      if inProgress {
        return;
      }
      inProgress := true;
      startTime := now;
      regs[RegStatus] := regs[RegStatus] & !StatusDataReady;
    }

    /** `complete_measurement`, with the two `sys_rand32_get()` values as
        `rand1` and `rand2`; only the polling loop calls it, and only while a
        measurement is in progress. */
    method CompleteMeasurement(rand1: nat, rand2: nat)
      requires Valid() && inProgress
      modifies this, regs
      ensures Valid() && Abstract() == TargetState.CompleteMeasurement(old(Abstract()), rand1, rand2)
    {
      var temp := Temperature(rand1);
      var humid := Humidity(rand2);
      regs[RegTempL] := LowByte(temp);
      regs[RegTempH] := HighByte(temp);
      regs[RegHumidL] := LowByte(humid);
      regs[RegHumidH] := HighByte(humid);
      regs[RegStatus] := regs[RegStatus] | StatusDataReady;
      inProgress := false;
      TargetProperties.CompleteKeepsInv(old(Abstract()), rand1, rand2);
    }

    /** One pass of the polling loop in `i2c_slave_main`, at time `now`. */
    method Poll(now: int, rand1: nat, rand2: nat)
      requires Valid()
      modifies this, regs
      ensures Valid() && Abstract() == TargetState.Poll(old(Abstract()), now, rand1, rand2)
    {
      if inProgress && now - startTime >= MeasurementDelayMs {
        CompleteMeasurement(rand1, rand2);
      }
    }

    /** `target_write_requested`. */
    method WriteRequested()
      requires Valid()
      modifies this
      ensures Valid() && Abstract() == TargetState.WriteRequested(old(Abstract()))
    {
      addrReceived := false;
    }

    /** `target_write_received`: the first byte of a write selects the
        register, each later byte is data for it. */
    method WriteReceived(val: bv8, now: int)
      requires Valid()
      modifies this, regs
      ensures Valid() && Abstract() == TargetState.WriteReceived(old(Abstract()), val, now)
    {
      ghost var s := Abstract();
      if !addrReceived {
        currentReg := (val as nat) % RegCount;
        addrReceived := true;
      } else {
        var a := currentReg;
        if !ReadOnlyMask[a] {
          regs[a] := val;
          ghost var stored := Abstract();
          assert stored == s.(regs := s.regs[a := val]);
          if a == RegCtrl1 && val & 0x01 != 0 {
            StartMeasurement(now);
          }
          if a == RegUnlock {
            if val == regs[RegSessionCode] {
              UnlockDevice(now);
            }
          }
          assert Abstract() == DataSideEffects(stored, a, val, now);
        }
        ghost var done := Abstract();
        currentReg := (a + 1) % RegCount;
        assert Abstract() == done.(currentReg := Next(a));
      }
      TargetProperties.WriteReceivedKeepsInv(old(Abstract()), val, now);
    }

    /** `target_read_requested`: the byte sent back is the current register;
        the pointer does not move. */
    method ReadRequested() returns (val: bv8)
      requires Valid()
      ensures val == regs[currentReg]
    {
      val := regs[currentReg];
    }

    /** `target_read_processed`: advance, then send the new register. */
    method ReadProcessed() returns (val: bv8)
      requires Valid()
      modifies this
      ensures Valid() && (Abstract(), val) == TargetState.ReadProcessed(old(Abstract()))
    {
      currentReg := (currentReg + 1) % RegCount;
      val := regs[currentReg];
    }

    /** `target_stop`: nothing changes. */
    method Stop()
      requires Valid()
      ensures Valid() && Abstract() == old(Abstract())
    {
    }
  }
}
