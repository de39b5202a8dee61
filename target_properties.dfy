/** What the emulated target promises, proved about the state machine of
    target_state.dfy: the effect of each callback and helper, the lock
    invariant of every reachable state, and the auto-increment law. */
module TargetProperties {
  import opened RegisterMap
  import opened TargetState

  // ---------------------------------------------------------------------
  // Initialisation

  /** After start-up the device is locked and shows no data. */
  lemma InitState(code: bv8)
    ensures var s := Init(code);
      Inv(s) && IsLocked(s)
      && s.regs[RegStatus] & StatusLocked != 0 && s.regs[RegStatus] & StatusDataReady == 0
      && s.regs[RegTempL] == 0xFF && s.regs[RegTempH] == 0xFF
      && s.regs[RegHumidH] == 0xFF && s.regs[RegHumidL] == 0xFF
      && s.regs[RegSessionCode] == code
      && s.currentReg == RegWhoAmI && !s.addrReceived && !s.inProgress
  {
  }

  // ---------------------------------------------------------------------
  // Lock controller

  /** The registers that `lock_device` writes. */
  predicate LockTouched(a: Address)
  {
    a == RegLockStatus || a == RegStatus || a == RegTempL || a == RegTempH
    || a == RegHumidH || a == RegHumidL
  }

  /** `lock_device` locks, hides the data, aborts the measurement and leaves
      every other register, the bus pointer and the timestamps alone. It is
      idempotent and always yields a lock-consistent state. */
  lemma LockDeviceEffect(s: State)
    ensures var r := LockDevice(s);
      IsLocked(r)
      && r.regs[RegStatus] & StatusLocked == StatusLocked
      && r.regs[RegStatus] & StatusDataReady == 0
      && r.regs[RegStatus] & !(StatusLocked | StatusDataReady)
         == s.regs[RegStatus] & !(StatusLocked | StatusDataReady)
      && r.regs[RegTempL] == 0xFF && r.regs[RegTempH] == 0xFF
      && r.regs[RegHumidH] == 0xFF && r.regs[RegHumidL] == 0xFF
      && !r.inProgress
      && (forall a: Address :: !LockTouched(a) ==> r.regs[a] == s.regs[a])
      && r.currentReg == s.currentReg && r.addrReceived == s.addrReceived
      && r.startTime == s.startTime && r.unlockTime == s.unlockTime
      && LockConsistent(r)
  {
    var r := LockDevice(s);
    var x := s.regs[RegStatus];
    assert r.regs[RegStatus] == (x | StatusLocked) & !StatusDataReady;
  }

  /** Locking an already locked device changes nothing. */
  lemma LockDeviceIdempotent(s: State)
    ensures LockDevice(LockDevice(s)) == LockDevice(s)
  {
    var r := LockDevice(s);
    var x := s.regs[RegStatus];
    assert r.regs[RegStatus] == (x | StatusLocked) & !StatusDataReady;
    assert LockDevice(r).regs == r.regs;
  }

  /** `unlock_device` unlocks and stamps the time, clearing only the STATUS
      locked bit; unlocking again only refreshes the timestamp. */
  lemma UnlockDeviceEffect(s: State, now: int, later: int)
    ensures var r := UnlockDevice(s, now);
      r.regs[RegLockStatus] == Unlocked && !IsLocked(r)
      && r.regs[RegStatus] & StatusLocked == 0
      && r.regs[RegStatus] & !StatusLocked == s.regs[RegStatus] & !StatusLocked
      && (forall a: Address :: a != RegLockStatus && a != RegStatus ==> r.regs[a] == s.regs[a])
      && r.unlockTime == now
      && r.inProgress == s.inProgress && r.startTime == s.startTime
      && r.currentReg == s.currentReg && r.addrReceived == s.addrReceived
      && LockConsistent(r)
      && UnlockDevice(r, later) == UnlockDevice(s, later)
  {
    var r := UnlockDevice(s, now);
    assert UnlockDevice(r, later).regs == UnlockDevice(s, later).regs;
  }

  /** `lock_timeout_handler` relocks exactly when the device is unlocked and
      strictly more than LOCK_TIMEOUT_MS have passed since the unlock;
      otherwise it changes nothing. */
  lemma LockTimeoutEffect(s: State, now: int)
    requires Inv(s)
    ensures var expired := !IsLocked(s) && now - s.unlockTime > LockTimeoutMs;
      (expired ==> LockTimeout(s, now) == LockDevice(s))
      && (!expired ==> LockTimeout(s, now) == s)
      && (IsLocked(LockTimeout(s, now)) <==> IsLocked(s) || now - s.unlockTime > LockTimeoutMs)
  {
  }

  /** Exactly LOCK_TIMEOUT_MS after the unlock the device is still unlocked. */
  lemma NoRelockAtBoundary(s: State)
    requires Inv(s) && !IsLocked(s)
    ensures LockTimeout(s, s.unlockTime + LockTimeoutMs) == s
    ensures IsLocked(LockTimeout(s, s.unlockTime + LockTimeoutMs + 1))
  {
  }

  // ---------------------------------------------------------------------
  // Measurement controller

  /** `start_measurement` does nothing while locked or while a measurement
      runs (so the start time is kept); otherwise it starts one at `now` and
      clears only the data-ready bit. */
  lemma StartMeasurementEffect(s: State, now: int)
    ensures var r := StartMeasurement(s, now);
      (IsLocked(s) || s.inProgress ==> r == s)
      && (!IsLocked(s) && !s.inProgress ==>
            r.inProgress && r.startTime == now
            && r.regs == s.regs[RegStatus := r.regs[RegStatus]]
            && r.regs[RegStatus] & StatusDataReady == 0
            && r.regs[RegStatus] & !StatusDataReady == s.regs[RegStatus] & !StatusDataReady
            && r.unlockTime == s.unlockTime
            && r.currentReg == s.currentReg && r.addrReceived == s.addrReceived)
  {
  }

  /** The registers that `complete_measurement` writes. */
  predicate MeasurementTouched(a: Address)
  {
    a == RegStatus || a == RegTempL || a == RegTempH || a == RegHumidH || a == RegHumidL
  }

  /** A poll completes a measurement only when one is in progress and at least
      MEASUREMENT_DELAY_MS have passed; the completed values lie in range, sit
      in the TEMP/HUMID registers as low and high bytes, and the data-ready
      bit is set with the rest of STATUS kept. */
  lemma PollEffect(s: State, now: int, rand1: nat, rand2: nat)
    ensures var r := Poll(s, now, rand1, rand2);
      (!MeasurementDue(s, now) ==> r == s)
      && (MeasurementDue(s, now) ==>
            var t := Combine(r.regs[RegTempH], r.regs[RegTempL]);
            var h := Combine(r.regs[RegHumidH], r.regs[RegHumidL]);
            t == Temperature(rand1) && 2000 <= t <= 2999
            && h == Humidity(rand2) && 5000 <= h <= 6999
            && r.regs[RegStatus] & StatusDataReady == StatusDataReady
            && r.regs[RegStatus] & !StatusDataReady == s.regs[RegStatus] & !StatusDataReady
            && !r.inProgress
            && (forall a: Address :: !MeasurementTouched(a) ==> r.regs[a] == s.regs[a])
            && r.startTime == s.startTime && r.unlockTime == s.unlockTime
            && r.currentReg == s.currentReg && r.addrReceived == s.addrReceived)
  {
    if MeasurementDue(s, now) {
      SplitCombine(Temperature(rand1));
      SplitCombine(Humidity(rand2));
    }
  }

  // ---------------------------------------------------------------------
  // Bus callbacks

  /** The pointer wraps from the last register back to WHO_AM_I. */
  lemma NextWraps(a: Address)
    ensures a + 1 < RegCount ==> Next(a) == a + 1
    ensures a == RegLockStatus ==> Next(a) == RegWhoAmI
  {
  }

  /** After `write_requested` the next byte is an address: it selects
      register `val % REG_COUNT` and changes no register or other state. */
  lemma FreshAddressPhase(s: State, val: bv8, now: int)
    ensures WriteReceived(WriteRequested(s), val, now)
            == s.(currentReg := (val as nat) % RegCount, addrReceived := true)
  {
  }

  /** A data byte aimed at a read-only register changes no register; the
      pointer still advances. */
  lemma ReadOnlyWriteRejected(s: State, val: bv8, now: int)
    requires s.addrReceived && IsReadOnly(s.currentReg)
    ensures WriteReceived(s, val, now) == s.(currentReg := Next(s.currentReg))
  {
  }

  /** A data byte aimed at a writable register is stored whatever the lock
      state, and the pointer advances; CONFIG and PADDING have no side
      effect at all. */
  lemma WritableStored(s: State, val: bv8, now: int)
    requires s.addrReceived && !IsReadOnly(s.currentReg)
    ensures WriteReceived(s, val, now).regs[s.currentReg] == val
    ensures WriteReceived(s, val, now).currentReg == Next(s.currentReg)
    ensures WriteReceived(s, val, now).addrReceived
    ensures s.currentReg == RegConfig || s.currentReg == RegPadding ==>
      WriteReceived(s, val, now)
      == s.(regs := s.regs[s.currentReg := val], currentReg := Next(s.currentReg))
  {
  }

  /** The writable registers are exactly CTRL1, CONFIG, PADDING and UNLOCK. */
  lemma WritableRegisters(a: Address)
    ensures !IsReadOnly(a) <==> a == RegCtrl1 || a == RegConfig || a == RegPadding || a == RegUnlock
    ensures !IsReadOnly(a) <==> RegisterAt(a) in {Ctrl1, Config, Padding, Unlock}
  {
  }

  /** A CTRL1 write that does not start a measurement (bit 0 clear, locked,
      or a measurement already running) changes only CTRL1 and the pointer;
      one that does start it also sets the in-progress flag, stamps the
      start time and clears the data-ready bit. */
  lemma WriteCtrl1(s: State, val: bv8, now: int)
    requires s.addrReceived && s.currentReg == RegCtrl1
    ensures var r := WriteReceived(s, val, now);
      var starts := val & 0x01 != 0 && !IsLocked(s) && !s.inProgress;
      r.regs[RegCtrl1] == val && r.currentReg == RegStatus
      && (!starts ==> r == s.(regs := s.regs[RegCtrl1 := val], currentReg := RegStatus))
      && (starts ==>
            r.inProgress && r.startTime == now
            && r.regs == s.regs[RegCtrl1 := val][RegStatus := ClearBits(s.regs[RegStatus], StatusDataReady)]
            && r.unlockTime == s.unlockTime && r.addrReceived)
  {
  }

  /** An UNLOCK write stores the byte; it unlocks (and stamps the time) exactly
      when the byte equals SESSION_CODE, and otherwise leaves the lock state,
      STATUS and the unlock time as they were. */
  lemma WriteUnlock(s: State, val: bv8, now: int)
    requires s.addrReceived && s.currentReg == RegUnlock
    ensures var r := WriteReceived(s, val, now);
      r.regs[RegUnlock] == val && r.currentReg == RegLockStatus
      && (val == s.regs[RegSessionCode] ==>
            r.regs[RegLockStatus] == Unlocked
            && r.regs[RegStatus] == ClearBits(s.regs[RegStatus], StatusLocked)
            && r.unlockTime == now && r.addrReceived
            && (forall a: Address :: a != RegUnlock && a != RegLockStatus && a != RegStatus
                  ==> r.regs[a] == s.regs[a]))
      && (val != s.regs[RegSessionCode] ==>
            r == s.(regs := s.regs[RegUnlock := val], currentReg := RegLockStatus))
      && (r.regs[RegLockStatus] == Unlocked
          <==> val == s.regs[RegSessionCode] || s.regs[RegLockStatus] == Unlocked)
      && r.inProgress == s.inProgress && r.startTime == s.startTime
  {
  }

  /** `read_requested` answers the current register and moves nothing;
      `read_processed` advances first and answers the new register. */
  lemma ReadCallbacks(s: State)
    ensures Step(s, ReadRequest) == s && ReadRequested(s) == s.regs[s.currentReg]
    ensures ReadProcessed(s).0 == s.(currentReg := Next(s.currentReg))
    ensures ReadProcessed(s).1 == s.regs[Next(s.currentReg)]
  {
  }

  /** A two-byte read starting at register `a` returns `a` and its successor,
      which after LOCK_STATUS is WHO_AM_I. */
  lemma TwoByteRead(s: State, a: Address)
    ensures var s0 := s.(currentReg := a);
      ReadRequested(s0) == s.regs[a] && ReadProcessed(s0).1 == s.regs[Next(a)]
  {
  }

  // ---------------------------------------------------------------------
  // Runs

  lemma RunSingle(s: State, e: Event)
    ensures Run(s, [e]) == Step(s, e)
  {
    assert [e][1..] == [];
  }

  /** Running two event sequences one after the other is running their
      concatenation. */
  lemma {:induction false} RunAppend(s: State, a: seq<Event>, b: seq<Event>)
    ensures Run(s, a + b) == Run(Run(s, a), b)
    decreases |a|
  {
    if a == [] {
      assert a + b == b;
    } else {
      assert (a + b)[0] == a[0];
      assert (a + b)[1..] == a[1..] + b;
      RunAppend(Step(s, a[0]), a[1..], b);
    }
  }

  // ---------------------------------------------------------------------
  // Auto-increment law

  /** Events that advance the pointer by one. */
  predicate Advances(e: Event)
  {
    e.WriteByte? || e.ReadContinue?
  }

  /** The number of pointer-advancing events in `evs`. */
  function Moves(evs: seq<Event>): nat
    decreases |evs|
  {
    if evs == [] then 0 else (if Advances(evs[0]) then 1 else 0) + Moves(evs[1..])
  }

  /** No new write transaction starts, and if the address phase is still
      open no byte is written (so that no byte is taken as an address). */
  predicate InDataPhase(s: State, evs: seq<Event>)
  {
    forall i :: 0 <= i < |evs| ==> !evs[i].WriteRequest? && (s.addrReceived || !evs[i].WriteByte?)
  }

  lemma AddModulo(a: Address, n: nat)
    ensures (Next(a) + n) % RegCount == (a + 1 + n) % RegCount
  {
  }

  /** Starting at address A, a run with N data bytes and read continuations
      (and any number of reads, stops, timer ticks and polls) ends at
      (A + N) mod REG_COUNT. */
  lemma {:induction false} AddressLaw(s: State, evs: seq<Event>)
    requires InDataPhase(s, evs)
    ensures Run(s, evs).currentReg == (s.currentReg + Moves(evs)) % RegCount
    decreases |evs|
  {
    if evs != [] {
      var e := evs[0];
      var s1 := Step(s, e);
      assert InDataPhase(s1, evs[1..]) by {
        assert s1.addrReceived == s.addrReceived;
        forall i | 0 <= i < |evs[1..]|
          ensures !evs[1..][i].WriteRequest? && (s1.addrReceived || !evs[1..][i].WriteByte?)
        {
          assert evs[1..][i] == evs[i + 1];
        }
      }
      AddressLaw(s1, evs[1..]);
      if Advances(e) {
        assert s1.currentReg == Next(s.currentReg);
        AddModulo(s.currentReg, Moves(evs[1..]));
      } else {
        assert s1.currentReg == s.currentReg;
      }
    }
  }

  /** N data bytes or read continuations in a row, starting at A, end at
      (A + N) mod REG_COUNT. */
  lemma {:induction false} AutoIncrement(s: State, evs: seq<Event>)
    requires s.addrReceived
    requires forall i :: 0 <= i < |evs| ==> Advances(evs[i])
    ensures Run(s, evs).currentReg == (s.currentReg + |evs|) % RegCount
  {
    AllAdvance(evs);
    AddressLaw(s, evs);
  }

  lemma {:induction false} AllAdvance(evs: seq<Event>)
    requires forall i :: 0 <= i < |evs| ==> Advances(evs[i])
    ensures Moves(evs) == |evs|
  {
    if evs != [] {
      assert forall i :: 0 <= i < |evs[1..]| ==> Advances(evs[1..][i]) by {
        forall i | 0 <= i < |evs[1..]| ensures Advances(evs[1..][i]) {
          assert evs[1..][i] == evs[i + 1];
        }
      }
      AllAdvance(evs[1..]);
    }
  }

  // ---------------------------------------------------------------------
  // The lock invariant in every reachable state

  /** Storing a byte into a writable register keeps the invariant and
      SESSION_CODE. */
  lemma StoreKeepsInv(s: State, a: Address, val: bv8)
    requires Inv(s) && !IsReadOnly(a)
    ensures Inv(s.(regs := s.regs[a := val]))
    ensures s.regs[a := val][RegSessionCode] == s.regs[RegSessionCode]
  {
    WritableRegisters(a);
  }

  /** `start_measurement` keeps the invariant: it only starts while unlocked. */
  lemma StartKeepsInv(s: State, now: int)
    requires Inv(s)
    ensures Inv(StartMeasurement(s, now))
    ensures StartMeasurement(s, now).regs[RegSessionCode] == s.regs[RegSessionCode]
  {
    if !IsLocked(s) && !s.inProgress {
      StatusBitsIndependent(s.regs[RegStatus]);
    }
  }

  /** `unlock_device` keeps the invariant. */
  lemma UnlockKeepsInv(s: State, now: int)
    requires Inv(s)
    ensures Inv(UnlockDevice(s, now))
    ensures UnlockDevice(s, now).regs[RegSessionCode] == s.regs[RegSessionCode]
  {
    UnlockDeviceEffect(s, now, now);
  }

  /** `target_write_received` keeps the invariant and SESSION_CODE. */
  lemma WriteReceivedKeepsInv(s: State, val: bv8, now: int)
    requires Inv(s)
    ensures Inv(WriteReceived(s, val, now))
    ensures WriteReceived(s, val, now).regs[RegSessionCode] == s.regs[RegSessionCode]
  {
    if s.addrReceived && !IsReadOnly(s.currentReg) {
      StoreKeepsInv(s, s.currentReg, val);
      SideEffectsKeepInv(s.(regs := s.regs[s.currentReg := val]), s.currentReg, val, now);
    }
  }

  /** The side effects of a data byte keep the invariant and SESSION_CODE. */
  lemma SideEffectsKeepInv(s: State, a: Address, val: bv8, now: int)
    requires Inv(s)
    ensures Inv(DataSideEffects(s, a, val, now))
    ensures DataSideEffects(s, a, val, now).regs[RegSessionCode] == s.regs[RegSessionCode]
  {
    var s1 := if a == RegCtrl1 && val & 0x01 != 0 then StartMeasurement(s, now) else s;
    StartKeepsInv(s, now);
    UnlockKeepsInv(s1, now);
  }

  /** Completing a running measurement keeps the invariant: a measurement
      runs only while unlocked. */
  lemma CompleteKeepsInv(s: State, rand1: nat, rand2: nat)
    requires Inv(s) && s.inProgress
    ensures Inv(CompleteMeasurement(s, rand1, rand2))
    ensures CompleteMeasurement(s, rand1, rand2).regs[RegSessionCode] == s.regs[RegSessionCode]
  {
    StatusBitsIndependent(s.regs[RegStatus]);
  }

  /** A poll keeps the invariant and SESSION_CODE. */
  lemma PollKeepsInv(s: State, now: int, rand1: nat, rand2: nat)
    requires Inv(s)
    ensures Inv(Poll(s, now, rand1, rand2))
    ensures Poll(s, now, rand1, rand2).regs[RegSessionCode] == s.regs[RegSessionCode]
  {
    if MeasurementDue(s, now) {
      CompleteKeepsInv(s, rand1, rand2);
    }
  }

  /** Every step keeps the invariant and SESSION_CODE. */
  lemma StepPreservesInv(s: State, e: Event)
    requires Inv(s)
    ensures Inv(Step(s, e))
    ensures Step(s, e).regs[RegSessionCode] == s.regs[RegSessionCode]
  {
    match e
    case WriteByte(val, now) => WriteReceivedKeepsInv(s, val, now);
    case TimerTick(now) => LockDeviceEffect(s);
    case PollTick(now, rand1, rand2) => PollKeepsInv(s, now, rand1, rand2);
    case _ =>
  }

  /** Every sequential run from a state satisfying the invariant keeps it,
      and keeps WHO_AM_I and SESSION_CODE. */
  lemma {:induction false} RunPreservesInv(s: State, evs: seq<Event>)
    requires Inv(s)
    ensures Inv(Run(s, evs))
    ensures Run(s, evs).regs[RegSessionCode] == s.regs[RegSessionCode]
    decreases |evs|
  {
    if evs != [] {
      StepPreservesInv(s, evs[0]);
      RunPreservesInv(Step(s, evs[0]), evs[1..]);
    }
  }

  /** In every state reachable from start-up, WHO_AM_I reads 0x42,
      SESSION_CODE still holds the start-up code, STATUS's locked bit is set
      exactly when LOCK_STATUS is LOCKED, and a locked device shows 0xFF
      data, no data-ready bit, and runs no measurement. */
  lemma Reachable(code: bv8, evs: seq<Event>)
    ensures var s := Run(Init(code), evs);
      Inv(s) && s.regs[RegWhoAmI] == 0x42 && s.regs[RegSessionCode] == code
  {
    InitState(code);
    RunPreservesInv(Init(code), evs);
  }
}
