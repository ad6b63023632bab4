/**
 The MPR121 touch driver of components/mpr121/mpr121.c. The chip may be configured only while
 it is stopped, that is while the electrode bits of its ECR register are zero; every setter
 stops and restarts it as needed, and setters nest. I2C transfers are assumed to succeed.
 */
module Mpr121 {

  const ECR: nat := 0x5E
  const AFE1: nat := 0x5C
  const AFE2: nat := 0x5D
  const CTL0: nat := 0x73
  const SRST: nat := 0x80
  const TS2: nat := 0x01
  const RESET_CODE: bv8 := 0x63
  const E0TTH: nat := 0x41
  const E0RTH: nat := 0x42

  /** A register write as the chip sees it, with its ECR just before. */
  datatype Write = Write(reg: nat, value: bv8, ecr: bv8)

  predicate Stopped(ecr: bv8) {
    ecr & 0x3F == 0
  }

  /** Registers below CTL0 other than ECR may be written only in stop mode. */
  predicate NeedsStop(reg: nat) {
    reg < CTL0 && reg != ECR
  }

  ghost predicate Disciplined(log: seq<Write>) {
    forall i :: 0 <= i < |log| && NeedsStop(log[i].reg) ==> Stopped(log[i].ecr)
  }

  lemma DisciplinedConcat(a: seq<Write>, b: seq<Write>)
    requires Disciplined(a) && Disciplined(b)
    ensures Disciplined(a + b)
  {
  }

  /** The power-on register values: zero but for AFE1 and AFE2. */
  function ResetValues(): (r: seq<bv8>)
    ensures |r| == 256 && Stopped(r[ECR])
  {
    seq(256, i => if i == AFE1 then 0x10 else if i == AFE2 then 0x24 else 0)
  }

  /** The registers MPR121_applySettings writes, in its order: the baseline filters, then DTR, AFE1
      and AFE2, then the autoconfiguration. */
  function SettingRegister(k: nat): (r: nat)
    requires k < 30
    ensures r < SRST && r != ECR && (r < E0TTH || r > 0x5A)
  {
    if k < 22 then 0x2B + k else if k < 25 then 0x5B + (k - 22) else 0x7B + (k - 25)
  }

  /** The values MPR121_settingsType gives those registers. */
  function SettingValue(k: nat): bv8
    requires k < 30
  {
    [0x01, 0x01, 0x10, 0x20, 0x01, 0x01, 0x10, 0x20, 0x01, 0x10, 0xFF,
     0x0F, 0x0F, 0x00, 0x00, 0x01, 0x01, 0xFF, 0xFF, 0x00, 0x00, 0x00,
     0x11, 0xFF, 0x30, 0x00, 0x00, 0x00, 0x00, 0x00][k]
  }

  predicate Configured(r: nat) {
    0x2B <= r < 0x41 || 0x5B <= r < 0x5E || 0x7B <= r < 0x80
  }

  const DEFAULT_ECR: bv8 := 0xCC
  const TOUCH_THRESHOLD: bv8 := 40
  const RELEASE_THRESHOLD: bv8 := 20

  class Device {
    /** The chip's registers. */
    var regs: seq<bv8>
    var ecrBackup: bv8
    var running: bool
    var inited: bool
    ghost var log: seq<Write>

    /** What the discipline needs: a chip that runs is known to run. */
    ghost predicate Safe()
      reads this
    {
      |regs| == 256 && Disciplined(log) && (!Stopped(regs[ECR]) ==> running) &&
      (running ==> inited)
    }

    /** The driver's flag tells the chip's mode exactly. */
    ghost predicate Valid()
      reads this
    {
      Safe() && (running <==> !Stopped(regs[ECR]))
    }

    /** MPR121_type on a chip that has just been powered. */
    constructor ()
      ensures Valid() && !inited && !running && ecrBackup == 0 && log == []
    {
      regs := ResetValues();
      ecrBackup, running, inited, log := 0, false, false, [];
    }

    /** The I2C write; the reset code in SRST resets the chip. */
    method I2cWrite(reg: nat, value: bv8)
      requires |regs| == 256 && reg < 256
      modifies this`regs, this`log
      ensures regs == if reg == SRST && value == RESET_CODE then ResetValues() else old(regs)[reg := value]
      ensures log == old(log) + [Write(reg, value, old(regs)[ECR])]
    {
      log := log + [Write(reg, value, regs[ECR])];
      regs := if reg == SRST && value == RESET_CODE then ResetValues() else regs[reg := value];
    }

    method GetRegister(reg: nat) returns (value: bv8)
      requires |regs| == 256 && reg < 256
      ensures value == regs[reg]
    {
      value := regs[reg];
    }

    method SetRegister(reg: nat, value: bv8)
      requires Safe() && reg < 256 && (reg == ECR && !Stopped(value) ==> inited)
      modifies this
      ensures Safe() && inited == old(inited) && old(log) <= log
      ensures var resets := reg == SRST && value == RESET_CODE;
              if resets then regs == ResetValues() && running == old(running)
              else regs == old(regs)[reg := value] && (old(Valid()) || reg < CTL0 ==> Valid())
      ensures reg == ECR || !old(running) || reg >= CTL0 ==> ecrBackup == old(ecrBackup)
      // Every write to a configuration register finds the electrodes off.
      ensures forall i :: |old(log)| <= i < |log| && log[i].reg < 0x73 && log[i].reg != 0x5E ==> log[i].ecr & 0x3F == 0
      decreases if reg == ECR then 0 else 2
    {
      var wasRunning := false;
      if reg == ECR {
        running := value & 0x3F != 0;
      } else if reg < CTL0 {
        wasRunning := running;
        if wasRunning {
          Stop();
        }
      }
      assert NeedsStop(reg) ==> Stopped(regs[ECR]);
      DisciplinedConcat(log, [Write(reg, value, regs[ECR])]);
      I2cWrite(reg, value);
      if wasRunning {
        Run();
      }
    }

    method Run()
      requires Safe()
      modifies this
      ensures Safe() && inited == old(inited) && old(log) <= log && ecrBackup == old(ecrBackup)
      ensures regs == if inited then old(regs)[ECR := ecrBackup] else old(regs)
      ensures inited ==> Valid()
      ensures !inited ==> running == old(running)
      decreases 1
    {
      if !inited {
        return;
      }
      SetRegister(ECR, ecrBackup);
    }

    method Stop()
      requires Safe()
      modifies this
      ensures Safe() && inited == old(inited) && old(log) <= log
      ensures inited ==> Valid() && !running && ecrBackup == old(regs)[ECR]
      ensures inited ==> regs == old(regs)[ECR := old(regs)[ECR] & 0xC0]
      ensures !inited ==> regs == old(regs) && running == old(running) && ecrBackup == old(ecrBackup)
      decreases 1
    {
      if !inited {
        return;
      }
      ecrBackup := GetRegister(ECR);
      ElectrodesOff(ecrBackup);
      SetRegister(ECR, ecrBackup & 0xC0);
    }

    ghost predicate SettingsHold(n: nat)
      requires n <= 30 && |regs| == 256
      reads this
    {
      forall k :: 0 <= k < n ==> regs[SettingRegister(k)] == SettingValue(k)
    }

    /** The row of register writes of MPR121_applySettings, the chip being stopped. */
    method WriteSettings()
      requires Safe() && !running
      modifies this
      ensures Valid() && !running && inited == old(inited) && old(log) <= log
      ensures SettingsHold(30)
      ensures forall r :: 0 <= r < 256 && !Configured(r) ==> regs[r] == old(regs)[r]
    {
      hide SettingValue, Disciplined, Stopped, ResetValues;
      var i := 0;
      while i < 30
        invariant i <= 30 && Valid() && !running && inited == old(inited) && old(log) <= log
        invariant SettingsHold(i)
        invariant forall r :: 0 <= r < 256 && !Configured(r) ==> regs[r] == old(regs)[r]
      {
        ghost var before := regs;
        SetRegister(SettingRegister(i), SettingValue(i));
        i := i + 1;
      }
    }

    /** MPR121_applySettings. Whatever the mode before, the chip ends running on DEFAULT_ECR with
        the default settings and thresholds, and the driver's flag is right again. */
    method ApplySettings()
      requires Safe() && inited
      modifies this
      ensures Valid() && inited && old(log) <= log && regs[ECR] == DEFAULT_ECR && running
      ensures SettingsHold(30) && DefaultSettings(regs)
      ensures Thresholds(regs, E0TTH, TOUCH_THRESHOLD) && Thresholds(regs, E0RTH, RELEASE_THRESHOLD)
      ensures forall r :: 0 <= r < 256 && !Begun(r) ==> regs[r] == old(regs)[r]
    {
      hide SettingValue, Disciplined, Configured, ResetValues;
      var wasRunning := running;
      if wasRunning {
        Stop();
      }
      WriteSettings();
      SetRegister(ECR, DEFAULT_ECR);
      assert SettingsHold(30);
      Defaults();
      SettingsAreDefault();
      ghost var applied := regs;
      if wasRunning {
        Run();
      }
      DefaultsKept(applied, regs);
    }

    lemma SettingsAreDefault()
      requires |regs| == 256 && SettingsHold(30)
      ensures DefaultSettings(regs)
    {
      var values: seq<bv8> := seq(30, k requires 0 <= k < 30 => SettingValue(k));
      forall k | 0 <= k < 30
        ensures regs[if k < 22 then 0x2B + k else if k < 25 then 0x5B + (k - 22) else 0x7B + (k - 25)] == values[k]
      {
        assert SettingRegister(k) == if k < 22 then 0x2B + k else if k < 25 then 0x5B + (k - 22) else 0x7B + (k - 25);
      }
      hide SettingRegister;
      assert regs[0x2B..0x41] == values[..22];
      assert regs[0x5B..0x5E] == values[22..25];
      assert regs[0x7B..0x80] == values[25..];
    }

    /** The two threshold calls of MPR121_applySettings. */
    method Defaults()
      requires Valid() && inited && running && SettingsHold(30)
      modifies this
      ensures Valid() && inited && running && old(log) <= log
      ensures regs[ECR] == old(regs)[ECR] && ecrBackup == regs[ECR]
      ensures SettingsHold(30)
      ensures Thresholds(regs, E0TTH, TOUCH_THRESHOLD) && Thresholds(regs, E0RTH, RELEASE_THRESHOLD)
      ensures forall r :: 0 <= r < 256 && !ThresholdOf(E0TTH, r) && !ThresholdOf(E0RTH, r) ==> regs[r] == old(regs)[r]
    {
      hide SettingValue, Disciplined;
      SetThresholdAll(E0TTH, TOUCH_THRESHOLD);
      SetThresholdAll(E0RTH, RELEASE_THRESHOLD);
    }

    /** MPR121_setTouchThreshold and MPR121_setReleaseThreshold, told apart by the first register. */
    method SetThreshold(base: nat, electrode: nat, val: bv8)
      requires Safe() && (base == E0TTH || base == E0RTH)
      modifies this
      ensures Safe() && inited == old(inited) && old(log) <= log && (old(Valid()) ==> Valid())
      ensures regs == if electrode > 12 || !inited then old(regs) else old(regs)[base + 2 * electrode := val]
      ensures !old(running) ==> ecrBackup == old(ecrBackup) && (old(Valid()) ==> !running)
    {
      if electrode > 12 || !inited {
        return;
      }
      SetRegister(base + 2 * electrode, val);
    }

    /** MPR121_setTouchThresholdAll and MPR121_setReleaseThresholdAll: stop once, set thirteen
        registers through calls that would stop by themselves, restart once. */
    method SetThresholdAll(base: nat, val: bv8)
      requires Safe() && (base == E0TTH || base == E0RTH)
      modifies this
      ensures Safe() && inited == old(inited) && old(log) <= log
      ensures old(Valid()) ==> Valid() && running == old(running)
      ensures regs[ECR] == old(regs)[ECR] && (running ==> ecrBackup == regs[ECR])
      ensures inited ==> Thresholds(regs, base, val)
      ensures forall r :: 0 <= r < 256 && !(inited && ThresholdOf(base, r)) ==> regs[r] == old(regs)[r]
    {
      hide Disciplined;
      if !inited {
        return;
      }
      var wasRunning := running;
      if wasRunning {
        Stop();
      }
      ghost var before, backup := regs, ecrBackup;
      var i := 0;
      while i < 13
        invariant i <= 13 && Valid() && !running && inited && old(log) <= log && ecrBackup == backup
        invariant forall e :: 0 <= e < i ==> regs[base + 2 * e] == val
        invariant forall r :: 0 <= r < 256 && !ThresholdOf(base, r) ==> regs[r] == before[r]
      {
        SetThreshold(base, i, val);
        i := i + 1;
      }
      if wasRunning {
        Run();
      }
    }

    /** MPR121_reset: the chip restarts, the driver's flag does not; the chip then reads back as it should. */
    method SoftReset() returns (ok: bool)
      requires Safe()
      modifies this
      ensures Safe() && inited == old(inited) && running == old(running) && old(log) <= log
      ensures regs == ResetValues() && ok
    {
      SetRegister(SRST, RESET_CODE);
      var afe := GetRegister(AFE2);
      var ts := GetRegister(TS2);
      ok := afe == 0x24 && ts & 0x80 == 0;
    }

    /** MPR121_begin on a chip that answers as expected: even on a chip that was running, where
        the reset leaves the flag wrong for a while, the driver ends in step with it. */
    method Begin(touch: bv8, release: bv8) returns (ok: bool)
      requires Safe()
      modifies this
      ensures ok && Valid() && inited && running && regs[ECR] == DEFAULT_ECR && old(log) <= log
      ensures Thresholds(regs, E0TTH, touch) && Thresholds(regs, E0RTH, release) && DefaultSettings(regs)
      // Every other register is as after a reset.
      ensures forall r :: 0 <= r < 256 && !Begun(r) ==> regs[r] == ResetValues()[r]
    {
      hide Disciplined, ResetValues, DefaultSettings, SettingValue;
      inited := true;
      ok := SoftReset();
      if !ok {
        return;
      }
      ApplySettings();
      ghost var applied := regs;
      if touch != TOUCH_THRESHOLD {
        SetThresholdAll(E0TTH, touch);
      }
      if release != RELEASE_THRESHOLD {
        SetThresholdAll(E0RTH, release);
      }
      DefaultsKept(applied, regs);
    }

    // The field setters of AFE1 and AFE2. Each changes its own field, and no other register.

    method SetGlobalCDC(cdc: bv8)
      requires Safe()
      modifies this
      ensures Safe() && inited == old(inited) && old(log) <= log
      ensures old(Valid()) ==> Valid() && running == old(running)
      ensures forall r :: 0 <= r < 256 && r != AFE1 ==> regs[r] == old(regs)[r]
      ensures Cdc(regs[AFE1]) == if cdc > 63 then Cdc(old(regs)[AFE1]) else cdc
      ensures Ffi(regs[AFE1]) == Ffi(old(regs)[AFE1])
    {
      if cdc > 63 {
        return;
      }
      var afe := GetRegister(AFE1);
      CdcField(afe, cdc);
      SetRegister(AFE1, (afe & 0xC0) | cdc);
    }

    method SetFFI(ffi: bv8)
      requires Safe()
      modifies this
      ensures Safe() && inited == old(inited) && old(log) <= log
      ensures old(Valid()) ==> Valid() && running == old(running)
      ensures forall r :: 0 <= r < 256 && r != AFE1 ==> regs[r] == old(regs)[r]
      ensures Ffi(regs[AFE1]) == ffi & 3 && Cdc(regs[AFE1]) == Cdc(old(regs)[AFE1])
    {
      var afe := GetRegister(AFE1);
      FfiField(afe, ffi);
      SetRegister(AFE1, (afe & 0x3F) | ((ffi & 3) << 6));
    }

    method SetGlobalCDT(cdt: bv8)
      requires Safe()
      modifies this
      ensures Safe() && inited == old(inited) && old(log) <= log
      ensures old(Valid()) ==> Valid() && running == old(running)
      ensures forall r :: 0 <= r < 256 && r != AFE2 ==> regs[r] == old(regs)[r]
      ensures Cdt(regs[AFE2]) == cdt & 7
      ensures Sfi(regs[AFE2]) == Sfi(old(regs)[AFE2]) && Esi(regs[AFE2]) == Esi(old(regs)[AFE2])
    {
      var afe := GetRegister(AFE2);
      CdtField(afe, cdt);
      SetRegister(AFE2, (afe & 0x1F) | (cdt << 5));
    }

    method SetSFI(sfi: bv8)
      requires Safe()
      modifies this
      ensures Safe() && inited == old(inited) && old(log) <= log
      ensures old(Valid()) ==> Valid() && running == old(running)
      ensures forall r :: 0 <= r < 256 && r != AFE2 ==> regs[r] == old(regs)[r]
      ensures Sfi(regs[AFE2]) == sfi & 3
      ensures Cdt(regs[AFE2]) == Cdt(old(regs)[AFE2]) && Esi(regs[AFE2]) == Esi(old(regs)[AFE2])
    {
      var afe := GetRegister(AFE2);
      SfiField(afe, sfi);
      SetRegister(AFE2, (afe & 0xE7) | ((sfi & 3) << 3));
    }

    method SetSamplePeriod(period: bv8)
      requires Safe()
      modifies this
      ensures Safe() && inited == old(inited) && old(log) <= log
      ensures old(Valid()) ==> Valid() && running == old(running)
      ensures forall r :: 0 <= r < 256 && r != AFE2 ==> regs[r] == old(regs)[r]
      ensures Esi(regs[AFE2]) == period & 7
      ensures Cdt(regs[AFE2]) == Cdt(old(regs)[AFE2]) && Sfi(regs[AFE2]) == Sfi(old(regs)[AFE2])
    {
      var afe := GetRegister(AFE2);
      EsiField(afe, period);
      SetRegister(AFE2, (afe & 0xF8) | (period & 7));
    }

    /** The switch over the modes, on the saved ECR. */
    static method SwitchLock(ecr: bv8, lock: bv8) returns (r: bv8)
      ensures r == LockedEcr(ecr, lock)
    {
      r := ecr;
      if lock == 0 {
        r := r & 0x3F;
      } else if lock == 1 {
        r := r | 0x40;
        r := r & 0x7F;
      } else if lock == 2 {
        r := r & 0xBF;
        r := r | 0x80;
      } else if lock == 3 {
        r := r | 0x30;
      }
    }

    /** MPR121_setCalibrationLock. Its header promises to set the two CL bits of ECR; mode 3 sets
        the proximity bits instead. On a running chip the promise is kept exactly for the others. */
    method SetCalibrationLock(lock: bv8)
      requires Safe()
      modifies this
      ensures Safe() && inited == old(inited) && old(log) <= log && (old(Valid()) ==> Valid())
      ensures forall r :: 0 <= r < 256 && r != ECR ==> regs[r] == old(regs)[r]
      ensures old(Valid() && running) ==> regs[ECR] == LockedEcr(old(regs)[ECR], lock) && running
      ensures !old(running) ==> regs[ECR] == old(regs)[ECR] && !running
      ensures !old(running) ==> ecrBackup == if inited then LockedEcr(old(ecrBackup), lock) else old(ecrBackup)
    {
      if !inited {
        return;
      }
      var wasRunning := running;
      if wasRunning {
        Stop();
      }
      LockKeepsRunning(ecrBackup, lock);
      ecrBackup := SwitchLock(ecrBackup, lock);
      if wasRunning {
        Run();
      }
    }

    method Perform(c: Command)
      requires Safe() && inited && CommandOk(c)
      modifies this
      ensures Safe() && inited && old(log) <= log && (old(Valid()) && !Resets(c) ==> Valid())
    {
      hide Disciplined, Stopped, ResetValues, Thresholds, LockedEcr;
      match c {
        case WriteRegister(reg, value) => SetRegister(reg, value);
        case RunChip => Run();
        case StopChip => Stop();
        case ResetChip =>
          var ok := SoftReset();
        case Touch(electrode, val) => SetThreshold(E0TTH, electrode, val);
        case Release(electrode, val) => SetThreshold(E0RTH, electrode, val);
        case TouchAll(val) => SetThresholdAll(E0TTH, val);
        case ReleaseAll(val) => SetThresholdAll(E0RTH, val);
        case GlobalCDC(val) => SetGlobalCDC(val);
        case GlobalCDT(val) => SetGlobalCDT(val);
        case FirstFilter(val) => SetFFI(val);
        case SecondFilter(val) => SetSFI(val);
        case SamplePeriod(val) => SetSamplePeriod(val);
        case CalibrationLock(mode) => SetCalibrationLock(mode);
      }
    }

    /** Any run of calls, resets included: every write that needs the chip stopped finds it
        stopped; and without resets the driver always knows whether the chip runs. */
    method PerformAll(cs: seq<Command>)
      requires Safe() && inited && forall i :: 0 <= i < |cs| ==> CommandOk(cs[i])
      modifies this
      ensures Disciplined(log) && old(log) <= log
      ensures old(Valid()) && (forall i :: 0 <= i < |cs| ==> !Resets(cs[i])) ==> Valid()
    {
      hide Disciplined, Stopped;
      var i := 0;
      while i < |cs|
        invariant i <= |cs| && Safe() && inited && old(log) <= log
        invariant old(Valid()) && (forall k :: 0 <= k < i ==> !Resets(cs[k])) ==> Valid()
      {
        Perform(cs[i]);
        i := i + 1;
      }
    }
  }

  /** What a user of the driver may call after MPR121_begin. */
  datatype Command = WriteRegister(reg: nat, value: bv8) | RunChip | StopChip | ResetChip
                   | Touch(electrode: nat, val: bv8) | Release(electrode: nat, val: bv8)
                   | TouchAll(val: bv8) | ReleaseAll(val: bv8)
                   | GlobalCDC(val: bv8) | GlobalCDT(val: bv8) | FirstFilter(val: bv8) | SecondFilter(val: bv8)
                   | SamplePeriod(val: bv8) | CalibrationLock(mode: bv8)

  predicate CommandOk(c: Command) {
    match c
    case WriteRegister(reg, _) => reg < 256
    case _ => true
  }

  /** A soft reset stops the chip behind the driver's back. */
  predicate Resets(c: Command) {
    c.ResetChip? || (c.WriteRegister? && c.reg == SRST && c.value == RESET_CODE)
  }

  /** The switch of MPR121_setCalibrationLock on the saved ECR. */
  function LockedEcr(ecr: bv8, lock: bv8): bv8 {
    if lock == 0 then ecr & 0x3F
    else if lock == 1 then (ecr | 0x40) & 0x7F
    else if lock == 2 then (ecr & 0xBF) | 0x80
    else if lock == 3 then ecr | 0x30
    else ecr
  }

  lemma LockKeepsRunning(ecr: bv8, lock: bv8)
    ensures !Stopped(ecr) ==> !Stopped(LockedEcr(ecr, lock))
  {
  }

  /** The CL bits become the mode and the others stay, for every ECR, if and only if the mode is one of
      the first three. */
  lemma CalibrationLockFields(lock: bv8)
    ensures (forall e: bv8 :: LockedEcr(e, lock) >> 6 == lock && LockedEcr(e, lock) & 0x3F == e & 0x3F) <==> lock < 3
    // Mode 3 sets both proximity bits and no other; a mode that is none changes nothing.
    ensures forall e: bv8 :: lock == 3 ==> LockedEcr(e, lock) & 0x30 == 0x30 && LockedEcr(e, lock) & 0xCF == e & 0xCF
    ensures forall e: bv8 :: lock > 3 ==> LockedEcr(e, lock) == e
  {
    if lock < 3 {
      forall e: bv8 ensures LockedEcr(e, lock) >> 6 == lock && LockedEcr(e, lock) & 0x3F == e & 0x3F {
        LockField(e, lock);
      }
    } else {
      assert LockedEcr(0, lock) >> 6 == 0;
    }
  }

  lemma LockField(e: bv8, lock: bv8)
    requires lock < 3
    ensures LockedEcr(e, lock) >> 6 == lock && LockedEcr(e, lock) & 0x3F == e & 0x3F
  {
  }

  /** The registers that MPR121_begin sets: settings, thresholds and ECR. */
  predicate Begun(r: nat) {
    Configured(r) || r == ECR || ThresholdOf(E0TTH, r) || ThresholdOf(E0RTH, r)
  }

  /** The default settings, register by register: rising, falling and touched filters of the electrodes
      and of proximity, then debounce, AFE1 and AFE2, then no automatic configuration. */
  ghost predicate DefaultSettings(regs: seq<bv8>)
    requires |regs| == 256
  {
    regs[0x2B..0x41] == [0x01, 0x01, 0x10, 0x20, 0x01, 0x01, 0x10, 0x20, 0x01, 0x10, 0xFF,
                         0x0F, 0x0F, 0x00, 0x00, 0x01, 0x01, 0xFF, 0xFF, 0x00, 0x00, 0x00] &&
    regs[0x5B..0x5E] == [0x11, 0xFF, 0x30] && regs[0x7B..0x80] == [0x00, 0x00, 0x00, 0x00, 0x00]
  }

  lemma DefaultsKept(before: seq<bv8>, after: seq<bv8>)
    requires |before| == |after| == 256 && forall r :: 0 <= r < 256 && Configured(r) ==> after[r] == before[r]
    ensures DefaultSettings(before) ==> DefaultSettings(after)
  {
    assert after[0x2B..0x41] == before[0x2B..0x41];
    assert after[0x5B..0x5E] == before[0x5B..0x5E];
    assert after[0x7B..0x80] == before[0x7B..0x80];
  }

  predicate ThresholdOf(base: nat, r: nat) {
    base <= r <= base + 24 && (r - base) % 2 == 0
  }

  /** All thirteen thresholds from base on are val. */
  ghost predicate Thresholds(regs: seq<bv8>, base: nat, val: bv8)
    requires |regs| == 256 && (base == E0TTH || base == E0RTH)
  {
    forall e :: 0 <= e < 13 ==> regs[base + 2 * e] == val
  }

  // ---------- the bit fields ----------

  function Cdc(afe1: bv8): bv8 { afe1 & 0x3F }

  function Ffi(afe1: bv8): bv8 { afe1 >> 6 }

  function Cdt(afe2: bv8): bv8 { afe2 >> 5 }

  function Sfi(afe2: bv8): bv8 { (afe2 >> 3) & 3 }

  function Esi(afe2: bv8): bv8 { afe2 & 7 }

  lemma CdcField(a: bv8, v: bv8)
    requires v <= 63
    ensures Cdc((a & 0xC0) | v) == v && Ffi((a & 0xC0) | v) == Ffi(a)
  {
  }

  lemma FfiField(a: bv8, v: bv8)
    ensures var x := (a & 0x3F) | ((v & 3) << 6); Ffi(x) == v & 3 && Cdc(x) == Cdc(a)
  {
  }

  lemma CdtField(a: bv8, v: bv8)
    ensures var x := (a & 0x1F) | (v << 5); Cdt(x) == v & 7 && Sfi(x) == Sfi(a) && Esi(x) == Esi(a)
  {
  }

  lemma SfiField(a: bv8, v: bv8)
    ensures var x := (a & 0xE7) | ((v & 3) << 3); Sfi(x) == v & 3 && Cdt(x) == Cdt(a) && Esi(x) == Esi(a)
  {
  }

  lemma EsiField(a: bv8, v: bv8)
    ensures var x := (a & 0xF8) | (v & 7); Esi(x) == v & 7 && Cdt(x) == Cdt(a) && Sfi(x) == Sfi(a)
  {
  }

  lemma ElectrodesOff(e: bv8)
    ensures Stopped(e & 0xC0)
  {
  }
}
