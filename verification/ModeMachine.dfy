/** The mode machine as the source runs it: global variables, the I2S object and the standby timer, changed in
place. Every method is proved against the functions of Modes.dfy. */
module ModeMachine {
  import opened Modes

  /** components/hal/hal-esp/I2S.cpp: `available` is the object's field, `installed` the platform's state. */
  class I2sOut {
    var installed: bool
    var available: bool
    var paused: bool
    var fault: bool

    function Value(): I2s
      reads this
    {
      I2s(installed, available, paused, fault)
    }

    constructor ()
      ensures Value() == I2s(false, false, false, false)
    {
      installed, available, paused, fault := false, false, false, false;
    }

    method Begin()
      modifies this
      ensures Value() == I2sBegin(old(Value()))
    {
      if installed {
        fault := true;
      }
      installed := true;
      available := true;
    }

    /** A driver call; a fault if there is no driver. */
    method CallDriver()
      modifies this`fault
      ensures Value() == Touch(old(Value()))
    {
      if !installed {
        fault := true;
      }
    }

    method Flush()
      modifies this`fault
      ensures Value() == I2sFlush(old(Value()))
    {
      if !available {
        return;
      }
      CallDriver();
    }

    method Pause()
      modifies this
      ensures Value() == I2sPause(old(Value()))
    {
      if !available {
        return;
      }
      Flush();
      paused := true;
    }

    method Resume()
      modifies this
      ensures Value() == I2sResume(old(Value()))
    {
      if !available {
        return;
      }
      CallDriver();
      paused := false;
    }

    /** The flag is cleared before the driver is removed, so the flush that follows does not touch it: closing
        an object whose flag is right removes the driver without a fault. */
    method Close()
      modifies this
      ensures Value() == I2sClose(old(Value()))
      ensures old(installed == available) ==> !installed && !available && fault == old(fault)
    {
      if !available {
        return;
      }
      available := false;
      CallDriver();
      installed := false;
      Flush();
    }
  }

  /** main/system/standby_timer.c */
  class TimerDriver {
    var enabled: bool
    var elapsed: bool
    var refused: bool

    function Value(): StandbyTimer
      reads this
    {
      StandbyTimer(enabled, elapsed, refused)
    }

    constructor ()
      ensures Value() == StandbyTimer(false, false, false)
    {
      enabled, elapsed, refused := false, false, false;
    }

    /** `standby_timer_task_start_up` */
    method StartUp() returns (ok: bool)
      modifies this
      ensures Value() == TimerStart(old(Value())) && ok == !old(enabled)
    {
      if enabled {
        refused := true;
        return false;
      }
      elapsed := false;
      enabled := true;
      ok := true;
    }

    /** `standby_timer_task_shut_down` */
    method ShutDown() returns (ok: bool)
      modifies this
      ensures Value() == TimerStop(old(Value())) && ok == old(enabled)
    {
      if !enabled {
        return false;
      }
      elapsed := false;
      enabled := false;
      ok := true;
    }
  }

  class Speaker {
    var current: Mode
    var requested: Mode
    const i2s: I2sOut
    const timer: TimerDriver
    var battery: bool
    var dataset: bool
    var bluetooth: bool
    var biasMs: nat
    var totalSec: nat
    var standby: StandbyMode
    var enableSleep: bool
    var wokenFromOutside: bool
    var sleepmode: bool
    var lastPsuPlugged: bool
    /** How often `sendPSUPluggedTimeout` has been called. */
    var powerOffNotices: nat

    function Value(): State
      reads this, i2s, timer
    {
      State(current, requested, i2s.Value(), Tasks(battery, dataset, bluetooth), timer.Value(), Clock(biasMs, totalSec),
            standby, enableSleep, wokenFromOutside, sleepmode, lastPsuPlugged, powerOffNotices)
    }

    constructor ()
      ensures Value() == POWER_ON
      ensures fresh(i2s) && fresh(timer)
    {
      i2s := new I2sOut();
      timer := new TimerDriver();
      current, requested := Boot, Boot;
      battery, dataset, bluetooth := false, false, false;
      biasMs, totalSec := 0, 0;
      standby, enableSleep, wokenFromOutside, sleepmode, lastPsuPlugged := Unset, false, false, false, false;
      powerOffNotices := 0;
    }

    method EnableLeaderMode()
      modifies i2s
      ensures Value() == EnableLeader(old(Value()))
    {
      i2s.Begin();
    }

    method DisableLeaderMode()
      modifies i2s
      ensures Value() == DisableLeader(old(Value()))
    {
      i2s.paused := true;
      i2s.Close();
    }

    method EnableFollowerMode()
      modifies this`bluetooth
      ensures Value() == EnableFollower(old(Value()))
    {
      bluetooth := true;
    }

    method DisableFollowerMode()
      modifies this`bluetooth
      ensures Value() == DisableFollower(old(Value()))
    {
      bluetooth := false;
    }

    method EnableSleepMode()
      modifies this
      ensures Value() == Modes.EnableSleep(old(Value()))
    {
      sleepmode := true;
      battery := true;
      dataset := true;
      bluetooth := true;
    }

    method DisableSleepMode()
      modifies this
      ensures Value() == DisableSleep(old(Value()))
    {
      if sleepmode {
        sleepmode := false;
      }
      bluetooth := false;
      battery := false;
      dataset := false;
    }

    /** `_enable_leader_standby_mode` and `_enable_follower_standby_mode` */
    method EnableStandbyMode(mode: StandbyMode, psuPlugged: bool)
      modifies this, timer
      ensures Value() == EnableStandby(old(Value()), mode, psuPlugged)
    {
      standby := mode;
      enableSleep := true;
      lastPsuPlugged := psuPlugged;
      var _ := timer.StartUp();
      bluetooth := true;
      dataset := true;
    }

    method DisableStandbyMode()
      modifies this, timer
      ensures Value() == DisableStandby(old(Value()))
    {
      bluetooth := false;
      dataset := false;
      standby := NoStandby;
      var _ := timer.ShutDown();
      ClearElapsedTimes();
    }

    method IncrementElapsedTimeWithBias(biasTimeMs: nat, timerSec: nat)
      modifies this`biasMs, this`totalSec
      ensures Clock(biasMs, totalSec) == AddSleep(Clock(old(biasMs), old(totalSec)), biasTimeMs, timerSec)
    {
      biasMs := biasMs + biasTimeMs;
      totalSec := timerSec + biasMs / 1000;
    }

    method ClearElapsedTimes()
      modifies this`biasMs, this`totalSec
      ensures biasMs == 0 && totalSec == 0
    {
      totalSec := 0;
      biasMs := 0;
    }

    /** The start of `_leader_standbymode_task` and `_follower_standbymode_task`. */
    method SleepWhenDue(timerSec: nat)
      modifies this
      ensures Value() == SleepIfDue(old(Value()), timerSec)
    {
      if enableSleep {
        enableSleep := false;
        if standby == StandbyLeader {
          bluetooth := true;
          dataset := true;
          IncrementElapsedTimeWithBias(LEADER_PERIOD_MS, timerSec);
          bluetooth := false;
          dataset := false;
        } else {
          IncrementElapsedTimeWithBias(FOLLOWER_PERIOD_MS, timerSec);
        }
      }
    }

    /** A timer wake-up with no new mode. */
    method CheckBattery(input: Input)
      modifies this, timer
      ensures Value() == BatteryCheck(old(Value()), input)
      ensures powerOffNotices == old(powerOffNotices) +
              if !input.psuPlugged && input.autoPowerOff && old(totalSec) >= TIMEOUT_SEC then 1 else 0
    {
      wokenFromOutside := false;
      if lastPsuPlugged != input.psuPlugged {
        lastPsuPlugged := input.psuPlugged;
      }
      CheckPower(input);
    }

    /** The end of the battery check: power-off timeout and next sleep. */
    method CheckPower(input: Input)
      modifies this, timer
      ensures Value() == PowerCheck(old(Value()), input)
    {
      if input.psuPlugged {
        if timer.elapsed {
          enableSleep := true;
          timer.elapsed := false;
          ClearElapsedTimes();
        }
      } else if input.autoPowerOff && totalSec >= TIMEOUT_SEC {
        powerOffNotices := powerOffNotices + 1;
      } else {
        if timer.elapsed {
          enableSleep := true;
          if standby == StandbyLeader {
            timer.elapsed := false;
          }
        }
      }
    }

    method RunStandbyTask(input: Input)
      modifies this, timer
      ensures Value() == StandbyTask(old(Value()), input)
    {
      SleepWhenDue(input.timerSec);
      if input.wakeup == Gpio {
        wokenFromOutside := true;
        return;
      } else if input.wakeup == TimerAlarm {
        if input.taken {
          requested := input.mode;
          if requested != current {
            wokenFromOutside := true;
            return;
          }
        } else {
          CheckBattery(input);
        }
      }
    }

    method LeaveMode(previous: Mode)
      modifies this, i2s, timer
      ensures Value() == Leave(old(Value()), previous)
    {
      match previous
      case Sleep => DisableSleepMode();
      case Leader => DisableLeaderMode();
      case Follower => DisableFollowerMode();
      case Standby => DisableStandbyMode();
      case Boot =>
      case Other(_) =>
    }

    method EnterMode(previous: Mode, psuPlugged: bool)
      modifies this, i2s, timer
      ensures Value() == Enter(old(Value()), previous, psuPlugged)
    {
      match requested
      case Sleep =>
        if previous != Boot {
          EnableSleepMode();
        }
      case Leader => EnableLeaderMode();
      case Follower => EnableFollowerMode();
      case Standby =>
        if previous == Leader {
          EnableStandbyMode(StandbyLeader, psuPlugged);
        } else if previous == Follower {
          EnableStandbyMode(StandbyFollower, psuPlugged);
        }
      case Boot =>
      case Other(_) => current := previous;
    }

    /** Wait for a new mode, or run the standby task. */
    method AwaitMode(input: Input)
      modifies this, timer
      ensures Value() == Await(old(Value()), input)
    {
      if current != Standby || (current == Standby && wokenFromOutside) {
        requested := input.mode;
        if wokenFromOutside {
          wokenFromOutside := false;
        }
      } else {
        if standby == StandbyLeader || standby == StandbyFollower {
          RunStandbyTask(input);
        }
      }
    }

    method SwitchMode(psuPlugged: bool)
      modifies this, i2s, timer
      ensures Value() == Switch(old(Value()), psuPlugged)
    {
      if current == requested {
        return;
      }
      var previous := current;
      current := requested;
      LeaveMode(previous);
      EnterMode(previous, psuPlugged);
    }

    method RaiseAlarm(alarm: bool)
      modifies timer
      ensures Value() == Alarm(old(Value()), alarm)
    {
      if timer.enabled && alarm {
        timer.elapsed := true;
      }
    }

    /** One iteration of the loop in `app_main`. */
    method Iteration(input: Input)
      modifies this, i2s, timer
      ensures Value() == Iterate(old(Value()), input)
      ensures old(Safe(Value())) ==> Safe(Value())
    {
      ghost var before := Value();
      RaiseAlarm(input.alarm);
      AwaitMode(input);
      SwitchMode(input.psuPlugged);
      KeepsSafe(before, input);
    }
  }

  lemma KeepsSafe(s: State, input: Input)
    ensures Safe(s) ==> Safe(Iterate(s, input))
  {
    if Safe(s) {
      StepIsSafe(s, Event.Iteration(input));
    }
  }
}
