/** The speaker mode machine of main/main_sat.cpp, with the standby timer (main/system/standby_timer.c) and
the I2S driver (components/hal/hal-esp/I2S.cpp) it switches, as functions on a state.

A mode is the character the PIC sends, so a character that names no mode can turn up.
*/
module Modes {
  datatype Mode = Sleep | Leader | Follower | Standby | Boot | Other(code: nat)

  /** `STANDBY_TIMER_LSAT_STANDBY_PERIOD_MS` and `STANDBY_TIMER_FSAT_STANDBY_PERIOD_MS` */
  const LEADER_PERIOD_MS: nat := 500
  const FOLLOWER_PERIOD_MS: nat := 30000

  /** `STANDBY_PSU_PLUGGED_TIMEOUT_MINUTES`, in seconds */
  const TIMEOUT_SEC: nat := 900

  datatype StandbyMode = Unset | StandbyLeader | StandbyFollower | NoStandby

  /** Why the light sleep last ended. */
  datatype Wakeup = Gpio | TimerAlarm | Undefined

  /** `installed` is the driver itself, `available` the object's belief. `fault` is set by a call the platform
      refuses or leaves undefined: installing an installed driver, touching or removing a missing one. */
  datatype I2s = I2s(installed: bool, available: bool, paused: bool, fault: bool)

  /** Which tasks are suspended. */
  datatype Tasks = Tasks(battery: bool, dataset: bool, bluetooth: bool)

  /** `refused` is set when the timer is started while already enabled. */
  datatype StandbyTimer = StandbyTimer(enabled: bool, elapsed: bool, refused: bool)

  /** The time accounted to the current standby: the light sleeps, and with them the total. */
  datatype Clock = Clock(biasMs: nat, totalSec: nat)

  /** `powerOffNotices` counts the power-off timeouts announced to the PIC. */
  datatype State = State(current: Mode, requested: Mode, i2s: I2s, tasks: Tasks, timer: StandbyTimer, clock: Clock,
                         standby: StandbyMode, enableSleep: bool, wokenFromOutside: bool, sleepmode: bool,
                         lastPsuPlugged: bool, powerOffNotices: nat)

  const RUNNING: Tasks := Tasks(false, false, false)

  const NO_TIME: Clock := Clock(0, 0)

  /** What one iteration reads from outside: the mode held by SysInfo, why the last light sleep ended, whether
      the new-mode semaphore could be taken in time, whether the PSU is plugged in, whether automatic power
      off is enabled, the standby timer's own seconds, and whether it has raised its alarm. */
  datatype Input = Input(mode: Mode, wakeup: Wakeup, taken: bool, psuPlugged: bool, autoPowerOff: bool,
                         timerSec: nat, alarm: bool)

  /** An iteration of the main loop, or the PIC pausing or resuming the audio clocks. */
  datatype Event = Iteration(input: Input) | AudioPause | AudioResume

  // ---------------------------------------------------------------- I2S driver

  /** A call that needs the driver. */
  function Touch(d: I2s): I2s {
    d.(fault := d.fault || !d.installed)
  }

  function I2sBegin(d: I2s): I2s {
    d.(fault := d.fault || d.installed, installed := true, available := true)
  }

  function I2sFlush(d: I2s): I2s {
    if !d.available then d else Touch(d)
  }

  function I2sClose(d: I2s): I2s {
    if !d.available then d
    else I2sFlush(Touch(d.(available := false)).(installed := false))
  }

  function I2sPause(d: I2s): I2s {
    if !d.available then d else I2sFlush(d).(paused := true)
  }

  function I2sResume(d: I2s): I2s {
    if !d.available then d else Touch(d).(paused := false)
  }

  // ---------------------------------------------------------------- standby timer

  function TimerStart(t: StandbyTimer): StandbyTimer {
    if t.enabled then t.(refused := true) else t.(enabled := true, elapsed := false)
  }

  function TimerStop(t: StandbyTimer): StandbyTimer {
    if !t.enabled then t else t.(enabled := false, elapsed := false)
  }

  function AddSleep(c: Clock, periodMs: nat, timerSec: nat): Clock {
    Clock(c.biasMs + periodMs, timerSec + (c.biasMs + periodMs) / 1000)
  }

  // ---------------------------------------------------------------- entering and leaving modes

  function EnableLeader(s: State): State {
    s.(i2s := I2sBegin(s.i2s))
  }

  function DisableLeader(s: State): State {
    s.(i2s := I2sClose(s.i2s.(paused := true)))
  }

  function EnableFollower(s: State): State {
    s.(tasks := s.tasks.(bluetooth := true))
  }

  function DisableFollower(s: State): State {
    s.(tasks := s.tasks.(bluetooth := false))
  }

  function EnableSleep(s: State): State {
    s.(sleepmode := true, tasks := Tasks(true, true, true))
  }

  function DisableSleep(s: State): State {
    s.(sleepmode := false, tasks := RUNNING)
  }

  function EnableStandby(s: State, mode: StandbyMode, psuPlugged: bool): State {
    s.(standby := mode, enableSleep := true, lastPsuPlugged := psuPlugged, timer := TimerStart(s.timer),
       tasks := s.tasks.(bluetooth := true, dataset := true))
  }

  function DisableStandby(s: State): State {
    s.(tasks := s.tasks.(bluetooth := false, dataset := false), standby := NoStandby, timer := TimerStop(s.timer),
       clock := NO_TIME)
  }

  // ---------------------------------------------------------------- standby tasks

  /** The light sleep at the start of a standby task, if one is due. The leader task suspends the Bluetooth
      and dataset tasks around it. */
  function SleepIfDue(s: State, timerSec: nat): State {
    if !s.enableSleep then s
    else if s.standby.StandbyLeader? then
      s.(enableSleep := false, clock := AddSleep(s.clock, LEADER_PERIOD_MS, timerSec),
         tasks := s.tasks.(bluetooth := false, dataset := false))
    else s.(enableSleep := false, clock := AddSleep(s.clock, FOLLOWER_PERIOD_MS, timerSec))
  }

  /** What follows a timer wake-up with no new mode: battery check, power-off timeout, next sleep. */
  function BatteryCheck(s: State, input: Input): State {
    PowerCheck(s.(wokenFromOutside := false, lastPsuPlugged := input.psuPlugged), input)
  }

  /** The leader task clears the alarm whenever it schedules a sleep, the follower task only when plugged in. */
  function PowerCheck(s: State, input: Input): State {
    if input.psuPlugged then
      if s.timer.elapsed then s.(enableSleep := true, timer := s.timer.(elapsed := false), clock := NO_TIME) else s
    else if input.autoPowerOff && s.clock.totalSec >= TIMEOUT_SEC then s.(powerOffNotices := s.powerOffNotices + 1)
    else if s.timer.elapsed then s.(enableSleep := true, timer := s.timer.(elapsed := !s.standby.StandbyLeader?))
    else s
  }

  function StandbyTask(s: State, input: Input): State {
    var t := SleepIfDue(s, input.timerSec);
    match input.wakeup
    case Gpio => t.(wokenFromOutside := true)
    case TimerAlarm =>
      if input.taken then
        var u := t.(requested := input.mode);
        if u.requested != u.current then u.(wokenFromOutside := true) else u
      else BatteryCheck(t, input)
    case Undefined => t
  }

  // ---------------------------------------------------------------- main loop

  /** The first half of an iteration: wait for a mode, or run the standby task. */
  function Await(s: State, input: Input): State {
    if s.current != Standby || s.wokenFromOutside then s.(requested := input.mode, wokenFromOutside := false)
    else if InStandbyTask(s) then StandbyTask(s, input)
    else s
  }

  predicate InStandbyTask(s: State) {
    s.standby.StandbyLeader? || s.standby.StandbyFollower?
  }

  function Leave(s: State, mode: Mode): State {
    match mode
    case Sleep => DisableSleep(s)
    case Leader => DisableLeader(s)
    case Follower => DisableFollower(s)
    case Standby => DisableStandby(s)
    case Boot => s
    case Other(_) => s
  }

  function Enter(s: State, previous: Mode, psuPlugged: bool): State {
    match s.requested
    case Sleep => if previous != Boot then EnableSleep(s) else s
    case Leader => EnableLeader(s)
    case Follower => EnableFollower(s)
    case Standby =>
      if previous == Leader then EnableStandby(s, StandbyLeader, psuPlugged)
      else if previous == Follower then EnableStandby(s, StandbyFollower, psuPlugged)
      else s
    case Boot => s
    case Other(_) => s.(current := previous)
  }

  function Switch(s: State, psuPlugged: bool): State {
    if s.current == s.requested then s
    else
      var previous := s.current;
      Enter(Leave(s.(current := s.requested), previous), previous, psuPlugged)
  }

  function Alarm(s: State, alarm: bool): State {
    s.(timer := s.timer.(elapsed := s.timer.elapsed || (s.timer.enabled && alarm)))
  }

  function Iterate(s: State, input: Input): State {
    Switch(Await(Alarm(s, input.alarm), input), input.psuPlugged)
  }

  function Step(s: State, e: Event): State {
    match e
    case Iteration(input) => Iterate(s, input)
    case AudioPause => s.(i2s := I2sPause(s.i2s))
    case AudioResume => s.(i2s := I2sResume(s.i2s))
  }

  const POWER_ON: State :=
    State(Boot, Boot, I2s(false, false, false, false), RUNNING, StandbyTimer(false, false, false), NO_TIME,
          Unset, false, false, false, false, 0)

  function Run(events: seq<Event>): State {
    if events == [] then POWER_ON else Step(Run(events[..|events| - 1]), events[|events| - 1])
  }

  // ---------------------------------------------------------------- safety

  /** The driver is there only in leader mode, and the object's flag says whether it is. */
  predicate SafeDriver(d: I2s, mode: Mode) {
    !d.fault && d.installed == d.available && (d.installed ==> mode == Leader)
  }

  predicate SafeTasks(t: Tasks, mode: Mode) {
    && (t.battery ==> mode == Sleep)
    && (t.dataset ==> mode == Sleep || mode == Standby)
    && (t.bluetooth ==> mode == Sleep || mode == Follower || mode == Standby)
  }

  /** The timer runs only in standby, exactly while a standby task does, and no start has been refused. */
  predicate SafeTimer(s: State) {
    && !s.timer.refused
    && (s.timer.enabled <==> InStandbyTask(s))
    && (InStandbyTask(s) ==> s.current == Standby)
    && (s.current != Standby ==> s.clock == NO_TIME)
  }

  /** What holds between iterations, whatever the PIC sends. */
  predicate Safe(s: State) {
    && SafeDriver(s.i2s, s.current)
    && SafeTasks(s.tasks, s.current)
    && SafeTimer(s)
    && (s.sleepmode <==> s.tasks.battery)
  }

  lemma StandbyTaskIsSafe(s: State, input: Input)
    requires Safe(s) && InStandbyTask(s)
    ensures Safe(StandbyTask(s, input)) && StandbyTask(s, input).current == s.current
  {
    var t := SleepIfDue(s, input.timerSec);
    assert Safe(t) && t.current == s.current;
  }

  lemma AwaitIsSafe(s: State, input: Input)
    requires Safe(s)
    ensures Safe(Await(s, input)) && Await(s, input).current == s.current
  {
    if s.current == Standby && !s.wokenFromOutside && InStandbyTask(s) {
      StandbyTaskIsSafe(s, input);
    }
  }

  /** Leaving a mode undoes everything that mode may have switched. */
  predicate Neutral(s: State) {
    && !s.i2s.fault && !s.i2s.installed && !s.i2s.available
    && s.tasks == RUNNING
    && !s.timer.refused && !s.timer.enabled && !InStandbyTask(s)
    && s.clock == NO_TIME
    && !s.sleepmode
  }

  lemma CloseRemovesDriver(d: I2s)
    requires !d.fault && d.installed == d.available
    ensures var c := I2sClose(d);
            !c.fault && !c.installed && !c.available
  {
  }

  lemma LeaveIsNeutral(s: State, mode: Mode)
    requires Safe(s)
    ensures var t := Leave(s.(current := mode), s.current);
            Neutral(t) && t.current == mode && t.requested == s.requested
  {
    match s.current
    case Sleep =>
    case Leader => CloseRemovesDriver(s.i2s.(paused := true));
    case Follower =>
    case Standby =>
    case Boot =>
    case Other(_) =>
  }

  lemma EnterIsSafe(s: State, previous: Mode, psuPlugged: bool)
    requires Neutral(s) && s.current == s.requested != previous
    ensures Safe(Enter(s, previous, psuPlugged))
  {
  }

  lemma SwitchIsSafe(s: State, psuPlugged: bool)
    requires Safe(s)
    ensures Safe(Switch(s, psuPlugged))
  {
    if s.current != s.requested {
      LeaveIsNeutral(s, s.requested);
      EnterIsSafe(Leave(s.(current := s.requested), s.current), s.current, psuPlugged);
    }
  }

  /** One event keeps the machine safe: whatever mode is requested, known or not. */
  lemma StepIsSafe(s: State, e: Event)
    requires Safe(s)
    ensures Safe(Step(s, e))
  {
    match e
    case Iteration(input) =>
      AwaitIsSafe(Alarm(s, input.alarm), input);
      SwitchIsSafe(Await(Alarm(s, input.alarm), input), input.psuPlugged);
    case AudioPause =>
    case AudioResume =>
  }

  lemma {:induction false} AlwaysSafe(events: seq<Event>)
    ensures Safe(Run(events))
    decreases |events|
  {
    if events != [] {
      AlwaysSafe(events[..|events| - 1]);
      StepIsSafe(Run(events[..|events| - 1]), events[|events| - 1]);
    }
  }

  // ---------------------------------------------------------------- the mode in force

  /** The mode in force is a known one and the last one read, unless that was unknown; and a standby task only
      runs while the last mode read is standby. */
  predicate Settled(s: State) {
    && !s.current.Other?
    && (s.requested == s.current || s.requested.Other?)
    && (InStandbyTask(s) ==> s.requested == Standby)
  }

  /** The standby task runs in this iteration. */
  predicate RunsStandbyTask(s: State) {
    s.current == Standby && !s.wokenFromOutside && InStandbyTask(s)
  }

  /** A mode is read in this iteration. */
  predicate ReadsMode(s: State, input: Input) {
    || s.current != Standby
    || s.wokenFromOutside
    || (RunsStandbyTask(s) && input.wakeup.TimerAlarm? && input.taken)
  }

  lemma BatteryCheckKeeps(s: State, input: Input)
    ensures var t := BatteryCheck(s, input);
            && t.i2s == s.i2s && t.current == s.current && t.standby == s.standby && t.requested == s.requested
            && !t.wokenFromOutside
  {
  }

  lemma SleepKeeps(s: State, timerSec: nat)
    ensures var t := SleepIfDue(s, timerSec);
            && t.i2s == s.i2s && t.current == s.current && t.standby == s.standby && t.requested == s.requested
            && t.wokenFromOutside == s.wokenFromOutside
  {
  }

  /** What a standby task does to the mode: it reads a waiting message, and asks for the main loop when woken by
      the pin or by another mode. */
  lemma StandbyTaskReads(s: State, input: Input)
    requires !s.wokenFromOutside
    ensures var t, read := StandbyTask(s, input), input.wakeup.TimerAlarm? && input.taken;
            && t.i2s == s.i2s && t.current == s.current && t.standby == s.standby
            && t.requested == (if read then input.mode else s.requested)
            && t.wokenFromOutside == (input.wakeup.Gpio? || (read && input.mode != s.current))
  {
    SleepKeeps(s, input.timerSec);
    if input.wakeup.TimerAlarm? && !input.taken {
      BatteryCheckKeeps(SleepIfDue(s, input.timerSec), input);
    }
  }

  lemma AwaitReads(s: State, input: Input)
    ensures var t := Await(s, input);
            && t.i2s == s.i2s && t.current == s.current && t.standby == s.standby
            && t.requested == (if ReadsMode(s, input) then input.mode else s.requested)
            && t.wokenFromOutside == (RunsStandbyTask(s)
                                      && (input.wakeup.Gpio? || (ReadsMode(s, input) && input.mode != s.current)))
  {
    if RunsStandbyTask(s) {
      StandbyTaskReads(s, input);
    }
  }

  /** What an iteration that reads the mode `mode` makes the mode in force. */
  lemma SwitchSettles(s: State, psuPlugged: bool)
    requires Safe(s) && !s.current.Other? && (InStandbyTask(s) ==> s.current == Standby)
    ensures Settled(Switch(s, psuPlugged))
    ensures Switch(s, psuPlugged).requested == s.requested
    ensures Switch(s, psuPlugged).current == if s.requested.Other? then s.current else s.requested
  {
    if s.current != s.requested {
      LeaveIsNeutral(s, s.requested);
    }
  }

  lemma StepSettles(s: State, e: Event)
    requires Safe(s) && Settled(s)
    ensures Settled(Step(s, e))
  {
    match e
    case Iteration(input) =>
      var a := Alarm(s, input.alarm);
      AwaitIsSafe(a, input);
      AwaitReads(a, input);
      SwitchSettles(Await(a, input), input.psuPlugged);
    case AudioPause =>
    case AudioResume =>
  }

  lemma {:induction false} AlwaysSettled(events: seq<Event>)
    ensures Settled(Run(events))
    decreases |events|
  {
    if events != [] {
      var front := events[..|events| - 1];
      AlwaysSettled(front);
      AlwaysSafe(front);
      StepSettles(Run(front), events[|events| - 1]);
    }
  }

  // ---------------------------------------------------------------- what unknown modes break

  predicate DriverMatchesMode(s: State) {
    s.i2s.installed <==> s.current == Leader
  }

  predicate UnknownInLeader(s: State, e: Event) {
    e.Iteration? && e.input.mode.Other? && s.current == Leader
  }

  /** A mode change leaves the driver installed exactly in leader mode, unless the new mode is unknown. */
  lemma SwitchKeepsDriver(s: State, psuPlugged: bool)
    requires Safe(s) && !s.current.Other? && DriverMatchesMode(s)
    ensures DriverMatchesMode(Switch(s, psuPlugged)) <==> !(s.requested.Other? && s.current == Leader)
  {
    if s.current != s.requested {
      LeaveIsNeutral(s, s.requested);
      EnterInstalls(Leave(s.(current := s.requested), s.current), s.current, psuPlugged);
    }
  }

  lemma EnterInstalls(s: State, previous: Mode, psuPlugged: bool)
    requires Neutral(s) && s.current == s.requested
    ensures var t := Enter(s, previous, psuPlugged);
            && (t.i2s.installed <==> s.requested == Leader)
            && t.current == if s.requested.Other? then previous else s.requested
  {
  }

  /** Exactly when one event breaks the match: an unknown mode received in leader mode runs the leave action
      and then restores the old mode. */
  lemma DriverLostIff(s: State, e: Event)
    requires Safe(s) && !s.current.Other? && DriverMatchesMode(s)
    ensures DriverMatchesMode(Step(s, e)) <==> !UnknownInLeader(s, e)
  {
    match e
    case Iteration(input) =>
      var a := Alarm(s, input.alarm);
      AwaitIsSafe(a, input);
      AwaitReads(a, input);
      SwitchKeepsDriver(Await(a, input), input.psuPlugged);
    case AudioPause =>
    case AudioResume =>
  }

  lemma RunSnoc(events: seq<Event>, i: nat)
    requires i < |events|
    ensures Run(events[..i + 1]) == Step(Run(events[..i]), events[i])
  {
    assert events[..i + 1][..i] == events[..i];
  }

  lemma {:induction false} DriverKept(events: seq<Event>, n: nat)
    requires n <= |events|
    requires forall i | 0 <= i < n :: !UnknownInLeader(Run(events[..i]), events[i])
    ensures DriverMatchesMode(Run(events[..n]))
    decreases n
  {
    if n > 0 {
      DriverKept(events, n - 1);
      AlwaysSafe(events[..n - 1]);
      AlwaysSettled(events[..n - 1]);
      DriverLostIff(Run(events[..n - 1]), events[n - 1]);
      RunSnoc(events, n - 1);
    }
  }

  /** Over a whole run the driver is installed exactly in leader mode if and only if no unknown mode arrives
      while the speaker is in leader mode; unknown modes at other times do no harm. */
  lemma DriverInstalledIffLeader(events: seq<Event>)
    ensures (forall n | 0 <= n <= |events| :: DriverMatchesMode(Run(events[..n])))
            <==> (forall i | 0 <= i < |events| :: !UnknownInLeader(Run(events[..i]), events[i]))
  {
    if forall i | 0 <= i < |events| :: !UnknownInLeader(Run(events[..i]), events[i]) {
      forall n | 0 <= n <= |events|
        ensures DriverMatchesMode(Run(events[..n]))
      {
        DriverKept(events, n);
      }
    } else {
      var i :| 0 <= i < |events| && UnknownInLeader(Run(events[..i]), events[i]);
      AlwaysSafe(events[..i]);
      RunSnoc(events, i);
      if DriverMatchesMode(Run(events[..i])) {
        DriverLostIff(Run(events[..i]), events[i]);
        assert !DriverMatchesMode(Run(events[..i + 1]));
      }
    }
  }

  /** The loop reads `mode`. */
  function Reading(mode: Mode): Event {
    Iteration(Input(mode, Undefined, true, false, false, 0, false))
  }

  /** An unknown mode right after leader mode: the speaker is in leader mode without a driver. */
  lemma DriverLostExample()
    ensures var s := Run([Reading(Leader), Reading(Other(7))]);
            s.current == Leader && !s.i2s.installed
  {
    var events := [Reading(Leader), Reading(Other(7))];
    assert events[..0] == [];
    RunSnoc(events, 0);
    RunSnoc(events, 1);
    assert events[..2] == events;
  }

  // ---------------------------------------------------------------- when the loop stops reading modes

  /** In standby with neither standby task set up, and not woken. */
  predicate Dead(s: State) {
    s.current == Standby && !s.wokenFromOutside && !InStandbyTask(s)
  }

  /** Such a state never reads another mode: no input gets it out, and all that can still happen is that the
      leave action of standby runs over and over. */
  lemma StandbyTrap(s: State, input: Input)
    requires Safe(s) && Settled(s) && Dead(s)
    ensures !ReadsMode(s, input)
    ensures var t := Iterate(s, input);
            && Dead(t) && t.requested == s.requested
            && t == if s.requested == Standby then s else DisableStandby(s)
  {
  }

  lemma DeadStaysDead(s: State, e: Event)
    requires Safe(s) && Settled(s) && Dead(s)
    ensures Dead(Step(s, e)) && Step(s, e).requested == s.requested
  {
    if e.Iteration? {
      StandbyTrap(s, e.input);
    }
  }

  /** Only there: any other state reads the next mode, or does once the PIC's message is waiting at a timer
      wake-up. */
  lemma DeadIffNeverReads(s: State)
    ensures Dead(s) <==> forall input :: !ReadsMode(s, input)
  {
    if !Dead(s) {
      assert ReadsMode(s, Input(Boot, TimerAlarm, true, false, false, 0, false));
    }
  }

  /** The two ways in: standby requested from a mode that has no standby of its own; and, after a wake-up out
      of standby, an unknown mode, or standby again once an unknown one has shut the standby task down. */
  predicate Deadly(s: State, input: Input) {
    || (s.current != Standby && s.current != Leader && s.current != Follower && input.mode == Standby)
    || (&& s.current == Standby && s.wokenFromOutside
        && (input.mode.Other? || (input.mode == Standby && !InStandbyTask(s))))
  }

  /** Which mode changes end in a dead state. */
  lemma SwitchDeadIff(s: State, psuPlugged: bool)
    requires Safe(s) && s.current != s.requested
    ensures Dead(Switch(s, psuPlugged)) <==>
            && !s.wokenFromOutside
            && ((s.requested.Other? && s.current == Standby)
                || (s.requested == Standby && s.current != Leader && s.current != Follower))
  {
    LeaveIsNeutral(s, s.requested);
    LeaveKeepsWoken(s.(current := s.requested), s.current);
    EnterStandby(Leave(s.(current := s.requested), s.current), s.current, psuPlugged);
  }

  lemma LeaveKeepsWoken(s: State, mode: Mode)
    ensures Leave(s, mode).wokenFromOutside == s.wokenFromOutside
  {
  }

  lemma EnterStandby(s: State, previous: Mode, psuPlugged: bool)
    requires Neutral(s) && s.current == s.requested != previous
    ensures var t := Enter(s, previous, psuPlugged);
            && t.wokenFromOutside == s.wokenFromOutside
            && (t.current == Standby <==> s.requested == Standby || (s.requested.Other? && previous == Standby))
            && (InStandbyTask(t) <==> s.requested == Standby && (previous == Leader || previous == Follower))
  {
  }

  /** Exactly which iterations lead there. */
  lemma TrapEnteredIff(s: State, input: Input)
    requires Safe(s) && Settled(s) && !Dead(s)
    ensures Dead(Iterate(s, input)) <==> Deadly(s, input)
  {
    var a := Alarm(s, input.alarm);
    AwaitIsSafe(a, input);
    AwaitReads(a, input);
    if Await(a, input).current != Await(a, input).requested {
      SwitchDeadIff(Await(a, input), input.psuPlugged);
    }
  }

  /** Some iteration of the run was deadly. */
  ghost predicate HadDeadly(events: seq<Event>) {
    exists i :: 0 <= i < |events| && DeadlyAt(events, i)
  }

  predicate DeadlyAt(events: seq<Event>, i: nat)
    requires i < |events|
  {
    events[i].Iteration? && Deadly(Run(events[..i]), events[i].input)
  }

  lemma HadDeadlySnoc(front: seq<Event>, last: Event)
    ensures HadDeadly(front + [last]) <==> HadDeadly(front) || (last.Iteration? && Deadly(Run(front), last.input))
  {
    var events := front + [last];
    assert events[..|front|] == front;
    forall i | 0 <= i < |front|
      ensures DeadlyAt(events, i) == DeadlyAt(front, i)
    {
      assert events[..i] == front[..i];
    }
    assert DeadlyAt(events, |front|) == (last.Iteration? && Deadly(Run(front), last.input));
  }

  lemma StepDeadIff(s: State, e: Event)
    requires Safe(s) && Settled(s)
    ensures Dead(Step(s, e)) <==> Dead(s) || (e.Iteration? && Deadly(s, e.input))
  {
    if Dead(s) {
      DeadStaysDead(s, e);
    } else if e.Iteration? {
      TrapEnteredIff(s, e.input);
    }
  }

  /** A run has stopped reading modes if and only if one of its iterations was deadly. */
  lemma {:induction false} TrappedIff(events: seq<Event>)
    ensures Dead(Run(events)) <==> HadDeadly(events)
    decreases |events|
  {
    if events != [] {
      var front, last := events[..|events| - 1], events[|events| - 1];
      TrappedIff(front);
      AlwaysSafe(front);
      AlwaysSettled(front);
      StepDeadIff(Run(front), last);
      assert events == front + [last];
      HadDeadlySnoc(front, last);
    }
  }

  lemma RunLast(front: seq<Event>, last: Event)
    ensures Run(front + [last]) == Step(Run(front), last)
  {
    assert (front + [last])[..|front + [last]| - 1] == front;
  }

  /** And it never starts again: whatever follows, the last mode read stays the last. */
  lemma {:induction false} NeverOutAgain(events: seq<Event>, more: seq<Event>)
    requires Dead(Run(events))
    ensures Dead(Run(events + more)) && Run(events + more).requested == Run(events).requested
    decreases |more|
  {
    if more == [] {
      assert events + more == events;
    } else {
      var front, last := events + more[..|more| - 1], more[|more| - 1];
      NeverOutAgain(events, more[..|more| - 1]);
      AlwaysSafe(front);
      AlwaysSettled(front);
      DeadStaysDead(Run(front), last);
      RunLast(front, last);
      assert events + more == front + [last];
    }
  }

  /** The pin wakes the speaker from its standby sleep. */
  const WAKE: Event := Iteration(Input(Standby, Gpio, false, false, false, 0, false))

  lemma LeaderThenStandby()
    ensures var s := Step(Step(POWER_ON, Reading(Leader)), Reading(Standby));
            && s.current == s.requested == Standby && s.standby == StandbyLeader
            && !s.wokenFromOutside
  {
    var s := Step(POWER_ON, Reading(Leader));
    assert s.current == Leader && !s.wokenFromOutside;
  }

  lemma WokenThenUnknown(s: State)
    requires Safe(s) && s.current == s.requested == Standby && InStandbyTask(s) && !s.wokenFromOutside
    ensures var t := Step(Step(s, WAKE), Reading(Other(7)));
            Dead(t) && t.requested == Other(7) && DisableStandby(t) == t
  {
    var a := Alarm(s, false);
    AwaitReads(a, WAKE.input);
    var w := Step(s, WAKE);
    assert w.wokenFromOutside && w.current == w.requested == Standby;
    AwaitReads(Alarm(w, false), Reading(Other(7)).input);
  }

  /** An unknown mode received after a wake-up from standby: no mode is read any more, whatever the PIC sends. */
  lemma TrapExample()
    ensures var s := Run([Reading(Leader), Reading(Standby), WAKE, Reading(Other(7))]);
            Dead(s) && s.requested == Other(7) && forall input :: Iterate(s, input) == s
  {
    var events := [Reading(Leader), Reading(Standby), WAKE, Reading(Other(7))];
    assert events[..0] == [] && events[..4] == events;
    RunSnoc(events, 0);
    RunSnoc(events, 1);
    RunSnoc(events, 2);
    RunSnoc(events, 3);
    LeaderThenStandby();
    AlwaysSafe(events[..2]);
    WokenThenUnknown(Run(events[..2]));
    AlwaysSafe(events);
    AlwaysSettled(events);
    forall input
      ensures Iterate(Run(events), input) == Run(events)
    {
      StandbyTrap(Run(events), input);
    }
  }
}
