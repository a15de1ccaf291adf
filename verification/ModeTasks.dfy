/** What entering a mode does: which tasks are suspended and for how long, when the next light sleep is due, and
whether the audio clocks are paused (main/main_sat.cpp). */
module ModeTasks {
  import opened Modes
  import opened ModeTimes

  /** Three ways tasks are put to rest, and a light sleep being due. */
  datatype Rest = Asleep | Following | StandingBy | SleepDue

  /** In sleep all three tasks are suspended and the sleep flag is set; in follower mode Bluetooth is; in standby
      Bluetooth and the dataset task are; and the standby task sleeps on its next turn. */
  predicate AtRest(k: Rest, s: State) {
    match k
    case Asleep => s.tasks.battery && s.tasks.dataset && s.tasks.bluetooth && s.sleepmode
    case Following => s.current == Follower && s.tasks.bluetooth
    case StandingBy => s.current == Standby && s.tasks.dataset && s.tasks.bluetooth
    case SleepDue => InStandbyTask(s) && s.enableSleep
  }

  predicate Reads(s: State, e: Event, mode: Mode) {
    e.Iteration? && ReadsMode(s, e.input) && e.input.mode == mode
  }

  predicate EntersStandby(s: State, e: Event) {
    Reads(s, e, Standby) && (s.current == Leader || s.current == Follower)
  }

  /** In a timer wake-up without a new mode the alarm schedules a light sleep, unless power-off is due. */
  predicate Schedules(s: State, input: Input) {
    && ChecksBattery(s, input) && s.timer.elapsed
    && (input.psuPlugged || !input.autoPowerOff || SleepIfDue(s, input.timerSec).clock.totalSec < TIMEOUT_SEC)
  }

  /** The mode is entered: sleep from any mode but boot, follower mode from any mode, standby from leader or
      follower mode; a sleep becomes due on entering standby, and when one is scheduled. */
  predicate Enters(k: Rest, s: State, e: Event) {
    match k
    case Asleep => Reads(s, e, Sleep) && s.current != Sleep && s.current != Boot
    case Following => Reads(s, e, Follower) && s.current != Follower
    case StandingBy => EntersStandby(s, e)
    case SleepDue => EntersStandby(s, e) || (e.Iteration? && Schedules(Alarm(s, e.input.alarm), e.input))
  }

  /** Nothing ends it: no other mode is read, known or not; the leader's standby task has not slept, which is when
      it starts the tasks again; and the standby task has not run, which is when it sleeps. */
  predicate Stays(k: Rest, s: State, e: Event) {
    e.Iteration? ==>
      match k
      case Asleep => e.input.mode == Sleep
      case Following => e.input.mode == Follower
      case StandingBy =>
        && (ReadsMode(s, e.input) ==> e.input.mode == Standby)
        && !(FallsAsleep(s) && s.standby.StandbyLeader?)
      case SleepDue =>
        && (ReadsMode(s, e.input) ==> e.input.mode == Standby)
        && !RunsStandbyTask(s)
  }

  /** Once the standby task has been shut down, nothing is suspended in standby. */
  predicate Resumed(s: State) {
    s.current == Standby && !InStandbyTask(s) ==> s.tasks == RUNNING
  }

  // ---------------------------------------------------------------- one event

  lemma BatteryCheckKeepsTasks(s: State, input: Input)
    ensures BatteryCheck(s, input).tasks == s.tasks && BatteryCheck(s, input).sleepmode == s.sleepmode
  {
  }

  lemma AwaitTasks(s: State, input: Input)
    ensures var t := Await(s, input);
            && t.sleepmode == s.sleepmode && t.standby == s.standby && t.current == s.current
            && t.tasks == if FallsAsleep(s) && s.standby.StandbyLeader? then Tasks(s.tasks.battery, false, false)
                          else s.tasks
  {
    AwaitReads(s, input);
    if RunsStandbyTask(s) && input.wakeup.TimerAlarm? && !input.taken {
      BatteryCheckKeepsTasks(SleepIfDue(s, input.timerSec), input);
    }
  }

  lemma CheckSchedules(s: State, input: Input)
    requires !s.enableSleep
    ensures var t := BatteryCheck(s, input);
            && (t.enableSleep <==>
                (s.timer.elapsed && (input.psuPlugged || !input.autoPowerOff || s.clock.totalSec < TIMEOUT_SEC)))
            && (t.timer.elapsed <==>
                (s.timer.elapsed && !(t.enableSleep && (input.psuPlugged || s.standby.StandbyLeader?))))
  {
  }

  lemma SleepClearsFlag(s: State, timerSec: nat)
    ensures var t := SleepIfDue(s, timerSec);
            !t.enableSleep && t.timer == s.timer && t.standby == s.standby
  {
  }

  /** What the standby task makes of the alarm and of the next sleep. */
  lemma AwaitSchedules(s: State, input: Input)
    ensures var t := Await(s, input);
            && (t.enableSleep <==> if RunsStandbyTask(s) then Schedules(s, input) else s.enableSleep)
            && (t.timer.elapsed <==>
                (s.timer.elapsed && !(Schedules(s, input) && (input.psuPlugged || s.standby.StandbyLeader?))))
  {
    SleepClearsFlag(s, input.timerSec);
    if ChecksBattery(s, input) {
      CheckSchedules(SleepIfDue(s, input.timerSec), input);
    }
  }

  /** What is suspended after a change from `from` to `to`. */
  function Suspended(from: Mode, to: Mode): Tasks {
    match to
    case Sleep => if from == Boot then RUNNING else Tasks(true, true, true)
    case Follower => Tasks(false, false, true)
    case Standby => if from == Leader || from == Follower then Tasks(false, true, true) else RUNNING
    case _ => RUNNING
  }

  /** What a mode change leaves suspended. */
  lemma SwitchTasks(s: State, psuPlugged: bool)
    requires Safe(s) && !s.current.Other? && s.current != s.requested
    ensures var t, from := Switch(s, psuPlugged), s.current;
            && t.current == (if s.requested.Other? then from else s.requested)
            && t.tasks == Suspended(from, s.requested)
            && (t.sleepmode <==> s.requested == Sleep && from != Boot)
            && (InStandbyTask(t) <==> s.requested == Standby && (from == Leader || from == Follower))
            && (InStandbyTask(t) ==> t.enableSleep && !t.timer.elapsed)
  {
    LeaveIsNeutral(s, s.requested);
    EnterTasks(Leave(s.(current := s.requested), s.current), s.current, psuPlugged);
  }

  lemma EnterTasks(s: State, previous: Mode, psuPlugged: bool)
    requires Neutral(s) && s.current == s.requested != previous
    ensures var t := Enter(s, previous, psuPlugged);
            && t.current == (if s.requested.Other? then previous else s.requested)
            && t.tasks == Suspended(previous, s.requested)
            && (t.sleepmode <==> s.requested == Sleep && previous != Boot)
            && (InStandbyTask(t) <==> s.requested == Standby && (previous == Leader || previous == Follower))
            && (InStandbyTask(t) ==> t.enableSleep && !t.timer.elapsed)
  {
  }

  lemma SameSwitch(s: State, psuPlugged: bool)
    requires s.current == s.requested
    ensures Switch(s, psuPlugged) == s
  {
  }

  /** What waiting for a mode, or running the standby task, does to what matters here: `t` is `s` afterwards. */
  predicate Awaited(s: State, input: Input, t: State) {
    && t.current == s.current && t.standby == s.standby && t.sleepmode == s.sleepmode
    && t.requested == (if ReadsMode(s, input) then input.mode else s.requested)
    && t.tasks == (if FallsAsleep(s) && s.standby.StandbyLeader? then Tasks(s.tasks.battery, false, false) else s.tasks)
    && (t.enableSleep <==> if RunsStandbyTask(s) then Schedules(s, input) else s.enableSleep)
  }

  lemma AwaitIsAwaited(s: State, input: Input)
    ensures Awaited(s, input, Await(s, input))
  {
    AwaitReads(s, input);
    AwaitTasks(s, input);
    AwaitSchedules(s, input);
  }

  /** No mode change: `s` is the state with the alarm raised. */
  lemma SameRest(k: Rest, s: State, input: Input, t: State)
    requires Safe(s) && Settled(s) && Resumed(s) && Awaited(s, input, t) && t.current == t.requested
    ensures AtRest(k, t) <==> EntersAlarmed(k, s, input) || (AtRest(k, s) && Stays(k, s, Iteration(input)))
    ensures Resumed(t)
  {
  }

  /** A mode change. */
  lemma ChangedRest(k: Rest, s: State, input: Input, t: State)
    requires Safe(s) && Settled(s) && Resumed(s) && Awaited(s, input, t) && Safe(t) && t.current != t.requested
    ensures var u := Switch(t, input.psuPlugged);
            AtRest(k, u) <==> EntersAlarmed(k, s, input) || (AtRest(k, s) && Stays(k, s, Iteration(input)))
    ensures Resumed(Switch(t, input.psuPlugged))
  {
    SwitchTasks(t, input.psuPlugged);
    match k
    case Asleep =>
    case Following =>
    case StandingBy =>
    case SleepDue =>
  }

  /** `Enters`, for a state in which the alarm has already been raised. */
  predicate EntersAlarmed(k: Rest, s: State, input: Input) {
    match k
    case SleepDue => EntersStandby(s, Iteration(input)) || Schedules(s, input)
    case _ => Enters(k, s, Iteration(input))
  }

  lemma AlarmedAlike(k: Rest, s: State, input: Input)
    ensures var a := Alarm(s, input.alarm);
            && EntersAlarmed(k, a, input) == Enters(k, s, Iteration(input))
            && Stays(k, a, Iteration(input)) == Stays(k, s, Iteration(input))
            && AtRest(k, a) == AtRest(k, s)
  {
  }

  lemma IterationRest(k: Rest, s: State, input: Input)
    requires Safe(s) && Settled(s) && Resumed(s)
    ensures AtRest(k, Iterate(s, input)) <==>
            Enters(k, s, Iteration(input)) || (AtRest(k, s) && Stays(k, s, Iteration(input)))
    ensures Resumed(Iterate(s, input))
  {
    var a := Alarm(s, input.alarm);
    var t := Await(a, input);
    AwaitIsSafe(a, input);
    AwaitIsAwaited(a, input);
    AlarmedAlike(k, s, input);
    if t.current == t.requested {
      SameSwitch(t, input.psuPlugged);
      SameRest(k, a, input, t);
    } else {
      ChangedRest(k, a, input, t);
    }
  }

  lemma StepRest(k: Rest, s: State, e: Event)
    requires Safe(s) && Settled(s) && Resumed(s)
    ensures AtRest(k, Step(s, e)) <==> Enters(k, s, e) || (AtRest(k, s) && Stays(k, s, e))
    ensures Resumed(Step(s, e))
  {
    if e.Iteration? {
      IterationRest(k, s, e.input);
    }
  }

  /** The alarm, while a standby task is set up: raised by the timer, and taken back on entering standby and when
      it schedules a sleep, by the follower task only with the charger plugged in. */
  lemma AlarmOf(s: State, input: Input)
    requires Safe(s) && Settled(s) && Resumed(s) && InStandbyTask(Iterate(s, input))
    ensures var a := Alarm(s, input.alarm);
            Iterate(s, input).timer.elapsed <==>
            && !EntersStandby(s, Iteration(input))
            && (s.timer.elapsed || (s.timer.enabled && input.alarm))
            && !(Schedules(a, input) && (input.psuPlugged || s.standby.StandbyLeader?))
  {
    var a := Alarm(s, input.alarm);
    var t := Await(a, input);
    AwaitIsSafe(a, input);
    AwaitReads(a, input);
    AwaitSchedules(a, input);
    if t.current == t.requested {
      SameSwitch(t, input.psuPlugged);
    } else {
      SwitchTasks(t, input.psuPlugged);
    }
  }

  lemma AwaitKeepsKind(s: State, input: Input)
    ensures var t := Await(s, input);
            && t.standby == s.standby && t.current == s.current
            && t.lastPsuPlugged == if ChecksBattery(s, input) then input.psuPlugged else s.lastPsuPlugged
  {
    AwaitReads(s, input);
  }

  lemma LeaveKind(s: State, mode: Mode)
    ensures var t := Leave(s, mode);
            && t.standby == (if mode == Standby then NoStandby else s.standby)
            && t.lastPsuPlugged == s.lastPsuPlugged && t.requested == s.requested
  {
  }

  lemma EnterKind(s: State, previous: Mode, psuPlugged: bool)
    ensures var t := Enter(s, previous, psuPlugged);
            var entered := s.requested == Standby && (previous == Leader || previous == Follower);
            && t.standby == (if !entered then s.standby else if previous == Leader then StandbyLeader
                             else StandbyFollower)
            && t.lastPsuPlugged == (if entered then psuPlugged else s.lastPsuPlugged)
  {
  }

  lemma SwitchKind(s: State, psuPlugged: bool)
    requires s.current != s.requested
    ensures var t := Switch(s, psuPlugged);
            && t.standby == (if s.requested == Standby && s.current == Leader then StandbyLeader
                             else if s.requested == Standby && s.current == Follower then StandbyFollower
                             else if s.current == Standby then NoStandby
                             else s.standby)
            && t.lastPsuPlugged == (if s.requested == Standby && (s.current == Leader || s.current == Follower)
                                    then psuPlugged else s.lastPsuPlugged)
  {
    var l := s.(current := s.requested);
    LeaveKind(l, s.current);
    EnterKind(Leave(l, s.current), s.current, psuPlugged);
  }

  /** Which standby task is set up: the leader's on entering standby from leader mode, the follower's from follower
      mode, until another mode is read; and whether the charger was plugged in is noted then, and at each check. */
  lemma StandbyKind(s: State, input: Input)
    requires Safe(s) && Settled(s)
    ensures var t, e := Iterate(s, input), Iteration(input);
            && (InStandbyTask(t) <==>
                EntersStandby(s, e) || (InStandbyTask(s) && (ReadsMode(s, input) ==> input.mode == Standby)))
            && (EntersStandby(s, e) ==> t.standby == if s.current == Leader then StandbyLeader else StandbyFollower)
            && (InStandbyTask(t) && !EntersStandby(s, e) ==> t.standby == s.standby)
            && t.lastPsuPlugged == (if EntersStandby(s, e) || ChecksBattery(s, input) then input.psuPlugged
                                    else s.lastPsuPlugged)
  {
    var a := Alarm(s, input.alarm);
    var t := Await(a, input);
    AwaitReads(a, input);
    AwaitKeepsKind(a, input);
    if t.current == t.requested {
      SameSwitch(t, input.psuPlugged);
    } else {
      SwitchKind(t, input.psuPlugged);
    }
  }

  // ---------------------------------------------------------------- whole runs

  predicate EntersAt(k: Rest, events: seq<Event>, i: nat)
    requires i < |events|
  {
    Enters(k, Run(events[..i]), events[i])
  }

  predicate StaysAt(k: Rest, events: seq<Event>, i: nat)
    requires i < |events|
  {
    Stays(k, Run(events[..i]), events[i])
  }

  /** The mode was entered, and nothing has ended the rest since. */
  ghost predicate EnteredAndStayed(k: Rest, events: seq<Event>) {
    exists i :: 0 <= i < |events| && EntersAt(k, events, i) && StaysFrom(k, events, i + 1)
  }

  ghost predicate StaysFrom(k: Rest, events: seq<Event>, from: nat) {
    forall j | from <= j < |events| :: StaysAt(k, events, j)
  }

  lemma EarlierAt(k: Rest, front: seq<Event>, last: Event, i: nat)
    requires i < |front|
    ensures EntersAt(k, front + [last], i) == EntersAt(k, front, i)
    ensures StaysAt(k, front + [last], i) == StaysAt(k, front, i)
  {
    assert (front + [last])[..i] == front[..i];
  }

  lemma LastAt(k: Rest, front: seq<Event>, last: Event)
    ensures EntersAt(k, front + [last], |front|) == Enters(k, Run(front), last)
    ensures StaysAt(k, front + [last], |front|) == Stays(k, Run(front), last)
  {
    assert (front + [last])[..|front|] == front;
  }

  lemma EnteredAndStayedSnoc(k: Rest, front: seq<Event>, last: Event)
    ensures EnteredAndStayed(k, front + [last]) <==>
            Enters(k, Run(front), last) || (EnteredAndStayed(k, front) && Stays(k, Run(front), last))
  {
    var events, n := front + [last], |front|;
    LastAt(k, front, last);
    forall i | 0 <= i < n
      ensures EntersAt(k, events, i) == EntersAt(k, front, i)
      ensures StaysAt(k, events, i) == StaysAt(k, front, i)
    {
      EarlierAt(k, front, last, i);
    }
    if Enters(k, Run(front), last) {
      assert EntersAt(k, events, n) && StaysFrom(k, events, n + 1);
    }
    if EnteredAndStayed(k, front) && Stays(k, Run(front), last) {
      var i :| 0 <= i < n && EntersAt(k, front, i) && StaysFrom(k, front, i + 1);
      assert EntersAt(k, events, i) && StaysFrom(k, events, i + 1);
    }
    if EnteredAndStayed(k, events) {
      var i :| 0 <= i < |events| && EntersAt(k, events, i) && StaysFrom(k, events, i + 1);
      if i < n {
        assert StaysAt(k, events, n);
        assert EntersAt(k, front, i) && StaysFrom(k, front, i + 1);
      }
    }
  }

  /** After any run the tasks are at rest, or a sleep is due, if and only if what puts them there has happened, and
      nothing has ended it since. */
  lemma {:induction false} AtRestIff(k: Rest, events: seq<Event>)
    ensures AtRest(k, Run(events)) <==> EnteredAndStayed(k, events)
    ensures Resumed(Run(events))
    decreases |events|
  {
    if events != [] {
      var front, last := events[..|events| - 1], events[|events| - 1];
      AtRestIff(k, front);
      AlwaysSafe(front);
      AlwaysSettled(front);
      StepRest(k, Run(front), last);
      assert events == front + [last];
      EnteredAndStayedSnoc(k, front, last);
    }
  }

  lemma ReadingRun(a: Mode, b: Mode)
    ensures Run([Reading(a), Reading(b)]) == Step(Step(POWER_ON, Reading(a)), Reading(b))
  {
    var events := [Reading(a), Reading(b)];
    assert events[..0] == [] && events[..2] == events;
    RunSnoc(events, 0);
    RunSnoc(events, 1);
  }

  /** Sleep after follower mode: everything is suspended. */
  lemma SleepExample()
    ensures var s := Run([Reading(Follower), Reading(Sleep)]);
            s.current == Sleep && s.tasks == Tasks(true, true, true) && s.sleepmode
  {
    ReadingRun(Follower, Sleep);
  }

  // ---------------------------------------------------------------- audio clocks

  /** Pausing and resuming work only on an installed driver, and leaving leader mode pauses. */
  lemma PausedAfter(s: State, e: Event)
    requires Safe(s) && Settled(s)
    ensures Step(s, e).i2s.paused <==>
            match e
            case AudioPause => s.i2s.available || s.i2s.paused
            case AudioResume => !s.i2s.available && s.i2s.paused
            case Iteration(input) => s.i2s.paused || (s.current == Leader && input.mode != Leader)
  {
    if e.Iteration? {
      var a := Alarm(s, e.input.alarm);
      AwaitReads(a, e.input);
      SwitchPauses(Await(a, e.input), e.input.psuPlugged);
    }
  }

  lemma SwitchPauses(s: State, psuPlugged: bool)
    ensures Switch(s, psuPlugged).i2s.paused <==> s.i2s.paused || (s.current == Leader && s.current != s.requested)
  {
    if s.current != s.requested {
      LeavePauses(s.(current := s.requested), s.current);
      EnterKeepsPaused(Leave(s.(current := s.requested), s.current), s.current, psuPlugged);
    }
  }

  lemma LeavePauses(s: State, mode: Mode)
    ensures Leave(s, mode).i2s.paused <==> s.i2s.paused || mode == Leader
  {
  }

  lemma EnterKeepsPaused(s: State, previous: Mode, psuPlugged: bool)
    ensures Enter(s, previous, psuPlugged).i2s.paused == s.i2s.paused
  {
  }
}
