/** The time a standby has lasted: how the light sleeps of the standby tasks add up, and when the power-off
timeout is announced to the PIC (main/main_sat.cpp). */
module ModeTimes {
  import opened Modes

  /** The light sleeps since the standby time was last cleared, and the standby timer's own seconds at the
      latest of them. */
  datatype SleepLog = SleepLog(sleeps: nat, timerSec: nat)

  predicate FallsAsleep(s: State) {
    RunsStandbyTask(s) && s.enableSleep
  }

  /** A timer wake-up without a new mode. */
  predicate ChecksBattery(s: State, input: Input) {
    RunsStandbyTask(s) && input.wakeup.TimerAlarm? && !input.taken
  }

  /** The standby time is cleared: a mode other than standby is read in standby, or the alarm has gone off with
      the charger plugged in. */
  predicate ClearsTime(s: State, input: Input) {
    || (s.current == Standby && ReadsMode(s, input) && input.mode != Standby)
    || (ChecksBattery(s, input) && input.psuPlugged && Alarm(s, input.alarm).timer.elapsed)
  }

  /** The log once the standby task has slept, if it was due to. */
  function Slept(s: State, log: SleepLog, timerSec: nat): SleepLog {
    if FallsAsleep(s) then SleepLog(log.sleeps + 1, timerSec) else log
  }

  function NextLog(s: State, log: SleepLog, e: Event): SleepLog {
    if !e.Iteration? then log
    else if ClearsTime(s, e.input) then SleepLog(0, 0)
    else Slept(s, log, e.input.timerSec)
  }

  function Log(events: seq<Event>): SleepLog {
    if events == [] then SleepLog(0, 0)
    else
      var front := events[..|events| - 1];
      NextLog(Run(front), Log(front), events[|events| - 1])
  }

  /** The length of one light sleep. */
  function PeriodMs(mode: StandbyMode): nat {
    match mode
    case StandbyLeader => LEADER_PERIOD_MS
    case StandbyFollower => FOLLOWER_PERIOD_MS
    case Unset => 0
    case NoStandby => 0
  }

  /** The standby time in seconds: what the timer counted up to the latest sleep, and the sleeps themselves. */
  function StandbySec(mode: StandbyMode, log: SleepLog): nat {
    log.timerSec + log.sleeps * PeriodMs(mode) / 1000
  }

  /** The clock accounts for exactly the logged sleeps. */
  predicate Accounts(s: State, log: SleepLog) {
    && s.clock == (if log.sleeps == 0 then NO_TIME
                   else Clock(log.sleeps * PeriodMs(s.standby), StandbySec(s.standby, log)))
    && (!InStandbyTask(s) ==> log.sleeps == 0)
  }

  lemma SleepAccounts(s: State, log: SleepLog, timerSec: nat)
    requires RunsStandbyTask(s) && Accounts(s, log)
    ensures Accounts(SleepIfDue(s, timerSec), Slept(s, log, timerSec))
  {
    assert (log.sleeps + 1) * PeriodMs(s.standby) == log.sleeps * PeriodMs(s.standby) + PeriodMs(s.standby);
  }

  lemma BatteryCheckAccounts(s: State, log: SleepLog, input: Input)
    requires Accounts(s, log)
    ensures var t := BatteryCheck(s, input);
            if input.psuPlugged && s.timer.elapsed then t.clock == NO_TIME && t.standby == s.standby
            else Accounts(t, log)
  {
  }

  /** What the standby task makes of the log, before a mode it may have read is acted on. */
  lemma StandbyTaskAccounts(s: State, log: SleepLog, input: Input)
    requires RunsStandbyTask(s) && Accounts(s, log)
    ensures var clears := ChecksBattery(s, input) && input.psuPlugged && s.timer.elapsed;
            Accounts(StandbyTask(s, input), if clears then SleepLog(0, 0) else Slept(s, log, input.timerSec))
  {
    SleepAccounts(s, log, input.timerSec);
    SleepKeepsTimer(s, input.timerSec);
    if ChecksBattery(s, input) {
      BatteryCheckAccounts(SleepIfDue(s, input.timerSec), Slept(s, log, input.timerSec), input);
    }
  }

  lemma SleepKeepsTimer(s: State, timerSec: nat)
    ensures SleepIfDue(s, timerSec).timer == s.timer
    ensures SleepIfDue(s, timerSec).powerOffNotices == s.powerOffNotices
    ensures SleepIfDue(s, timerSec).standby == s.standby
  {
  }

  lemma AwaitAccounts(s: State, log: SleepLog, input: Input)
    requires Accounts(s, log)
    ensures var clears := ChecksBattery(s, input) && input.psuPlugged && s.timer.elapsed;
            Accounts(Await(s, input), if clears then SleepLog(0, 0) else Slept(s, log, input.timerSec))
  {
    if RunsStandbyTask(s) {
      StandbyTaskAccounts(s, log, input);
    }
  }

  /** A mode change clears the log when it leaves standby, and otherwise finds it empty. */
  lemma SwitchAccounts(s: State, log: SleepLog, psuPlugged: bool)
    requires Safe(s) && Accounts(s, log) && (InStandbyTask(s) ==> s.current == Standby)
    ensures Accounts(Switch(s, psuPlugged), if s.current == Standby != s.requested then SleepLog(0, 0) else log)
  {
    if s.current != s.requested {
      LeaveIsNeutral(s, s.requested);
      EnterKeepsClock(Leave(s.(current := s.requested), s.current), s.current, psuPlugged);
    }
  }

  lemma EnterKeepsClock(s: State, previous: Mode, psuPlugged: bool)
    ensures Enter(s, previous, psuPlugged).clock == s.clock
  {
  }

  lemma StepAccounts(s: State, log: SleepLog, e: Event)
    requires Safe(s) && Settled(s) && Accounts(s, log)
    ensures Accounts(Step(s, e), NextLog(s, log, e))
  {
    if e.Iteration? {
      var input := e.input;
      var a := Alarm(s, input.alarm);
      AwaitAccounts(a, log, input);
      AwaitIsSafe(a, input);
      AwaitReads(a, input);
      var clears := ChecksBattery(a, input) && input.psuPlugged && a.timer.elapsed;
      var middle := if clears then SleepLog(0, 0) else Slept(a, log, input.timerSec);
      SwitchAccounts(Await(a, input), middle, input.psuPlugged);
    }
  }

  /** After any run the bias is the number of light sleeps since the time was last cleared, times the period of
      the standby in force, and the total is that plus what the timer had counted at the latest of them. */
  lemma {:induction false} ClockIsSleeps(events: seq<Event>)
    ensures Accounts(Run(events), Log(events))
    decreases |events|
  {
    if events != [] {
      var front := events[..|events| - 1];
      ClockIsSleeps(front);
      AlwaysSafe(front);
      AlwaysSettled(front);
      StepAccounts(Run(front), Log(front), events[|events| - 1]);
    }
  }

  // ---------------------------------------------------------------- power off

  /** The power-off timeout is announced: the charger is not plugged in, automatic power off is enabled, and
      the standby has slept and lasted 15 minutes. */
  predicate AnnouncesPowerOff(s: State, log: SleepLog, e: Event) {
    && e.Iteration? && ChecksBattery(s, e.input)
    && !e.input.psuPlugged && e.input.autoPowerOff
    && var slept := Slept(s, log, e.input.timerSec);
       slept.sleeps > 0 && StandbySec(s.standby, slept) >= TIMEOUT_SEC
  }

  lemma SwitchKeepsNotices(s: State, psuPlugged: bool)
    ensures Switch(s, psuPlugged).powerOffNotices == s.powerOffNotices
  {
    if s.current != s.requested {
      LeaveKeepsNotices(s.(current := s.requested), s.current);
      EnterKeepsNotices(Leave(s.(current := s.requested), s.current), s.current, psuPlugged);
    }
  }

  lemma LeaveKeepsNotices(s: State, mode: Mode)
    ensures Leave(s, mode).powerOffNotices == s.powerOffNotices
  {
  }

  lemma EnterKeepsNotices(s: State, previous: Mode, psuPlugged: bool)
    ensures Enter(s, previous, psuPlugged).powerOffNotices == s.powerOffNotices
  {
  }

  lemma BatteryCheckNotices(s: State, input: Input)
    ensures BatteryCheck(s, input).powerOffNotices == s.powerOffNotices +
            if !input.psuPlugged && input.autoPowerOff && s.clock.totalSec >= TIMEOUT_SEC then 1 else 0
  {
  }

  lemma AwaitNotices(s: State, log: SleepLog, input: Input)
    requires Accounts(s, log)
    ensures Await(s, input).powerOffNotices ==
            s.powerOffNotices + if AnnouncesPowerOff(s, log, Iteration(input)) then 1 else 0
  {
    if RunsStandbyTask(s) {
      SleepAccounts(s, log, input.timerSec);
      SleepKeepsTimer(s, input.timerSec);
      BatteryCheckNotices(SleepIfDue(s, input.timerSec), input);
    }
  }

  lemma AlarmChangesNothingElse(s: State, log: SleepLog, alarm: bool, e: Event)
    requires Accounts(s, log)
    ensures var a := Alarm(s, alarm);
            && Accounts(a, log) && a.powerOffNotices == s.powerOffNotices
            && AnnouncesPowerOff(a, log, e) == AnnouncesPowerOff(s, log, e)
  {
  }

  lemma StepAnnounces(s: State, log: SleepLog, e: Event)
    requires Accounts(s, log)
    ensures Step(s, e).powerOffNotices == s.powerOffNotices + if AnnouncesPowerOff(s, log, e) then 1 else 0
  {
    if e.Iteration? {
      AlarmChangesNothingElse(s, log, e.input.alarm, e);
      AwaitNotices(Alarm(s, e.input.alarm), log, e.input);
      SwitchKeepsNotices(Await(Alarm(s, e.input.alarm), e.input), e.input.psuPlugged);
    }
  }

  /** After any run, one more event announces the timeout to the PIC exactly then, and once. */
  lemma PowerOffAnnouncedIff(events: seq<Event>, e: Event)
    ensures Run(events + [e]).powerOffNotices ==
            Run(events).powerOffNotices + if AnnouncesPowerOff(Run(events), Log(events), e) then 1 else 0
  {
    ClockIsSleeps(events);
    RunLast(events, e);
    StepAnnounces(Run(events), Log(events), e);
  }
}
