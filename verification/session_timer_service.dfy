/** `SessionTimerService`: the decision taken when the service is started,
    the countdown it arms, what happens when the countdown finishes, and the
    notification arithmetic on each tick. Tick scheduling and notification
    rendering are not modelled; stopping the service is modelled by its
    effect in `onDestroy`, which cancels the countdown. The countdowns that
    are running are kept apart from the field that refers to one of them,
    so that the cancel before each arm is part of the model. */
module SessionTimerService {
  import opened Maybe
  import Kotlin
  import SM = SessionManager

  const MillisPerMinute: int := 60000
  /** The countdown's tick interval. */
  const TickIntervalMillis: int := 1000

  /** A `CountDownTimer(millisInFuture, countDownInterval)`. */
  datatype Countdown = Countdown(millisInFuture: int, interval: int)

  /** The service's state: the `countdownTimer` field, the countdowns that
      are actually running (a countdown keeps running after the field is
      overwritten unless it was cancelled), and whether the service is
      running in the foreground. */
  datatype Service = Service(countdown: Option<Countdown>, live: multiset<Countdown>,
                             running: bool, foreground: bool)

  /** What `onStartCommand` returns to the system. */
  datatype StartMode = NotSticky | Sticky

  /** The outcome of one callback: the new record, the new service state,
      and whether `ACTION_SESSION_ENDED` was broadcast. */
  datatype Step = Step(record: SM.Record, service: Service, sessionEndedBroadcast: bool)

  /** A service that has not armed anything yet. */
  const Idle: Service := Service(None, multiset{}, false, false)

  /** The countdown the field refers to, if any. */
  function FieldCountdown(field: Option<Countdown>): (m: multiset<Countdown>)
    ensures |m| <= 1
    ensures field.Some? ==> field.value in m
  {
    if field.Some? then multiset{field.value} else multiset{}
  }

  /** The only running countdown is the one the field refers to. */
  predicate OnlyFieldCountdownRuns(svc: Service) {
    svc.live == FieldCountdown(svc.countdown)
  }

  /** While the invariant holds at most one countdown is running, so at most
      one `onFinish` can still arrive. */
  lemma AtMostOneCountdownRuns(svc: Service)
    requires OnlyFieldCountdownRuns(svc)
    ensures |svc.live| <= 1
  {
  }

  /** A second `startForegroundService` that reaches the instance while it
      is still alive never leaves two countdowns running: the second arm
      cancels the first. (A sticky restart after the process is killed
      reaches a new instance, which starts from `Idle`.) */
  lemma RestartKeepsOneCountdown(rec: SM.Record, firstStart: int, secondStart: int)
    ensures var first := OnStartCommand(rec, Idle, firstStart).0.service;
      |OnStartCommand(rec, first, secondStart).0.service.live| <= 1
  {
  }

  /** `countdownTimer?.cancel()`: the field's countdown stops running. */
  function Cancelled(svc: Service): (s: Service)
    ensures s.countdown == svc.countdown && s.live <= svc.live
    ensures svc.countdown.Some? && svc.countdown.value in svc.live ==>
      s.live[svc.countdown.value] == svc.live[svc.countdown.value] - 1
    ensures OnlyFieldCountdownRuns(svc) ==> s.live == multiset{}
  {
    svc.(live := svc.live - FieldCountdown(svc.countdown))
  }

  /** `stopSelf()`, whose `onDestroy` cancels the countdown; the field goes
      with the destroyed instance. */
  function Stopped(svc: Service): (s: Service)
    ensures s.countdown.None? && !s.running && !s.foreground
    ensures s.live <= svc.live
    ensures OnlyFieldCountdownRuns(svc) ==> OnlyFieldCountdownRuns(s) && s.live == multiset{}
  {
    Service(None, Cancelled(svc).live, false, false)
  }

  /** `startTimer(durationMillis)`: cancel the field's countdown, then arm a
      new one and store it in the field. */
  function StartTimer(svc: Service, durationMillis: int): (s: Service)
    ensures s.countdown == Some(Countdown(durationMillis, TickIntervalMillis))
    ensures s.running == svc.running && s.foreground == svc.foreground
    // Nothing but the new countdown starts running.
    ensures forall c :: c != Countdown(durationMillis, TickIntervalMillis) ==> s.live[c] <= svc.live[c]
    // Arming keeps exactly one countdown running: the new one.
    ensures OnlyFieldCountdownRuns(svc) ==>
      OnlyFieldCountdownRuns(s) && s.live == multiset{Countdown(durationMillis, TickIntervalMillis)}
  {
    var armed := Countdown(durationMillis, TickIntervalMillis);
    Cancelled(svc).(countdown := Some(armed), live := Cancelled(svc).live + multiset{armed})
  }

  /** `onSessionFinished()`: end the session, broadcast, leave the
      foreground and stop. */
  function OnSessionFinished(rec: SM.Record, svc: Service): (st: Step)
    ensures st.record == SM.EndSession(rec)
    ensures !SM.IsSessionActive(st.record)
    ensures st.service.countdown.None? && !st.service.running
    ensures OnlyFieldCountdownRuns(svc) ==> st.service.live == multiset{}
    ensures st.sessionEndedBroadcast
  {
    Step(SM.EndSession(rec), Stopped(svc), true)
  }

  /** Remaining time as the service computes it: the stored deadline (0
      when absent) minus now, whatever the session's original length. */
  function Remaining(rec: SM.Record, now: int): (r: int)
    ensures r > 0 <==> now < SM.GetSessionEndTime(rec)
    ensures rec.endTime.None? ==> r == -now
    ensures rec.endTime.Some? ==> now + r == rec.endTime.value
  {
    SM.GetSessionEndTime(rec) - now
  }

  /** `onStartCommand`. */
  function OnStartCommand(rec: SM.Record, svc: Service, now: int): (r: (Step, StartMode))
    // No session: stop, arm nothing, touch nothing.
    ensures !SM.IsSessionActive(rec) ==>
      r.0.record == rec && r.0.service.countdown.None? && !r.0.service.running
      && !r.0.sessionEndedBroadcast && r.1 == NotSticky
    // Deadline reached or passed: end the session at once, arm nothing.
    ensures SM.IsSessionActive(rec) && SM.GetSessionEndTime(rec) <= now ==>
      r.0.record == SM.EndSession(rec) && r.0.service.countdown.None?
      && r.0.sessionEndedBroadcast && r.1 == NotSticky
    // Time left: arm one countdown for exactly what is left, record untouched.
    ensures SM.IsSessionActive(rec) && now < SM.GetSessionEndTime(rec) ==>
      r.0.record == rec && r.0.service.running && r.0.service.foreground
      && r.0.service.countdown == Some(Countdown(SM.GetSessionEndTime(rec) - now, TickIntervalMillis))
      && !r.0.sessionEndedBroadcast && r.1 == Sticky
    // A countdown is pending afterwards only when it runs for a positive time.
    ensures r.0.service.countdown.Some? ==> r.0.service.countdown.value.millisInFuture > 0
    // Starting the service never leaves a second countdown running.
    ensures OnlyFieldCountdownRuns(svc) ==> OnlyFieldCountdownRuns(r.0.service)
    ensures OnlyFieldCountdownRuns(svc) && r.0.service.countdown.None? ==> r.0.service.live == multiset{}
  {
    if !SM.IsSessionActive(rec) then
      (Step(rec, Stopped(svc), false), NotSticky)
    else
      var remaining := Remaining(rec, now);
      if remaining <= 0 then
        (OnSessionFinished(rec, svc), NotSticky)
      else
        var foreground := svc.(running := true, foreground := true);
        (Step(rec, StartTimer(foreground, remaining), false), Sticky)
  }

  /** The field's countdown fires `onFinish`. It stops running by finishing,
      which the model records as the removal `onDestroy`'s cancel would make;
      the cancel of an already finished countdown has no further effect. */
  function OnFinish(rec: SM.Record, svc: Service): (st: Step)
    ensures !SM.IsSessionActive(st.record)
    ensures st.record.lastDuration == rec.lastDuration
    ensures st.service.countdown.None?
    ensures OnlyFieldCountdownRuns(svc) ==> st.service.live == multiset{}
  {
    OnSessionFinished(rec, svc)
  }

  /** Minutes shown in the notification: `millisUntilFinished / 60000`. */
  function MinutesLeft(millisUntilFinished: int): (m: int)
    ensures 0 <= millisUntilFinished ==>
      0 <= m && m * MillisPerMinute <= millisUntilFinished < (m + 1) * MillisPerMinute
    ensures millisUntilFinished < 0 ==> m <= 0
  {
    Kotlin.TruncDiv(millisUntilFinished, MillisPerMinute)
  }

  /** `onTick`: whether the notification is refreshed. */
  function ShouldUpdateNotification(millisUntilFinished: int): (b: bool)
    ensures millisUntilFinished < 0 ==> b
  {
    Kotlin.TruncRem(millisUntilFinished, MillisPerMinute) < 1000
  }

  /** For a non-negative remaining time a tick refreshes the notification
      exactly in the first second of each whole minute. */
  lemma ShouldUpdateIffNearWholeMinute(millisUntilFinished: int)
    requires 0 <= millisUntilFinished
    ensures ShouldUpdateNotification(millisUntilFinished) <==>
      exists k: nat {:trigger k * MillisPerMinute} ::
        k * MillisPerMinute <= millisUntilFinished < k * MillisPerMinute + 1000
  {
    var k := MinutesLeft(millisUntilFinished);
    if ShouldUpdateNotification(millisUntilFinished) {
      assert k * MillisPerMinute <= millisUntilFinished < k * MillisPerMinute + 1000;
    } else {
      forall j: nat | j * MillisPerMinute <= millisUntilFinished
        ensures !(millisUntilFinished < j * MillisPerMinute + 1000)
      {
        if j < k {
          assert j * MillisPerMinute <= (k - 1) * MillisPerMinute;
        }
      }
    }
  }

  /** On a refreshing tick, the minutes shown are the exact remaining time
      rounded down, off by less than a second. */
  lemma RefreshedMinutesAreAccurate(millisUntilFinished: int)
    requires 0 <= millisUntilFinished && ShouldUpdateNotification(millisUntilFinished)
    ensures 0 <= millisUntilFinished - MinutesLeft(millisUntilFinished) * MillisPerMinute < 1000
  {
  }
}
