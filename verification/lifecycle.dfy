/** How the pieces fit together over a session's life: starting from the
    main screen, the timer service's arming, boot recovery, and the
    deadline boundary on which the three components disagree. */
module Lifecycle {
  import opened Maybe
  import PinHash
  import SM = SessionManager
  import Timer = SessionTimerService
  import Boot = BootReceiver
  import UI = MainActivity

  /** At the deadline itself the access policy still honours the
      allow-list, while both the timer service and boot recovery end the
      session: the policy uses `now > end`, the service `end - now <= 0`
      and the boot receiver resumes only on `now < end`. */
  lemma DeadlineBoundaryMismatch(rec: SM.Record, svc: Timer.Service, packageName: string, now: int)
    requires SM.IsSessionActive(rec) && now == SM.GetSessionEndTime(rec)
    ensures packageName != SM.OwnPackage ==>
      (SM.IsAppAllowed(rec, packageName, now) <==> packageName in rec.allowed)
    ensures Timer.OnStartCommand(rec, svc, now).0.record == SM.EndSession(rec)
    ensures Boot.OnReceive(Some(Boot.ActionBootCompleted), rec, now).record == SM.EndSession(rec)
  {
  }

  /** Boot resumes an active session exactly when the timer service, started
      at the same moment, arms a countdown rather than ending the session. */
  lemma BootResumesIffServiceArms(rec: SM.Record, svc: Timer.Service, now: int)
    requires SM.IsSessionActive(rec)
    ensures Boot.OnReceive(Some(Boot.ActionBootCompleted), rec, now).effect == Boot.ResumeTimer
        <==> Timer.OnStartCommand(rec, svc, now).0.service.countdown.Some?
  {
  }

  /** A session started from the main screen is armed, when the service
      starts at the same moment, for the full entered duration. */
  lemma StartArmsFullDuration(form: UI.StartForm, rec: SM.Record, svc: Timer.Service, now: int,
                              digest: PinHash.Digest)
    requires UI.Validate(form).Success?
    ensures var started := UI.OnStartPressed(form, rec, now, digest).0;
      Timer.OnStartCommand(started, svc, now).0.service.countdown
        == Some(Timer.Countdown(UI.Validate(form).value.durationMillis, Timer.TickIntervalMillis))
  {
  }

  /** A restart part-way through arms the countdown for what is left of
      the session, never for its original length. */
  lemma RearmUsesRemainingTime(rec: SM.Record, apps: seq<string>, durationMillis: int, pin: string,
                               start: int, digest: PinHash.Digest, svc: Timer.Service, now: int)
    requires start <= now < start + durationMillis
    ensures var started := SM.StartSession(rec, apps, durationMillis, pin, start, digest);
      Timer.OnStartCommand(started, svc, now).0.service.countdown
        == Some(Timer.Countdown(durationMillis - (now - start), Timer.TickIntervalMillis))
  {
  }

  /** Ten minutes started at 0 and restarted four minutes in: six minutes left. */
  lemma RearmAfterFourOfTenMinutes(rec: SM.Record, apps: seq<string>, pin: string,
                                   digest: PinHash.Digest, svc: Timer.Service)
    ensures var started := SM.StartSession(rec, apps, 600000, pin, 0, digest);
      Timer.OnStartCommand(started, svc, 240000).0.service.countdown
        == Some(Timer.Countdown(360000, 1000))
  {
    RearmUsesRemainingTime(rec, apps, 600000, pin, 0, digest, svc, 240000);
  }

  /** When the countdown finishes, the session is over: every app is
      allowed again and no PIN is accepted any more. */
  lemma FinishedSessionUnlocksEverything(rec: SM.Record, svc: Timer.Service, packageName: string,
                                         now: int, input: string, digest: PinHash.Digest)
    ensures var after := Timer.OnFinish(rec, svc).record;
      SM.IsAppAllowed(after, packageName, now) && !SM.ValidatePin(after, input, digest)
  {
  }

  /** A one-minute session for "com.maps" started at 0: the allowed app
      runs until the deadline, the launcher is never exempt, and after the
      deadline only the app itself runs until the service ends the session. */
  lemma OneMinuteScenario(digest: PinHash.Digest, svc: Timer.Service)
    ensures var s := SM.StartSession(SM.Empty, ["com.maps"], 60000, "7777", 0, digest);
      && SM.IsAppAllowed(s, "com.maps", 30000)
      && !SM.IsAppAllowed(s, "com.launcher", 30000)
      && SM.IsAppAllowed(s, "com.maps", 60000)
      && !SM.IsAppAllowed(s, "com.maps", 60001)
      && SM.IsAppAllowed(s, "com.timelock", 60001)
      && SM.ValidatePin(s, "7777", digest)
      && !SM.IsSessionActive(Timer.OnStartCommand(s, svc, 60000).0.record)
  {
    var s := SM.StartSession(SM.Empty, ["com.maps"], 60000, "7777", 0, digest);
    assert "com.launcher" != "com.maps" && "com.launcher" != SM.OwnPackage;
    assert "com.maps" != SM.OwnPackage;
    SM.ValidatePinAfterStart(SM.Empty, ["com.maps"], 60000, "7777", 0, digest, "7777");
  }
}
