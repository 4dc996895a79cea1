/** `BootReceiver.onReceive`: after the device boots, resume a session whose
    deadline lies ahead by starting the timer service, or clean up one whose
    deadline passed while the device was off. */
module BootReceiver {
  import opened Maybe
  import SM = SessionManager

  /** `Intent.ACTION_BOOT_COMPLETED`. */
  const ActionBootCompleted: string := "android.intent.action.BOOT_COMPLETED"

  datatype BootEffect =
    | Ignored        // not a boot broadcast
    | NoSession      // booted with no active session
    | ResumeTimer    // the timer service is started
    | CleanedUp      // the elapsed session was ended

  datatype BootOutcome = BootOutcome(effect: BootEffect, record: SM.Record)

  /** `onReceive(context, intent)`; `action` is the intent's (nullable) action. */
  function OnReceive(action: Option<string>, rec: SM.Record, now: int): (r: BootOutcome)
    // Only the boot broadcast does anything, and only `endSession` writes.
    ensures r.record == rec || r.record == SM.EndSession(rec)
    ensures action != Some(ActionBootCompleted) ==> r == BootOutcome(Ignored, rec)
    ensures action == Some(ActionBootCompleted) && !SM.IsSessionActive(rec) ==>
      r == BootOutcome(NoSession, rec)
    // Resume strictly before the deadline, with the record untouched.
    ensures r.effect == ResumeTimer <==>
      action == Some(ActionBootCompleted) && SM.IsSessionActive(rec) && now < SM.GetSessionEndTime(rec)
    ensures r.effect == ResumeTimer ==> r.record == rec
    // At or after the deadline (equality included), end the session.
    ensures r.effect == CleanedUp <==>
      action == Some(ActionBootCompleted) && SM.IsSessionActive(rec) && now >= SM.GetSessionEndTime(rec)
    ensures r.effect == CleanedUp ==> r.record == SM.EndSession(rec) && !SM.IsSessionActive(r.record)
  {
    if action != Some(ActionBootCompleted) then BootOutcome(Ignored, rec)
    else if !SM.IsSessionActive(rec) then BootOutcome(NoSession, rec)
    else if now < SM.GetSessionEndTime(rec) then BootOutcome(ResumeTimer, rec)
    else BootOutcome(CleanedUp, SM.EndSession(rec))
  }

  /** Delivering the boot broadcast twice is the same as once, apart from
      the second delivery finding no session to clean up. */
  lemma OnReceiveSettles(action: Option<string>, rec: SM.Record, now: int)
    ensures OnReceive(action, OnReceive(action, rec, now).record, now).record
         == OnReceive(action, rec, now).record
  {
  }

  /** After boot handling, an active session always has time left. */
  lemma ActiveAfterBootHasTimeLeft(rec: SM.Record, now: int)
    requires SM.IsSessionActive(OnReceive(Some(ActionBootCompleted), rec, now).record)
    ensures now < SM.GetSessionEndTime(OnReceive(Some(ActionBootCompleted), rec, now).record)
    ensures OnReceive(Some(ActionBootCompleted), rec, now).effect == ResumeTimer
  {
  }
}
