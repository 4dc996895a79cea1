/** `SessionManager`: the single persisted session record and the operations
    on it. The SharedPreferences file is one immutable `Record`; each
    `edit().apply()` is one atomic record update; the clock is the `now`
    parameter (epoch milliseconds) and the PIN digest is the `digest`
    parameter. */
module SessionManager {
  import opened Maybe
  import PinHash

  /** The package the policy always lets through (the app itself). */
  const OwnPackage: string := "com.timelock"

  /** The five preference keys. An absent `Long` or `String` key is `None`;
      an absent boolean reads as `false` and an absent string set as the
      empty set, and no reader can tell those apart from stored defaults,
      so they are stored as plain values. */
  datatype Record = Record(
    active: bool,              // session_active
    endTime: Option<int>,      // session_end_time
    allowed: set<string>,      // allowed_apps
    pinHash: Option<string>,   // pin_hash
    lastDuration: Option<int>  // last_duration
  )

  /** The preferences of a fresh install: no key present. */
  const Empty: Record := Record(false, None, {}, None, None)

  /** `isSessionActive()`: the stored flag, `false` when absent. */
  function IsSessionActive(rec: Record): (b: bool)
    ensures b <==> rec.active
    ensures rec == Empty ==> !b
  {
    rec.active
  }

  /** `getSessionEndTime()`: the stored deadline, 0 when absent. */
  function GetSessionEndTime(rec: Record): (t: int)
    ensures rec.endTime.None? ==> t == 0
    ensures rec.endTime.Some? ==> t == rec.endTime.value
  {
    rec.endTime.GetOr(0)
  }

  /** `getLastDuration()`: the stored duration, 0 when absent. */
  function GetLastDuration(rec: Record): (d: int)
    ensures rec.lastDuration.None? ==> d == 0
    ensures rec.lastDuration.Some? ==> d == rec.lastDuration.value
  {
    rec.lastDuration.GetOr(0)
  }

  /** `startSession(allowedApps, durationMillis, pin)` at time `now`. All five
      keys are written, so nothing of the previous record survives. */
  function StartSession(rec: Record, allowedApps: seq<string>, durationMillis: int, pin: string,
                        now: int, digest: PinHash.Digest): (r: Record)
    ensures r.active
    ensures GetSessionEndTime(r) == now + durationMillis
    ensures forall p :: p in r.allowed <==> p in allowedApps
    ensures r.pinHash == Some(PinHash.HashPin(digest, pin))
    ensures GetLastDuration(r) == durationMillis
  {
    Record(true, Some(now + durationMillis), (set p | p in allowedApps), Some(PinHash.HashPin(digest, pin)),
           Some(durationMillis))
  }

  /** `endSession()`: clears the flag and removes the deadline, the
      allow-list and the PIN hash; the last duration is kept. */
  function EndSession(rec: Record): (r: Record)
    ensures !IsSessionActive(r)
    ensures r.endTime.None? && r.allowed == {} && r.pinHash.None?
    ensures r.lastDuration == rec.lastDuration
  {
    Record(false, None, {}, None, rec.lastDuration)
  }

  /** `isAppAllowed(packageName)` at time `now`. */
  function IsAppAllowed(rec: Record, packageName: string, now: int): (b: bool)
    ensures packageName == OwnPackage ==> b
    ensures !IsSessionActive(rec) ==> b
    ensures IsSessionActive(rec) && packageName != OwnPackage ==>
      (b <==> now <= GetSessionEndTime(rec) && packageName in rec.allowed)
  {
    if packageName == OwnPackage then true
    else if !IsSessionActive(rec) then true
    else if now > GetSessionEndTime(rec) then false
    else packageName in rec.allowed
  }

  /** `validatePin(inputPin)`: false when no hash is stored, otherwise
      whether the input hashes to the stored string. */
  function ValidatePin(rec: Record, inputPin: string, digest: PinHash.Digest): (b: bool)
    ensures b ==> rec.pinHash.Some?
  {
    match rec.pinHash
    case None => false
    case Some(stored) => PinHash.HashPin(digest, inputPin) == stored
  }

  // ---------------------------------------------------------------------
  // Properties of the access decision
  // ---------------------------------------------------------------------

  lemma OwnPackageAlwaysAllowed(rec: Record, now: int)
    ensures IsAppAllowed(rec, OwnPackage, now)
  {
  }

  lemma IdleAllowsEverything(rec: Record, packageName: string, now: int)
    requires !IsSessionActive(rec)
    ensures IsAppAllowed(rec, packageName, now)
  {
  }

  /** Past the deadline, only the app itself gets through. */
  lemma PastDeadlineBlocksOthers(rec: Record, packageName: string, now: int)
    requires IsSessionActive(rec) && now > GetSessionEndTime(rec)
    ensures IsAppAllowed(rec, packageName, now) <==> packageName == OwnPackage
  {
  }

  /** An active record without a deadline reads as deadline 0, so every
      other package is blocked at any positive time. */
  lemma MissingDeadlineBlocksOthers(rec: Record, packageName: string, now: int)
    requires IsSessionActive(rec) && rec.endTime.None? && now > 0
    ensures IsAppAllowed(rec, packageName, now) <==> packageName == OwnPackage
  {
  }

  /** Up to and including the deadline, the allow-list decides. */
  lemma WithinDeadlineAllowListDecides(rec: Record, packageName: string, now: int)
    requires IsSessionActive(rec) && now <= GetSessionEndTime(rec) && packageName != OwnPackage
    ensures IsAppAllowed(rec, packageName, now) <==> packageName in rec.allowed
  {
  }

  /** Once a package is blocked it stays blocked as the clock advances, as
      long as the record does not change. */
  lemma BlockingPersistsOverTime(rec: Record, packageName: string, now: int, later: int)
    requires now <= later && !IsAppAllowed(rec, packageName, now)
    ensures !IsAppAllowed(rec, packageName, later)
  {
  }

  /** During a freshly started session of positive length, exactly the
      chosen apps and the app itself are allowed, up to the deadline. */
  lemma AllowedDuringSession(rec: Record, apps: seq<string>, durationMillis: int, pin: string,
                             start: int, digest: PinHash.Digest, packageName: string, now: int)
    requires start <= now <= start + durationMillis
    ensures IsAppAllowed(StartSession(rec, apps, durationMillis, pin, start, digest), packageName, now)
        <==> packageName in apps || packageName == OwnPackage
  {
  }

  /** After `endSession` every package is allowed again. */
  lemma EndedAllowsEverything(rec: Record, packageName: string, now: int)
    ensures IsAppAllowed(EndSession(rec), packageName, now)
  {
  }

  // ---------------------------------------------------------------------
  // Properties of the PIN check and of the transitions
  // ---------------------------------------------------------------------

  /** The PIN a session was started with unlocks it, and another PIN
      unlocks it exactly when its digest collides with the original's. */
  lemma ValidatePinAfterStart(rec: Record, apps: seq<string>, durationMillis: int, pin: string,
                              now: int, digest: PinHash.Digest, input: string)
    ensures ValidatePin(StartSession(rec, apps, durationMillis, pin, now, digest), pin, digest)
    ensures ValidatePin(StartSession(rec, apps, durationMillis, pin, now, digest), input, digest)
        <==> digest(input) == digest(pin)
  {
    PinHash.HashPinEqualIff(digest, input, pin);
  }

  /** With no stored hash (for instance after `endSession`) no PIN is accepted. */
  lemma NoStoredHashRejectsEveryPin(rec: Record, input: string, digest: PinHash.Digest)
    requires rec.pinHash.None?
    ensures !ValidatePin(rec, input, digest)
  {
  }

  lemma EndedRejectsEveryPin(rec: Record, input: string, digest: PinHash.Digest)
    ensures !ValidatePin(EndSession(rec), input, digest)
  {
  }

  /** `startSession` overwrites every key: the previous record is irrelevant. */
  lemma StartSessionForgetsPrevious(a: Record, b: Record, apps: seq<string>, durationMillis: int,
                                    pin: string, now: int, digest: PinHash.Digest)
    ensures StartSession(a, apps, durationMillis, pin, now, digest)
         == StartSession(b, apps, durationMillis, pin, now, digest)
  {
  }

  /** The allow-list is a set: reordering or repeating apps changes nothing. */
  lemma StartSessionIgnoresOrderAndDuplicates(rec: Record, apps1: seq<string>, apps2: seq<string>,
                                              durationMillis: int, pin: string, now: int,
                                              digest: PinHash.Digest)
    requires forall p :: p in apps1 <==> p in apps2
    ensures StartSession(rec, apps1, durationMillis, pin, now, digest)
         == StartSession(rec, apps2, durationMillis, pin, now, digest)
  {
    assert (set p | p in apps1) == (set p | p in apps2);
  }

  /** Ending twice is the same as ending once. */
  lemma EndSessionIdempotent(rec: Record)
    ensures EndSession(EndSession(rec)) == EndSession(rec)
  {
  }

  /** Ending a started session keeps its duration for the next start. */
  lemma EndAfterStartKeepsDuration(rec: Record, apps: seq<string>, durationMillis: int, pin: string,
                                   now: int, digest: PinHash.Digest)
    ensures GetLastDuration(EndSession(StartSession(rec, apps, durationMillis, pin, now, digest)))
         == durationMillis
  {
  }
}
