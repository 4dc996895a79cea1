/** `MainActivity.startSession`: the checks applied, in order, to what the
    user entered before a session is started, and the conversion of the
    entered minutes to milliseconds. Permission probing is reduced to the
    boolean `permissionsGranted` (the permission panel is hidden exactly
    when both permissions are granted). */
module MainActivity {
  import opened Maybe
  import Kotlin
  import PinHash
  import SM = SessionManager

  const MinPinLength: nat := 4

  /** What the screen holds when Start is pressed. `selection` is `None`
      while the app list is still loading and the adapter is not yet set. */
  datatype StartForm = StartForm(
    permissionsGranted: bool,
    durationText: string,
    pin: string,
    selection: Option<seq<string>>
  )

  /** Why a start request was turned down (each shows a toast), or, for
      `AdapterNotReady`, the uninitialized-property exception thrown when the
      selection is read before the adapter exists. */
  datatype Rejection =
    | PermissionsMissing
    | AdapterNotReady
    | MissingDurationOrPin
    | PinTooShort
    | InvalidDuration
    | NoAppSelected

  /** The arguments handed to `SessionManager.startSession`. */
  datatype StartRequest = StartRequest(apps: seq<string>, durationMillis: int, pin: string)

  /** The entered duration in minutes: an unparsable entry counts as 0. */
  function DurationMinutes(text: string): (m: int)
    ensures Kotlin.InLongRange(m)
    ensures Kotlin.ToLongOrNull(text).None? ==> m == 0
    ensures Kotlin.ToLongOrNull(text).Some? ==> m == Kotlin.ToLongOrNull(text).value
  {
    Kotlin.ToLongOrNull(text).GetOr(0)
  }

  /** The checks of `startSession`, in source order. */
  function Validate(form: StartForm): (r: Result<StartRequest, Rejection>)
    ensures r == Failure(PermissionsMissing) <==> !form.permissionsGranted
    ensures r == Failure(AdapterNotReady) <==> form.permissionsGranted && form.selection.None?
    ensures r == Failure(MissingDurationOrPin) <==>
      form.permissionsGranted && form.selection.Some? && (|form.durationText| == 0 || |form.pin| == 0)
    ensures r == Failure(PinTooShort) <==>
      form.permissionsGranted && form.selection.Some? && |form.durationText| > 0
      && 0 < |form.pin| < MinPinLength
    ensures r == Failure(InvalidDuration) <==>
      form.permissionsGranted && form.selection.Some? && |form.durationText| > 0
      && |form.pin| >= MinPinLength && DurationMinutes(form.durationText) <= 0
    ensures r == Failure(NoAppSelected) <==>
      form.permissionsGranted && form.selection.Some? && |form.durationText| > 0
      && |form.pin| >= MinPinLength && DurationMinutes(form.durationText) > 0
      && |form.selection.value| == 0
    ensures r.Success? ==>
      && form.permissionsGranted && form.selection.Some?
      && r.value.apps == form.selection.value && |r.value.apps| > 0
      && r.value.pin == form.pin && |r.value.pin| >= MinPinLength
      && Kotlin.ToLongOrNull(form.durationText).Some?
      && r.value.durationMillis == Kotlin.ToLongOrNull(form.durationText).value * 60 * 1000
      && r.value.durationMillis >= 60000
  {
    if !form.permissionsGranted then Failure(PermissionsMissing)
    else if form.selection.None? then Failure(AdapterNotReady)
    else if |form.durationText| == 0 || |form.pin| == 0 then Failure(MissingDurationOrPin)
    else if |form.pin| < MinPinLength then Failure(PinTooShort)
    else
      var minutes := DurationMinutes(form.durationText);
      if minutes <= 0 then Failure(InvalidDuration)
      else if |form.selection.value| == 0 then Failure(NoAppSelected)
      else Success(StartRequest(form.selection.value, minutes * 60 * 1000, form.pin))
  }

  /** Pressing Start: on success the session is started and the timer
      service launched; on any rejection the record is left as it was. */
  function OnStartPressed(form: StartForm, rec: SM.Record, now: int, digest: PinHash.Digest)
    : (r: (SM.Record, bool))
    ensures !r.1 ==> r.0 == rec
    ensures r.1 <==> Validate(form).Success?
    ensures r.1 ==>
      var req := Validate(form).value;
      r.0 == SM.StartSession(rec, req.apps, req.durationMillis, req.pin, now, digest)
      && SM.IsSessionActive(r.0)
      && SM.GetSessionEndTime(r.0) > now
      && SM.ValidatePin(r.0, form.pin, digest)
  {
    match Validate(form)
    case Failure(_) => (rec, false)
    case Success(req) =>
      SM.ValidatePinAfterStart(rec, req.apps, req.durationMillis, req.pin, now, digest, req.pin);
      (SM.StartSession(rec, req.apps, req.durationMillis, req.pin, now, digest), true)
  }

  /** The most minutes whose milliseconds still fit in a `Long`. */
  const MaxMinutesWithoutOverflow: int := Kotlin.LongMax / 60000

  /** Entering N minutes, for any positive N up to the `Long` limit of the
      conversion, is accepted (given the other fields are fine) and yields N
      whole minutes in milliseconds, which fit in a `Long`. This holds for
      every spelling `toLongOrNull` accepts for N: with or without a leading
      `+`, and with any number of leading zeros. */
  lemma EnteredMinutesAccepted(sign: Kotlin.Sign, zeros: nat, n: int, pin: string, apps: seq<string>)
    requires sign != Kotlin.Minus
    requires 0 < n <= MaxMinutesWithoutOverflow
    requires |pin| >= MinPinLength && |apps| > 0
    ensures Validate(StartForm(true, Kotlin.PaddedRendering(sign, zeros, n), pin, Some(apps)))
         == Success(StartRequest(apps, n * 60000, pin))
    ensures Kotlin.InLongRange(n * 60000)
  {
    Kotlin.ToLongOrNullPadded(sign, zeros, n);
  }

  /** "05" is five minutes. */
  lemma ZeroPaddedMinutesAccepted(pin: string, apps: seq<string>)
    requires |pin| >= MinPinLength && |apps| > 0
    ensures Validate(StartForm(true, "05", pin, Some(apps))) == Success(StartRequest(apps, 300000, pin))
  {
    assert Kotlin.PaddedRendering(Kotlin.NoSign, 1, 5) == "05";
    EnteredMinutesAccepted(Kotlin.NoSign, 1, 5, pin, apps);
  }

  /** A duration that is not a number, such as "ten", is rejected. */
  lemma NonNumericDurationRejected(pin: string, apps: seq<string>)
    requires |pin| >= MinPinLength
    ensures Validate(StartForm(true, "ten", pin, Some(apps))) == Failure(InvalidDuration)
  {
    assert !Kotlin.IsDigit("ten"[0]);
  }
}
