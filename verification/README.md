# TimeLock session lock engine, in Dafny

TimeLock is an Android app for self-imposed lockdowns: the user picks a time
budget, a set of allowed apps and a PIN, and until the time runs out (or the
PIN is entered) only the allowed apps and TimeLock itself may come to the
foreground. This project models the engine behind that:

- `SessionManager` (`session_manager.dfy`): the persisted session record
  (the five SharedPreferences keys) as one immutable `Record`; `startSession`,
  `endSession`, `isSessionActive`, the getters with their defaults,
  `validatePin`, and the access decision `isAppAllowed`.
- `PinHash` (`pin_hash.dfy`): `hashPin`'s rendering of the digest's signed
  bytes as lowercase `%02x` hex, with an inverse parser proving the rendering
  injective. SHA-256 is an uninterpreted parameter.
- `SessionTimerService` (`session_timer_service.dfy`): the `onStartCommand`
  decision (stop, end now, or arm for the remaining time), `startTimer`,
  `onFinish`/`onSessionFinished`, the `onTick` refresh test and the minutes
  shown in the notification.
- `BootReceiver` (`boot_receiver.dfy`): resume or clean up after a reboot.
- `MainActivity` (`main_activity.dfy`): the ordered checks before a session
  starts and the minutes-to-milliseconds conversion. The selection is read
  from the adapter before any input is checked; when the app list has not
  finished loading, that read throws (the adapter is a `lateinit` property),
  which the model reports as the `AdapterNotReady` outcome.
- `AppListAdapter` (`app_list_adapter.dfy`): the selection set (an
  insertion-ordered set), the per-app duration entries, and the search filter
  with its stable sort by label.
- `Kotlin` (`kotlin.dfy`): the standard-library behaviour the above relies
  on: `toLongOrNull`, truncating `/` and `%`, `String.compareTo`, and
  `contains(…, ignoreCase = true)` over an abstract character fold.
- `Lifecycle` (`lifecycle.dfy`): properties across components, including the
  deadline boundary on which the three components disagree.
- `Maybe` (`maybe.dfy`): `Option` and `Result`.

The clock is a `now` parameter (epoch milliseconds) everywhere. The PIN
digest (`toByteArray` then SHA-256) is a `Digest` function parameter about
which nothing is assumed. Labels are a function `labelOf: App -> string` and
case folding a function `fold: char -> char`.

Expiry is derived from the clock with a strict `now > endTime`; nothing in
the record marks a session as expired. The own package is the literal
`"com.timelock"`, and no other package (the launcher included) is exempt. A
finished countdown calls `endSession`. `startSession` validates nothing of
its own; the main screen's checks come before it.

## Model

| member | source | states |
|---|---|---|
| Kotlin.ToLongOrNull | app/src/main/java/com/timelock/ui/MainActivity.kt:161 | a parsed value fits in a Long, comes from a sign-optional digit string, and is negative only with a leading `-` |
| Kotlin.ToLongOrNullRoundTrip | app/src/main/java/com/timelock/ui/MainActivity.kt:161 | parsing the decimal rendering of any Long gives it back |
| Kotlin.ToLongOrNullPadded | app/src/main/java/com/timelock/ui/MainActivity.kt:161 | an optional `+` or `-`, any number of leading zeros and a decimal magnitude parse to the signed magnitude when it fits in a Long, and to null otherwise ("+05" is 5, "-0" is 0) |
| Kotlin.ToLongOrNullAcceptsOnlyPadded | app/src/main/java/com/timelock/ui/MainActivity.kt:161 | conversely, every string that parses is such a spelling of the value returned, so the two lemmas fix the result on every input |
| Kotlin.TruncDiv | app/src/main/java/com/timelock/service/SessionTimerService.kt:94 | Long division rounds toward zero: bounds on both sides for either sign of the dividend |
| Kotlin.TruncRem | app/src/main/java/com/timelock/service/SessionTimerService.kt:63 | Long remainder satisfies `a == q*b + r` and takes the sign of the dividend |
| Kotlin.IndexOfIgnoringCase | app/src/main/java/com/timelock/ui/AppListAdapter.kt:127 | the search from an index finds the first matching position at or after it, or reports that none exists |
| Kotlin.LexLe | app/src/main/java/com/timelock/ui/AppListAdapter.kt:123 | `compareTo(..) <= 0`: a prefix comes first and a non-empty string never precedes the empty one |
| Kotlin.LexLeFirstDifference | app/src/main/java/com/timelock/ui/AppListAdapter.kt:123 | past a common prefix, the first differing character decides the order |
| Kotlin.ContainsIgnoringCase | app/src/main/java/com/timelock/ui/AppListAdapter.kt:127 | the index search succeeds iff the query occurs at some position of the label under the character fold |
| PinHash.Unsigned | app/src/main/java/com/timelock/core/SessionManager.kt:81 | `%x` formats a signed byte as a value below 256 congruent to it |
| PinHash.FormatByte | app/src/main/java/com/timelock/core/SessionManager.kt:81 | each byte renders as exactly two lowercase hex characters |
| PinHash.ToHex | app/src/main/java/com/timelock/core/SessionManager.kt:81 | the fold yields twice as many characters as bytes, all lowercase hex |
| PinHash.HashPin | app/src/main/java/com/timelock/core/SessionManager.kt:77-82 | the stored hash is twice as long as the digest and lowercase hex |
| PinHash.ParseHexToHex | app/src/main/java/com/timelock/core/SessionManager.kt:81 | reading the hex back recovers the digest bytes exactly |
| PinHash.ToHexInjective | app/src/main/java/com/timelock/core/SessionManager.kt:81 | different digests never render to the same string |
| PinHash.HashPinEqualIff | app/src/main/java/com/timelock/core/SessionManager.kt:64-66 | two PINs hash equal iff their digests are equal |
| SessionManager.IsSessionActive | app/src/main/java/com/timelock/core/SessionManager.kt:45-47 | the stored flag alone decides, whatever the deadline, allow-list or hash; a fresh install has no active session |
| SessionManager.GetSessionEndTime | app/src/main/java/com/timelock/core/SessionManager.kt:69-71 | the stored deadline, or 0 when none is stored |
| SessionManager.GetLastDuration | app/src/main/java/com/timelock/core/SessionManager.kt:73-75 | the stored last duration, or 0 when none is stored |
| SessionManager.StartSession | app/src/main/java/com/timelock/core/SessionManager.kt:21-33 | active, deadline `now + duration`, allow-list exactly the given apps, hash of the PIN, last duration recorded |
| SessionManager.EndSession | app/src/main/java/com/timelock/core/SessionManager.kt:35-43 | inactive, deadline, allow-list and hash removed, last duration unchanged |
| SessionManager.IsAppAllowed | app/src/main/java/com/timelock/core/SessionManager.kt:49-62 | own package and idle records always allow; otherwise allowed iff not past the deadline and in the allow-list |
| SessionManager.ValidatePin | app/src/main/java/com/timelock/core/SessionManager.kt:64-67 | a PIN can only be accepted when a hash is stored |
| SessionManager.OwnPackageAlwaysAllowed | app/src/main/java/com/timelock/core/SessionManager.kt:51 | `"com.timelock"` is allowed for every record and time |
| SessionManager.IdleAllowsEverything | app/src/main/java/com/timelock/core/SessionManager.kt:53 | with no active session every package is allowed |
| SessionManager.PastDeadlineBlocksOthers | app/src/main/java/com/timelock/core/SessionManager.kt:56-58 | active and strictly past the deadline: allowed iff own package |
| SessionManager.MissingDeadlineBlocksOthers | app/src/main/java/com/timelock/core/SessionManager.kt:69-71 | active with no stored deadline and positive time: allowed iff own package |
| SessionManager.WithinDeadlineAllowListDecides | app/src/main/java/com/timelock/core/SessionManager.kt:60-61 | active and not past the deadline: another package is allowed iff in the allow-list |
| SessionManager.BlockingPersistsOverTime | app/src/main/java/com/timelock/core/SessionManager.kt:56-61 | for a fixed record, a blocked package stays blocked at every later time |
| SessionManager.AllowedDuringSession | app/src/main/java/com/timelock/core/SessionManager.kt:49-62 | from start to deadline inclusive, exactly the chosen apps and the own package are allowed |
| SessionManager.EndedAllowsEverything | app/src/main/java/com/timelock/core/SessionManager.kt:35-43 | after ending, every package is allowed |
| SessionManager.ValidatePinAfterStart | app/src/main/java/com/timelock/core/SessionManager.kt:64-66 | the starting PIN validates; another PIN validates iff its digest collides |
| SessionManager.NoStoredHashRejectsEveryPin | app/src/main/java/com/timelock/core/SessionManager.kt:65 | with no stored hash every PIN is rejected |
| SessionManager.EndedRejectsEveryPin | app/src/main/java/com/timelock/core/SessionManager.kt:38-40 | after ending, every PIN is rejected |
| SessionManager.StartSessionForgetsPrevious | app/src/main/java/com/timelock/core/SessionManager.kt:25-31 | all five keys are written, so the result does not depend on the previous record |
| SessionManager.StartSessionIgnoresOrderAndDuplicates | app/src/main/java/com/timelock/core/SessionManager.kt:28 | app lists with the same members give the same record |
| SessionManager.EndSessionIdempotent | app/src/main/java/com/timelock/core/SessionManager.kt:35-43 | ending twice equals ending once |
| SessionManager.EndAfterStartKeepsDuration | app/src/main/java/com/timelock/core/SessionManager.kt:30 | the last duration survives the end of the session |
| SessionTimerService.AtMostOneCountdownRuns | app/src/main/java/com/timelock/service/SessionTimerService.kt:26 | while only the field's countdown runs, at most one countdown runs |
| SessionTimerService.Cancelled | app/src/main/java/com/timelock/service/SessionTimerService.kt:58 | `cancel` stops exactly one running instance of the field's countdown and starts nothing |
| SessionTimerService.Stopped | app/src/main/java/com/timelock/service/SessionTimerService.kt:116-118 | a stopped service has no field and starts nothing; under the invariant no countdown runs |
| SessionTimerService.StartTimer | app/src/main/java/com/timelock/service/SessionTimerService.kt:57-72 | the field holds a new countdown of the given length with 1000 ms ticks, nothing else starts, and under the invariant the new countdown is the only one running |
| SessionTimerService.RestartKeepsOneCountdown | app/src/main/java/com/timelock/service/SessionTimerService.kt:37-58 | delivering the start command twice leaves at most one countdown running |
| SessionTimerService.Remaining | app/src/main/java/com/timelock/service/SessionTimerService.kt:43-44 | time is left iff now is before the stored deadline; with no deadline it is `-now` |
| SessionTimerService.OnSessionFinished | app/src/main/java/com/timelock/service/SessionTimerService.kt:74-79 | the session is ended, the end is broadcast and the countdown is gone |
| SessionTimerService.OnStartCommand | app/src/main/java/com/timelock/service/SessionTimerService.kt:37-55 | no session: stop untouched; deadline reached: end now; otherwise arm exactly `end - now`, record untouched; any pending countdown is positive; never a second running countdown |
| SessionTimerService.OnFinish | app/src/main/java/com/timelock/service/SessionTimerService.kt:68-70 | when the countdown finishes the session is no longer active |
| SessionTimerService.MinutesLeft | app/src/main/java/com/timelock/service/SessionTimerService.kt:94 | whole minutes left, rounded down for non-negative times |
| SessionTimerService.ShouldUpdateNotification | app/src/main/java/com/timelock/service/SessionTimerService.kt:63 | negative remainders always refresh (truncating `%`) |
| SessionTimerService.ShouldUpdateIffNearWholeMinute | app/src/main/java/com/timelock/service/SessionTimerService.kt:63 | a tick refreshes iff it falls in the first second of a whole minute |
| SessionTimerService.RefreshedMinutesAreAccurate | app/src/main/java/com/timelock/service/SessionTimerService.kt:60-66 | on a refreshing tick the minutes shown are off by less than a second |
| BootReceiver.OnReceive | app/src/main/java/com/timelock/receiver/BootReceiver.kt:10-31 | other actions and idle records change nothing; resume iff active and `now < end`; clean up iff active and `now >= end` |
| BootReceiver.OnReceiveSettles | app/src/main/java/com/timelock/receiver/BootReceiver.kt:15-28 | handling the broadcast a second time changes nothing further |
| BootReceiver.ActiveAfterBootHasTimeLeft | app/src/main/java/com/timelock/receiver/BootReceiver.kt:17-24 | a session still active after boot has its deadline ahead and was resumed |
| MainActivity.DurationMinutes | app/src/main/java/com/timelock/ui/MainActivity.kt:161 | a parsable entry gives its parsed value, and one that does not parse counts as 0 minutes |
| MainActivity.Validate | app/src/main/java/com/timelock/ui/MainActivity.kt:141-170 | each rejection fires exactly when the earlier checks pass and its own fails; acceptance passes the apps and PIN on and converts minutes to `minutes * 60 * 1000` |
| MainActivity.OnStartPressed | app/src/main/java/com/timelock/ui/MainActivity.kt:141-173 | a rejection leaves the record unchanged; acceptance starts an active session whose deadline is ahead and whose PIN validates |
| MainActivity.EnteredMinutesAccepted | app/src/main/java/com/timelock/ui/MainActivity.kt:161-173 | typing a positive number of minutes up to `Long.MAX_VALUE / 60000`, with or without a leading `+` and with any leading zeros, yields that many minutes in milliseconds, within Long range |
| MainActivity.ZeroPaddedMinutesAccepted | app/src/main/java/com/timelock/ui/MainActivity.kt:161-173 | "05" is accepted as five minutes, 300000 ms |
| MainActivity.NonNumericDurationRejected | app/src/main/java/com/timelock/ui/MainActivity.kt:161-165 | a non-numeric duration is rejected as invalid |
| AppListAdapter.RemoveAll | app/src/main/java/com/timelock/ui/AppListAdapter.kt:102 | removing a package keeps every other member and drops it |
| AppListAdapter.RemoveAllNoDuplicates | app/src/main/java/com/timelock/ui/AppListAdapter.kt:102 | removal from a duplicate-free selection introduces no duplicate |
| AppListAdapter.OnCheckedChanged | app/src/main/java/com/timelock/ui/AppListAdapter.kt:97-105 | checking adds the package, unchecking removes it, checking keeps the existing order |
| AppListAdapter.OnCheckedChangedIdempotent | app/src/main/java/com/timelock/ui/AppListAdapter.kt:97-105 | checking or unchecking twice equals doing it once |
| AppListAdapter.CheckThenUncheckRestores | app/src/main/java/com/timelock/ui/AppListAdapter.kt:97-105 | checking then unchecking an unselected package restores the selection |
| AppListAdapter.GetSelectedPackages | app/src/main/java/com/timelock/ui/AppListAdapter.kt:114-116 | lists exactly the selected packages, each once |
| AppListAdapter.OnDurationEdited | app/src/main/java/com/timelock/ui/AppListAdapter.kt:90-92 | the edited package's text is replaced; other entries are unchanged |
| AppListAdapter.GetAppDurations | app/src/main/java/com/timelock/ui/AppListAdapter.kt:44-53 | keys are selected packages with a positive parse, valued by that parse; every such package is present |
| AppListAdapter.EditedDurationReported | app/src/main/java/com/timelock/ui/AppListAdapter.kt:44-53 | typing a positive number for a selected app reports that number |
| AppListAdapter.InsertByLabel | app/src/main/java/com/timelock/ui/AppListAdapter.kt:123 | insertion adds exactly one entry |
| AppListAdapter.SortByLabel | app/src/main/java/com/timelock/ui/AppListAdapter.kt:123 | `sortedBy` yields a permutation, ordered by `String.compareTo` of the labels, stable for equal labels |
| AppListAdapter.FilterByLabel | app/src/main/java/com/timelock/ui/AppListAdapter.kt:125-127 | keeps exactly the apps whose label contains the query ignoring case, with their multiplicity |
| AppListAdapter.FilterByLabelKeepsLabelGroups | app/src/main/java/com/timelock/ui/AppListAdapter.kt:125-127 | the entries sharing a label are kept together and in order, or dropped together |
| AppListAdapter.PerformFiltering | app/src/main/java/com/timelock/ui/AppListAdapter.kt:120-129 | empty or null constraint: all apps; otherwise exactly the matching ones, each as often as installed; sorted by label, equal labels in installation order |
| Lifecycle.DeadlineBoundaryMismatch | app/src/main/java/com/timelock/service/SessionTimerService.kt:43-49 | at `now == end` the policy still honours the allow-list while the service and boot recovery end the session |
| Lifecycle.BootResumesIffServiceArms | app/src/main/java/com/timelock/receiver/BootReceiver.kt:15-28 | boot resumes iff the service started at that moment arms a countdown |
| Lifecycle.StartArmsFullDuration | app/src/main/java/com/timelock/ui/MainActivity.kt:172-181 | a session started from the main screen is armed for the full entered duration |
| Lifecycle.RearmUsesRemainingTime | app/src/main/java/com/timelock/service/SessionTimerService.kt:43-52 | a restart mid-session arms the remaining time, not the original duration |
| Lifecycle.RearmAfterFourOfTenMinutes | app/src/main/java/com/timelock/service/SessionTimerService.kt:43-52 | ten minutes restarted four minutes in arm six minutes |
| Lifecycle.FinishedSessionUnlocksEverything | app/src/main/java/com/timelock/service/SessionTimerService.kt:68-75 | after the countdown finishes every app is allowed and no PIN is accepted |
| Lifecycle.OneMinuteScenario | app/src/main/java/com/timelock/core/SessionManager.kt:49-62 | a one-minute "com.maps" session: allowed until the deadline inclusive, launcher never exempt, only the own app after it until the service, reaching the deadline, ends the session |

## Left out

- SHA-256 and the UTF-8 encoding of the PIN: an uninterpreted `Digest` parameter; a digest collision makes a wrong PIN validate, which the model states rather than rules out.
- SharedPreferences durability and the asynchrony of `apply()`: each edit is one atomic record update.
- `SessionManager.init` and the `lateinit` preferences handle: the record is passed in.
- StartSession: the deadline is `now + durationMillis` in unbounded integers; Kotlin's `Long` addition would wrap for deadlines beyond `Long.MAX_VALUE`. Accepted input reaches that wrap: with a present-day clock (about 1.8e12 ms), entries from about 153722837421073 up to 153722867280912 minutes pass `Validate` with the milliseconds still in `Long` range, yet `now + durationMillis` wraps negative, so `isAppAllowed` blocks every other app at once, the service computes `(now + d) - now`, which wraps back to `d`, and arms the full duration, and a reboot ends the session. The model instead gives such a session a deadline ahead of `now`.
- Validate: the duration is `minutes * 60 * 1000` in unbounded integers; Kotlin's `Long` multiplication wraps for more than 153722867280912 minutes.
- Kotlin.ToLongOrNull: only ASCII digits are modelled; the JVM also accepts other Unicode decimal digits.
- Kotlin.ContainsIgnoringCase: Kotlin's per-character case comparison (upper-case, then lower-case) is an abstract fold.
- Strings: a Dafny `string` holds one `char` per Unicode code point, while Kotlin strings are UTF-16 code units; the two differ only for characters above U+FFFF.
- MainActivity.Validate: `pin.length` is counted in code points, so a PIN of two characters above U+FFFF (four UTF-16 units, accepted by the source) is rejected as too short in the model.
- Kotlin.LexLe: compares code points, while `String.compareTo` compares UTF-16 units; a character above U+FFFF (high surrogate 0xD800-0xDBFF) sorts before U+E000-U+FFFF in the source but after them in the model, so `SortByLabel` can order such labels differently from `sortedBy`.
- SessionTimerService.Stopped: `stopSelf` takes effect asynchronously; the model applies its `onDestroy` (cancelling the countdown) at once.
- CountDownTimer tick scheduling, the notification channel and the notification's contents other than the minutes count.
- Permission probing (`checkPermissions`, `isAdminActive`, `isAccessibilityServiceEnabled`): reduced to one boolean; the Toasts, intents, the app-list loading thread and the home-screen launch after starting.
- `setTimerMode` and view binding in `AppListAdapter` (visibility, icons, text watchers beyond the stored text).
- `BlockActivity`, `KioskAdapter` and `TimeLockApp`: UI and initialisation glue. `BlockActivity` calls `isSessionExpired` and `getAllowedApps`, which `SessionManager` does not define; its unlock path is `ValidatePin` followed by `EndSession` and a `stopService` of the timer service (modelled as `SessionTimerService.Stopped`).
- `AppMonitorAccessibilityService`: it only filters window events and calls `isAppAllowed`; its block action is not implemented.
- `TimeLockDeviceAdminReceiver`: a veto on `isSessionActive`.
