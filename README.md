# stop! don't go on — the clap, rhythm and alarm logic in Dafny

This project models the decision logic of a webcam safety page. Its parts:

- A microphone clap detector. It keeps a sliding window of clap times and calls the clapping "rhythmic" when the gaps between claps are steady.
- An alarm. It is active while the page sees a fearful face *and* rhythmic clapping. Once per alarm episode it e-mails a screenshot to a list of recipients.
- A manual "send screenshot" button. It is throttled by a 10-second cooldown.
- A few helpers of the Python face-recognition backend.

The model has five modules:

- `Rhythm` (`rhythm.dfy`) holds the per-frame loudness test, the window eviction and the interval-variance test. The loops of `detectClap` are methods proved against specification functions. The floating-point tests are replaced by exact ones, and lemmas show the two agree:
  - `average > 120` becomes `sum > 120 · bins`;
  - `stdDev < 300` becomes `variance < 90000` over exact rationals;
  - the same test in integers is `Σ (n·dᵢ − S)² < 90000 · n³`.
- `ClapDetector` (`clap_detector.dfy`) holds the detector's state. It appears twice:
  - as a value (`Detection`) with the step functions `Sample` and `Tick`, and lemmas about runs of frames;
  - as the class `Detector`, whose methods update the fields in place and are proved to follow those functions.

  The 300 ms and 2000 ms auto-clears are explicit pending timers that a `Tick` fires.
- `Recipients` (`recipients.dfy`) holds the e-mail address check and the add and remove handlers of the recipient list.
- `Alarm` (`alarm.dfy`) holds:
  - the alarm effect with its "alarm e-mail already sent" latch;
  - the ordered checks and cooldown of `sendScreenshotEmail`;
  - the send button's disabled test;
  - the class `App`, which holds the page state. Its methods are the page's event handlers, and the latch and list invariants are kept in `Valid()`.
- `FaceBackend` (`backend.dfy`) holds:
  - the data-URL prefix strip;
  - the file-name sanitiser;
  - the loop that finds a free image path;
  - the best-match loop over known faces;
  - the class `Registry` with `add_person` and `delete_person`.

Some inputs from outside are parameters:
- clock readings (`now`);
- the analyser's bins;
- the camera and canvas state;
- the outcome of e-mail delivery;
- the outcomes of the image decoder and the face library;
- the generated person id.

The model follows the code as written. Three points are worth knowing:
- Every rhythmic verdict schedules one more 2000 ms clear of the rhythmic flag, and no earlier clear is ever cancelled. `Sample`, `Clap` and the `Detector` class do the same. The hook's own comment says the flag should stay active for 2 seconds (useClappingDetection.ts:141). An older clear can end it sooner, which is the finding below. The intended re-armed step is modelled separately, as `ClapRearmed` and `SampleRearmed`.
- An alarm timer does not re-check the alarm state when it fires. It sends even if fear or rhythm has ended in the meantime. `App.FireAlarmTimer` sends unconditionally.
- The cooldown notice reports `ceil(remaining / 1000)` seconds.

## Model

| member | source | states |
|---|---|---|
| Rhythm.Peak | stop-dont-go-on-main/hooks/useClappingDetection.ts:88-91 | the peak is at least every bin, lies in 0..255 and is 0 or attained by some bin |
| Rhythm.BandLevel | stop-dont-go-on-main/hooks/useClappingDetection.ts:87-92 | the summing loop over bins lo..hi-1 returns exactly `Sum` and `Peak` of that band, with sum ≤ 255·count and max < 256 |
| Rhythm.Loud | stop-dont-go-on-main/hooks/useClappingDetection.ts:101 | a loud band always has a bin above the 120 threshold, so an empty band is never loud |
| Rhythm.LoudMatchesAverage | stop-dont-go-on-main/hooks/useClappingDetection.ts:93-101 | for a non-empty band, the integer loudness test holds iff the real average exceeds 120 or the peak exceeds 170 |
| Rhythm.SpacedGrowth | stop-dont-go-on-main/hooks/useClappingDetection.ts:103 | in a window whose neighbours are more than 200 ms apart, entries i ≤ j differ by at least 201·(j−i) |
| Rhythm.Evict | stop-dont-go-on-main/hooks/useClappingDetection.ts:110-113 | a time is kept iff it was in the window and is younger than 4000 ms; the window never grows |
| Rhythm.EvictKeepsFresh | stop-dont-go-on-main/hooks/useClappingDetection.ts:110-113 | a window of entries all younger than 4000 ms is left unchanged |
| Rhythm.EvictIsSuffix | stop-dont-go-on-main/hooks/useClappingDetection.ts:110-113 | on a time-ordered window, eviction drops exactly the stale prefix, so order is kept |
| Rhythm.WindowAtMostTwenty | stop-dont-go-on-main/hooks/useClappingDetection.ts:103-113 | a spaced window inside the 4000 ms span holds at most 20 times |
| Rhythm.Intervals | stop-dont-go-on-main/hooks/useClappingDetection.ts:122-125 | the interval loop yields the n−1 consecutive differences |
| Rhythm.StdDevBelowLimit | stop-dont-go-on-main/hooks/useClappingDetection.ts:132-137 | for a non-negative root of the variance, root < 300 iff variance < 90000 |
| Rhythm.RhythmTest | stop-dont-go-on-main/hooks/useClappingDetection.ts:121-137 | the mean and variance loops return true iff the population variance of the gaps is below 90000 (`Rhythmic`) |
| Rhythm.ScaledSquaresScale | stop-dont-go-on-main/hooks/useClappingDetection.ts:128-131 | Σ(n·dᵢ − S)² equals n² times the sum of squared deviations from the mean S/n |
| Rhythm.ScaledComparison | stop-dont-go-on-main/hooks/useClappingDetection.ts:131-137 | dividing by n and comparing with a limit is the same as comparing after multiplying through by n³ |
| Rhythm.RhythmicIntegerForm | stop-dont-go-on-main/hooks/useClappingDetection.ts:121-137 | a window is rhythmic iff Σ(n·dᵢ − S)² < 90000·n³, with no division or root |
| Rhythm.EvenlySpacedIsRhythmic | stop-dont-go-on-main/hooks/useClappingDetection.ts:121-137 | three or more claps at a constant gap are always rhythmic |
| Rhythm.SteadyClapsAreRhythmic | stop-dont-go-on-main/hooks/useClappingDetection.ts:127-137 | claps at 0, 500, 1000 ms are rhythmic |
| Rhythm.UnsteadyClapsAreNotRhythmic | stop-dont-go-on-main/hooks/useClappingDetection.ts:127-137 | claps at 0, 500, 2400 ms have variance 490000 (std-dev 700) and are not rhythmic |
| Rhythm.BoundaryClapsAreNotRhythmic | stop-dont-go-on-main/hooks/useClappingDetection.ts:132-137 | claps at 0, 300, 1200 ms have std-dev exactly 300 and are not rhythmic: the test is strict |
| ClapDetector.Later | stop-dont-go-on-main/hooks/useClappingDetection.ts:142-147 | keeps exactly the due times after `now`, and keeps them all iff none is due |
| ClapDetector.Fire | stop-dont-go-on-main/hooks/useClappingDetection.ts:142-147 | after the due clears fire, the flag is set iff it was set and no clear was due; exactly the future clears remain pending |
| ClapDetector.Clap | stop-dont-go-on-main/hooks/useClappingDetection.ts:103-156 | a clap sets the last clap time to `now`, keeps `now` in the window, sets the count to its length, raises the clap flag with one more clear at +300, and keeps every pending rhythmic clear |
| ClapDetector.Sample | stop-dont-go-on-main/hooks/useClappingDetection.ts:87-157 | a frame without a clap changes nothing; a clap comes more than 200 ms after the previous one; no pending clear of either flag is ever cancelled |
| ClapDetector.Tick | stop-dont-go-on-main/hooks/useClappingDetection.ts:142-156 | firing the due clears can only turn flags off and shrink the pending clears; the window, count and last clap time stay |
| ClapDetector.ClapRearmed | stop-dont-go-on-main/hooks/useClappingDetection.ts:139-147 | corrected step: everything as in `Clap`, except that a rhythmic verdict leaves exactly one pending clear, at +2000 |
| ClapDetector.SampleRearmed | stop-dont-go-on-main/hooks/useClappingDetection.ts:87-157 | corrected frame: the same last clap time, window, count and clap flag as `Sample` |
| ClapDetector.VerdictClears | stop-dont-go-on-main/hooks/useClappingDetection.ts:137-147 | after a rhythmic verdict at `now`, the code as written keeps the old clears and adds one at +2000; the re-armed step keeps only the one at +2000 |
| ClapDetector.RaiseLetsOlderClearFire | stop-dont-go-on-main/hooks/useClappingDetection.ts:139-147 | as written: after two frames with rhythmic verdicts at t1 < t2, firing the timers at t1+2000 turns the flag off before the second verdict is 2000 ms old; with the re-armed step the flag is still on then |
| ClapDetector.RearmHoldsForTwoSeconds | stop-dont-go-on-main/hooks/useClappingDetection.ts:139-147 | corrected: after a frame with a rhythmic verdict at `now`, the re-armed flag is on at any later t iff t < now+2000 |
| ClapDetector.InitialConsistent | stop-dont-go-on-main/hooks/useClappingDetection.ts:21-32 | the initial state (no claps, last clap 0, flags off) satisfies the window invariant |
| ClapDetector.AdvanceWindow | stop-dont-go-on-main/hooks/useClappingDetection.ts:107-113 | appending a clap more than 200 ms after the last one and evicting gives a valid window ending in the new clap, a suffix of the old window plus `now` |
| ClapDetector.SampleKeepsConsistent | stop-dont-go-on-main/hooks/useClappingDetection.ts:101-116 | every frame keeps the window ordered, spaced, younger than 4000 ms, ending in the last clap, with count = length |
| ClapDetector.TickKeepsConsistent | stop-dont-go-on-main/hooks/useClappingDetection.ts:142-156 | firing clears keeps the invariant and never touches the window or the last clap time |
| ClapDetector.ClapStep | stop-dont-go-on-main/hooks/useClappingDetection.ts:101-156 | no clap leaves the state unchanged. A clap sets last = now, keeps now as the newest entry of a suffix-plus-now window younger than 4000 ms, sets count = length, and raises the clap flag with a clear at +300. Below 3 claps the rhythmic flag is untouched; from 3 claps it equals the verdict, and a rhythmic verdict adds a clear at +2000 to the pending ones, which a non-rhythmic verdict keeps |
| ClapDetector.WindowBound | stop-dont-go-on-main/hooks/useClappingDetection.ts:103-116 | a reachable window and its count never exceed 20 |
| ClapDetector.ClapsSpaced | stop-dont-go-on-main/hooks/useClappingDetection.ts:103-107 | the claps of any run of frames come in order, more than 200 ms apart, within the run's time span |
| ClapDetector.ClapRateBound | stop-dont-go-on-main/hooks/useClappingDetection.ts:103-107 | frames within [t0, t1] register at most (t1−t0)/200 + 1 claps |
| ClapDetector.Detector.constructor | stop-dont-go-on-main/hooks/useClappingDetection.ts:21-32 | the object starts in the initial state |
| ClapDetector.Detector.OnFrame | stop-dont-go-on-main/hooks/useClappingDetection.ts:87-157 | the in-place frame handler returns whether a clap registered, moves the fields to `Sample` of the old state, and keeps the invariant with count = window length ≤ 20 |
| ClapDetector.Detector.RegisterClap | stop-dont-go-on-main/hooks/useClappingDetection.ts:106-156 | the clap branch updates the fields to `Clap` of the old state, adding a 2000 ms clear on a rhythmic verdict as the code does |
| ClapDetector.Detector.OnTimers | stop-dont-go-on-main/hooks/useClappingDetection.ts:142-156 | firing the due timers moves the fields to `Tick` of the old state and keeps the invariant |
| Recipients.Blank | stop-dont-go-on-main/App.tsx:97 | the empty input is blank, and a blank input contains no `@` and no `.` |
| Recipients.EmailShape | stop-dont-go-on-main/App.tsx:101 | an input matching the address pattern has at least five characters, an `@` and a `.` |
| Recipients.Lower | stop-dont-go-on-main/App.tsx:105-109 | lower-casing keeps the length and maps each character on its own |
| Recipients.ShapedIsNotBlank | stop-dont-go-on-main/App.tsx:97-104 | an input matching the address pattern is never blank |
| Recipients.LowerKeepsShape | stop-dont-go-on-main/App.tsx:101-108 | a lower-cased address still matches the pattern |
| Recipients.LowerIdempotent | stop-dont-go-on-main/App.tsx:104-108 | lower-casing twice equals lower-casing once |
| Recipients.Add | stop-dont-go-on-main/App.tsx:96-114 | each outcome holds iff its condition holds: blank input gives "empty", a pattern mismatch gives "invalid", a listed lower-cased address gives "duplicate", anything else is appended lower-cased |
| Recipients.Remove | stop-dont-go-on-main/App.tsx:117-121 | an address is in the result iff it was in the list and differs from the removed one |
| Recipients.RemoveCounts | stop-dont-go-on-main/App.tsx:117-121 | removal drops every copy of the address and keeps every other entry as often as before |
| Recipients.RemoveConcat | stop-dont-go-on-main/App.tsx:117-121 | removal works entry by entry, so relative order is preserved |
| Recipients.RemoveAbsent | stop-dont-go-on-main/App.tsx:117-121 | removing an unlisted address changes nothing |
| Recipients.AddKeepsNormalized | stop-dont-go-on-main/App.tsx:96-114 | adding keeps the list lower-case, address-shaped and duplicate-free |
| Recipients.RemoveKeepsNormalized | stop-dont-go-on-main/App.tsx:117-121 | removing keeps the list lower-case, address-shaped and duplicate-free |
| Recipients.RemoveUndoesAdd | stop-dont-go-on-main/App.tsx:96-121 | removing the address just added gives back the earlier list |
| Recipients.RemoveListedShortens | stop-dont-go-on-main/App.tsx:117-121 | in a normalized list, removing a listed address shortens it by exactly one |
| Alarm.AlarmEffect | stop-dont-go-on-main/App.tsx:159-181 | active iff fear and rhythm; a send is scheduled iff active, not latched and some recipient exists; the latch is set afterwards iff active and (latched or recipients exist) |
| Alarm.AtMostOneSendPerEpisode | stop-dont-go-on-main/App.tsx:159-181 | along any run where fear and rhythm both hold, at most one send is scheduled (none if already latched), and the latch ends set iff it started set or a recipient ever existed |
| Alarm.OneSendOnceRecipientsExist | stop-dont-go-on-main/App.tsx:164-181 | an episode starting unlatched in which a recipient appears at some point schedules exactly one send |
| Alarm.IdleResetsLatch | stop-dont-go-on-main/App.tsx:178-181 | when fear or rhythm is absent the latch is cleared and nothing is scheduled |
| Alarm.EffectIdempotent | stop-dont-go-on-main/App.tsx:159-181 | re-running the effect with unchanged inputs changes nothing and schedules nothing |
| Alarm.CeilSeconds | stop-dont-go-on-main/App.tsx:212 | the reported number of seconds k satisfies 1000(k−1) < remaining ≤ 1000k |
| Alarm.SendCheck | stop-dont-go-on-main/App.tsx:209-248 | the checks are ordered cooldown (manual only), camera, recipients, drawing context, each notice holding iff the earlier checks pass and its own fails; the wait in seconds rounds the remaining time up and lies in 1..10 |
| Alarm.SendButtonDisabled | stop-dont-go-on-main/App.tsx:285-286 | a running send disables the button; an enabled button means a manual send with camera and context ready passes every check |
| Alarm.ButtonAgreesWithChecks | stop-dont-go-on-main/App.tsx:209-228 | with no send running, the button is enabled iff a manual send with camera and context ready passes every check, and it is cooldown-disabled iff a send would get the wait notice |
| Alarm.CooldownExamples | stop-dont-go-on-main/App.tsx:80 | a manual send 5000 ms after the last is told to wait 5 s; one at +10000 or +10001 ms goes ahead; an alarm send 1 ms after goes ahead |
| Alarm.FailureText | stop-dont-go-on-main/App.tsx:265-271 | the shown failure text is the error's own message when non-empty, otherwise the fixed default, and never empty |
| Alarm.App.constructor | stop-dont-go-on-main/App.tsx:72-93 | the page starts with no recipients, no error, not sending, last send time 0, and the alarm off and unlatched |
| Alarm.App.RunAlarmEffect | stop-dont-go-on-main/App.tsx:159-181 | sets the alarm state and latch as `AlarmEffect` says, and queues a send due 1000 ms later, carrying the current list, exactly when it schedules one |
| Alarm.App.UpdateInputs | stop-dont-go-on-main/App.tsx:159-181 | a new fear or rhythm reading re-runs the effect; the invariant "latch ⇒ active, and active with recipients ⇒ latched" is kept |
| Alarm.App.AddEmail | stop-dont-go-on-main/App.tsx:96-114 | an accepted address replaces the list with `Add`'s result, clears the notice and re-runs the effect; each rejection shows its notice and changes nothing else |
| Alarm.App.RemoveEmail | stop-dont-go-on-main/App.tsx:117-121 | the list becomes `Remove`'s result and the re-run effect never schedules a send |
| Alarm.App.StartSend | stop-dont-go-on-main/App.tsx:209-252 | the notice becomes the check's result; the send starts (sending flag set, start time recorded) iff every check passes; the cooldown is not advanced |
| Alarm.App.SendDisabled | stop-dont-go-on-main/App.tsx:285-286 | an enabled button means no send is running and a manual send with camera and context ready passes every check |
| Alarm.App.SendScreenshot | stop-dont-go-on-main/App.tsx:209-228 | a manual send is checked against the current list with the cooldown applied |
| Alarm.App.FireAlarmTimer | stop-dont-go-on-main/App.tsx:167-176 | a fired alarm timer leaves the queue and sends to its captured list, bypassing the cooldown; it starts iff camera and context are ready, and a started send sets the sending flag; fear, rhythm, the alarm state and the latch are left unchanged |
| Alarm.App.CompleteSend | stop-dont-go-on-main/App.tsx:250-274 | a finished send clears the sending flag; delivery sets the last send time to that send's start, failure leaves it and shows the failure text |
| FaceBackend.Split | app.py:73 | the fields contain no comma, and there is more than one field iff the input has a comma |
| FaceBackend.SplitJoin | app.py:73 | joining the split fields with commas gives back the input |
| FaceBackend.StripDataUrl | app.py:73 | without a comma the input is returned unchanged; the result never contains a comma and is shorter than an input with one |
| FaceBackend.StripIsSecondField | app.py:73 | with a comma, the result is the second comma-separated field |
| FaceBackend.StripRemovesHeader | app.py:268 | a header, a comma and a comma-free payload strip to exactly the payload |
| FaceBackend.TrimTrailingSpaces | app.py:88 | the result is the longest prefix not ending in a space, and only spaces were cut |
| FaceBackend.SafeName | app.py:88-89 | the sanitised name uses only letters, digits, `-` and `_`, and is never longer than the name |
| FaceBackend.SafeNameFixpoint | app.py:88-89 | a name is left unchanged iff it is made only of letters, digits, `-` and `_` |
| FaceBackend.SafeNameIdempotent | app.py:88-89 | sanitising twice equals sanitising once |
| FaceBackend.NatToString | app.py:95 | the counter is written as one or more decimal digits, with two or more exactly from 10 on |
| FaceBackend.NatToStringInjective | app.py:95 | different counters are written as different decimal strings |
| FaceBackend.ImagePath | app.py:90-95 | every attempted path lies in `people_database/`, starts with the sanitised name and ends in `.png` |
| FaceBackend.ImagePathInjective | app.py:90-95 | different attempts produce different image paths |
| FaceBackend.TriedSize | app.py:90-96 | the first n attempts name n distinct paths |
| FaceBackend.TakenBound | app.py:93-96 | if the first n attempts are all taken, at least n files exist, so the loop terminates |
| FaceBackend.UniquePath | app.py:90-96 | the chosen path names no existing file and is the first free one in the order `safe.png`, `safe_1.png`, `safe_2.png`, … |
| FaceBackend.BestIsUnique | app.py:177-185 | at most one entry is the loop's best |
| FaceBackend.BestIsClosest | app.py:177-185 | the best entry is no farther than any entry under the 0.4 threshold |
| FaceBackend.BestMatch | app.py:173-192 | the loop keeps the earliest strictly-closest entry under 0.4. Its name and confidence 1−distance are reported iff that entry exists and its name is non-empty; otherwise the face is "Unknown" |
| FaceBackend.Registry.constructor | app.py:57-62 | the registry starts empty, as when no people file exists |
| FaceBackend.Registry.DeletePerson | app.py:295-310 | a known id loses exactly its entry and its image file and reports success; an unknown id reports "Person not found" and changes nothing |
| FaceBackend.Registry.AddPerson | app.py:242-253 | a missing or empty name or image fails with "Name and image required" and changes nothing. A decodable image is written to the first free path, and the person is recorded under the id only if a face embedding is found; the file stays even when it is not. The invariant "every image on disk, none shared" is kept |

## Left out

- Audio capture (`getUserMedia`, the analyser node, the animation-frame loop, teardown) is I/O. The band of bins and its bounds `lo`, `hi` are parameters. The bounds are not derived from the sample rate.
- The displayed audio level (`Math.round(average)`) and the console logging are left out. They are display only.
- Component teardown is left out, so there are no `isMounted` guards and no cancelling of pending timers on unmount.
- Timers are explicit pending events fired by `OnTimers`, `FireAlarmTimer` and `CompleteSend`. Their interleaving is whatever the caller chooses; nothing forces them to fire in due-time order.
- React's batching and re-render ordering are not modelled. The alarm effect runs after each change of fear, rhythm or the list, as its dependency list says.
- `ClapDetector.Detector` follows the code as written. The corrected re-armed step exists only as the functions `ClapRearmed` and `SampleRearmed`, with no class method of its own.
- An alarm timer uses the recipient list of the render that scheduled it, because its callback closes over that list.
- Screenshot capture, scaling and JPEG compression, and EmailJS delivery are left out. They are canvas, floating-point and network code. The camera's readiness, the drawing context and the delivery outcome with its message are parameters.
- The "email sent" notification and its 3-second timer are left out.
- Clearing the address input box after an accepted address is left out.
- The error texts of the checks are constructors of `Notice`. Only the delivery failure text is a string.
- The fear input comes from the face-analysis requests in hooks/useFaceDetection.ts, which are not part of this model.
- `cosine_distance`, the face library, the base64 and image decoders, `cv2.imwrite` and JSON persistence of the people list are left out. They are numerical or I/O code. Distances, the decoding outcome and the embedding outcome are parameters. A failed `imwrite` is not modelled.
- Loading the people list from disk is left out. `Registry` starts empty.
- A person's stored embedding and added date are left out.
- The `/api/people` listing and the rest of `analyze_frame` and `recognize_faces_in_frame` are left out. They are request plumbing and face-region cropping.
- `Rhythm.RhythmTest`: computes the variance over exact rationals. JavaScript's floating-point mean, variance and `Math.sqrt` may round differently when the standard deviation is within rounding error of 300 ms.
- `FaceBackend.BestMatch`: distances are exact reals, so NaN and infinite distances are not covered.
- `FaceBackend.SafeName`: `isalnum` is modelled on ASCII letters and digits. Python's `isalnum` also keeps non-ASCII letters and digits, which the model drops. No kept character other than `' '` is white space, so `rstrip` removes only trailing spaces in both.
- `Recipients.Lower`: lower-cases ASCII letters only. JavaScript's `toLowerCase` also maps other scripts.
- `Rhythm.LoudMatchesAverage`: covers a non-empty band only. For an empty band the average is undefined (0/0 in the source), and the integer test is false just as the source's comparisons with NaN are.

## Findings

| source | as written | input that shows it | evidently intended | confidence | as-written member | corrected member |
|---|---|---|---|---|---|---|
| stop-dont-go-on-main/hooks/useClappingDetection.ts:139-147 | every rhythmic verdict schedules a fresh 2000 ms clear, and earlier clears are never cancelled | claps at 0, 500, 1000 and 1500 ms give rhythmic verdicts at t1 = 1000 and t2 = 1500, and in general any verdicts with t1 < t2 < t1 + 2000: the first clear fires at t1 + 2000 and turns the flag off although the latest verdict is younger than 2000 ms. With a fearful face present, this turns the alarm off and resets its latch, so the next rhythmic clap starts a new episode and a second alarm e-mail | the flag stays set for 2000 ms after the most recent rhythmic verdict (each verdict replaces the pending clear) | not executed | ClapDetector.RaiseLetsOlderClearFire | ClapDetector.RearmHoldsForTwoSeconds |
