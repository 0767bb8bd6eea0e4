/** The alarm and notification logic of App.tsx: the effect that turns the
    fear and rhythm inputs into the alarm state and schedules at most one
    alarm e-mail per continuous alarm, the gating and cooldown of
    `sendScreenshotEmail`, and the send button's disabled predicate.

    Delivery (screenshot capture, compression, EmailJS) is outside the model:
    a send that passes its checks is "in flight" until `CompleteSend` reports
    whether it was delivered. */
module Alarm {
  import Recipients
  import opened Wrappers

  const EmailCooldown: int := 10000
  const AlarmSendDelay: int := 1000

  // ---------------------------------------------------------------------
  // The alarm effect
  // ---------------------------------------------------------------------

  /** The alarm state after the effect, the new value of the
      `alarmEmailSentRef` latch, and whether an alarm send was scheduled. */
  datatype EffectResult = EffectResult(active: bool, latch: bool, schedule: bool)

  /** The effect run whenever the fear input, the rhythm input or the list of
      recipients changes. */
  function AlarmEffect(fear: bool, rhythmic: bool, latch: bool, recipients: nat): (r: EffectResult)
    ensures r.active <==> fear && rhythmic
    ensures r.schedule <==> r.active && !latch && recipients > 0
    ensures r.latch <==> r.active && (latch || recipients > 0)
    ensures r.latch ==> r.active
  {
    var shouldTrigger := fear && rhythmic;
    var schedule := shouldTrigger && !latch && recipients > 0;
    var latch' := if schedule then true else latch;
    EffectResult(shouldTrigger, if !shouldTrigger then false else latch', schedule)
  }

  /** One change of the effect's inputs. */
  datatype Inputs = Inputs(fear: bool, rhythmic: bool, recipients: nat)

  /** The latch after the effect has run for each input of a trace. */
  function LatchAfter(latch: bool, trace: seq<Inputs>): bool
    decreases |trace|
  {
    if trace == [] then latch
    else
      var i := trace[0];
      LatchAfter(AlarmEffect(i.fear, i.rhythmic, latch, i.recipients).latch, trace[1..])
  }

  /** The number of alarm sends scheduled along a trace. */
  function Scheduled(latch: bool, trace: seq<Inputs>): nat
    decreases |trace|
  {
    if trace == [] then 0
    else
      var i := trace[0];
      var r := AlarmEffect(i.fear, i.rhythmic, latch, i.recipients);
      (if r.schedule then 1 else 0) + Scheduled(r.latch, trace[1..])
  }

  /** An episode is a trace along which fear and rhythm both hold. */
  predicate Episode(trace: seq<Inputs>)
  {
    forall k :: 0 <= k < |trace| ==> trace[k].fear && trace[k].rhythmic
  }

  /** At most one alarm send per episode, and none if one was already
      scheduled before it. */
  lemma {:induction false} AtMostOneSendPerEpisode(latch: bool, trace: seq<Inputs>)
    requires Episode(trace)
    ensures Scheduled(latch, trace) <= 1
    ensures latch ==> Scheduled(latch, trace) == 0
    ensures LatchAfter(latch, trace) <==> latch || exists k :: 0 <= k < |trace| && trace[k].recipients > 0
    decreases |trace|
  {
    if trace != [] {
      var i := trace[0];
      var r := AlarmEffect(i.fear, i.rhythmic, latch, i.recipients);
      AtMostOneSendPerEpisode(r.latch, trace[1..]);
      if (exists k :: 0 <= k < |trace| && trace[k].recipients > 0) && trace[0].recipients == 0 {
        var k :| 0 <= k < |trace| && trace[k].recipients > 0;
        assert trace[1..][k - 1].recipients > 0;
      }
      if exists k :: 0 <= k < |trace[1..]| && trace[1..][k].recipients > 0 {
        var k :| 0 <= k < |trace[1..]| && trace[1..][k].recipients > 0;
        assert trace[k + 1].recipients > 0;
      }
    }
  }

  /** An episode that starts with the latch reset and at some point has a
      recipient schedules exactly one alarm send: with no recipient the latch
      stays reset, so adding one during the episode still sends. */
  lemma {:induction false} OneSendOnceRecipientsExist(trace: seq<Inputs>)
    requires Episode(trace)
    requires exists k :: 0 <= k < |trace| && trace[k].recipients > 0
    ensures Scheduled(false, trace) == 1
    decreases |trace|
  {
    var i := trace[0];
    var r := AlarmEffect(i.fear, i.rhythmic, false, i.recipients);
    if i.recipients > 0 {
      AtMostOneSendPerEpisode(true, trace[1..]);
    } else {
      var k :| 0 <= k < |trace| && trace[k].recipients > 0;
      assert trace[1..][k - 1].recipients > 0;
      OneSendOnceRecipientsExist(trace[1..]);
    }
  }

  /** Once either input is false the latch is reset, so the next episode can
      send again. */
  lemma IdleResetsLatch(fear: bool, rhythmic: bool, latch: bool, recipients: nat)
    requires !(fear && rhythmic)
    ensures !AlarmEffect(fear, rhythmic, latch, recipients).latch
    ensures !AlarmEffect(fear, rhythmic, latch, recipients).schedule
  {
  }

  /** Running the effect a second time with the same inputs changes nothing
      and schedules nothing. */
  lemma EffectIdempotent(fear: bool, rhythmic: bool, latch: bool, recipients: nat)
    ensures var r := AlarmEffect(fear, rhythmic, latch, recipients);
      var r2 := AlarmEffect(fear, rhythmic, r.latch, recipients);
      r2.latch == r.latch && r2.active == r.active && !r2.schedule
  {
  }

  // ---------------------------------------------------------------------
  // The send checks and the cooldown
  // ---------------------------------------------------------------------

  /** The messages the page shows in its error line. */
  datatype Notice =
    | EmptyEmail
    | InvalidEmail
    | DuplicateEmail
    | WaitBeforeSending(seconds: int)
    | CameraNotReady
    | NoRecipients
    | NoCanvasContext
    | DeliveryError(message: string)

  const DefaultDeliveryError: string := "failed to send email via emailjs."

  /** `Math.ceil(x / 1000)` for an integer number of milliseconds. */
  function CeilSeconds(x: int): (k: int)
    ensures 1000 * (k - 1) < x <= 1000 * k
  {
    (x + 999) / 1000
  }

  /** The checks of `sendScreenshotEmail` in their order: the cooldown (manual
      sends only), the camera, the recipients, the drawing context. `None`
      means the send goes ahead. */
  function SendCheck(isAlarm: bool, now: int, last: int, cameraReady: bool,
                     recipients: nat, canvasReady: bool): (r: Option<Notice>)
    ensures r.None? <==>
      (isAlarm || now - last >= EmailCooldown) && cameraReady && recipients > 0 && canvasReady
    ensures (r.Some? && r.value.WaitBeforeSending?) <==> !isAlarm && now - last < EmailCooldown
    ensures r.Some? && r.value.WaitBeforeSending? ==>
      r.value.seconds * 1000 >= EmailCooldown - (now - last) > (r.value.seconds - 1) * 1000
    ensures r.Some? && r.value.WaitBeforeSending? && now >= last ==> 1 <= r.value.seconds <= 10
    ensures r == Some(CameraNotReady) <==> (isAlarm || now - last >= EmailCooldown) && !cameraReady
    ensures r == Some(NoRecipients) <==>
      (isAlarm || now - last >= EmailCooldown) && cameraReady && recipients == 0
    ensures r == Some(NoCanvasContext) <==>
      (isAlarm || now - last >= EmailCooldown) && cameraReady && recipients > 0 && !canvasReady
  {
    if !isAlarm && now - last < EmailCooldown then
      Some(WaitBeforeSending(CeilSeconds(EmailCooldown - (now - last))))
    else if !cameraReady then Some(CameraNotReady)
    else if recipients == 0 then Some(NoRecipients)
    else if !canvasReady then Some(NoCanvasContext)
    else None
  }

  /** The send button is disabled while a send is running, with no
      recipients, or during the cooldown. */
  function SendButtonDisabled(isSending: bool, recipients: nat, now: int, last: int): (r: bool)
    ensures !r ==> SendCheck(false, now, last, true, recipients, true).None?
    ensures isSending ==> r
  {
    isSending || recipients == 0 || now - last < EmailCooldown
  }

  /** When no send is running, the button is enabled exactly when a manual
      send with a ready camera and drawing context passes every check, and a
      button disabled by the cooldown corresponds to the cooldown notice. */
  lemma ButtonAgreesWithChecks(now: int, last: int, recipients: nat, cameraReady: bool, canvasReady: bool)
    ensures cameraReady && canvasReady ==>
      (!SendButtonDisabled(false, recipients, now, last)
       <==> SendCheck(false, now, last, cameraReady, recipients, canvasReady).None?)
    ensures (now - last < EmailCooldown) <==>
      SendCheck(false, now, last, cameraReady, recipients, canvasReady).Some?
      && SendCheck(false, now, last, cameraReady, recipients, canvasReady).value.WaitBeforeSending?
  {
  }

  /** A send 5000 ms after a delivered one is refused with a five-second wait;
      10000 ms or more after it, it goes ahead. Alarm sends are never held
      back by the cooldown. */
  lemma CooldownExamples(t: int)
    ensures SendCheck(false, t + 5000, t, true, 1, true) == Some(WaitBeforeSending(5))
    ensures SendCheck(false, t + 9001, t, true, 1, true) == Some(WaitBeforeSending(1))
    ensures SendCheck(false, t + 10000, t, true, 1, true) == None
    ensures SendCheck(false, t + 10001, t, true, 1, true) == None
    ensures SendCheck(true, t + 1, t, true, 1, true) == None
  {
  }

  /** The message shown when delivery fails: the error's message when it has
      one, otherwise a fixed text. */
  function FailureText(message: string): (r: string)
    ensures r != ""
    ensures message != "" ==> r == message
  {
    if message != "" then message else DefaultDeliveryError
  }

  /** A pending alarm send: when it is due, and the recipient list of the
      render that scheduled it (the timer's callback closes over that list,
      not over later ones). */
  datatype AlarmTimer = AlarmTimer(due: int, recipients: seq<string>)

  // ---------------------------------------------------------------------
  // The component's state
  // ---------------------------------------------------------------------

  class App {
    var emails: seq<string>
    var emailError: Option<Notice>
    var isSending: bool
    var lastEmailSendTime: int
    var hasFear: bool
    var isRhythmicClapping: bool
    var isAlarmActive: bool
    var alarmEmailSent: bool
    /** The scheduled alarm sends. */
    var alarmTimers: seq<AlarmTimer>
    /** Start times of the sends whose delivery has not yet reported. */
    var inFlight: seq<int>

    predicate Valid()
      reads this
    {
      && Recipients.Normalized(emails)
      && isAlarmActive == (hasFear && isRhythmicClapping)
      && (alarmEmailSent ==> isAlarmActive)
      && (isAlarmActive && emails != [] ==> alarmEmailSent)
      && (isSending ==> inFlight != [])
      && (forall k :: 0 <= k < |alarmTimers| ==> alarmTimers[k].recipients != [])
    }

    constructor ()
      ensures Valid()
      ensures emails == [] && emailError == None && !isSending && lastEmailSendTime == 0
      ensures !hasFear && !isRhythmicClapping && !isAlarmActive && !alarmEmailSent
      ensures alarmTimers == [] && inFlight == []
    {
      emails := [];
      emailError := None;
      isSending := false;
      lastEmailSendTime := 0;
      hasFear, isRhythmicClapping, isAlarmActive, alarmEmailSent := false, false, false, false;
      alarmTimers := [];
      inFlight := [];
    }

    /** The alarm effect at time `now`: a scheduled send is due 1000 ms later. */
    method RunAlarmEffect(now: int)
      requires Recipients.Normalized(emails) && (isSending ==> inFlight != [])
      requires forall k :: 0 <= k < |alarmTimers| ==> alarmTimers[k].recipients != []
      modifies this
      ensures Valid()
      ensures var r := AlarmEffect(hasFear, isRhythmicClapping, old(alarmEmailSent), |emails|);
        && isAlarmActive == r.active && alarmEmailSent == r.latch
        && alarmTimers == old(alarmTimers) + (if r.schedule then [AlarmTimer(now + AlarmSendDelay, emails)] else [])
      ensures emails == old(emails) && emailError == old(emailError) && isSending == old(isSending)
      ensures lastEmailSendTime == old(lastEmailSendTime) && inFlight == old(inFlight)
      ensures hasFear == old(hasFear) && isRhythmicClapping == old(isRhythmicClapping)
    {
      var shouldTriggerAlarm := hasFear && isRhythmicClapping;
      isAlarmActive := shouldTriggerAlarm;
      if shouldTriggerAlarm && !alarmEmailSent && |emails| > 0 {
        alarmEmailSent := true;
        alarmTimers := alarmTimers + [AlarmTimer(now + AlarmSendDelay, emails)];
      }
      if !shouldTriggerAlarm {
        alarmEmailSent := false;
      }
    }

    /** A new fear or rhythm reading. */
    method UpdateInputs(fear: bool, rhythmic: bool, now: int)
      requires Valid()
      modifies this
      ensures Valid()
      ensures hasFear == fear && isRhythmicClapping == rhythmic
      ensures var r := AlarmEffect(fear, rhythmic, old(alarmEmailSent), |emails|);
        && isAlarmActive == r.active && alarmEmailSent == r.latch
        && alarmTimers == old(alarmTimers) + (if r.schedule then [AlarmTimer(now + AlarmSendDelay, emails)] else [])
      ensures emails == old(emails) && emailError == old(emailError) && isSending == old(isSending)
      ensures lastEmailSendTime == old(lastEmailSendTime) && inFlight == old(inFlight)
    {
      hasFear, isRhythmicClapping := fear, rhythmic;
      RunAlarmEffect(now);
    }

    /** `handleAddEmail` for the text typed in the input box; a changed list
        re-runs the alarm effect. */
    method AddEmail(input: string, now: int)
      requires Valid()
      modifies this
      ensures Valid()
      ensures var r := Recipients.Add(old(emails), input);
        && (r.Added? ==> emails == r.list && emailError == None)
        && (r == Recipients.Rejected(Recipients.EmptyAddress) ==> emailError == Some(EmptyEmail))
        && (r == Recipients.Rejected(Recipients.InvalidAddress) ==> emailError == Some(InvalidEmail))
        && (r == Recipients.Rejected(Recipients.AlreadyListed) ==> emailError == Some(DuplicateEmail))
        && (r.Rejected? ==> emails == old(emails) && alarmTimers == old(alarmTimers)
                            && alarmEmailSent == old(alarmEmailSent))
      ensures var r := Recipients.Add(old(emails), input);
        var e := AlarmEffect(hasFear, isRhythmicClapping, old(alarmEmailSent), |emails|);
        r.Added? ==> (alarmEmailSent == e.latch
          && alarmTimers == old(alarmTimers) + (if e.schedule then [AlarmTimer(now + AlarmSendDelay, emails)] else []))
      ensures hasFear == old(hasFear) && isRhythmicClapping == old(isRhythmicClapping)
      ensures isSending == old(isSending) && lastEmailSendTime == old(lastEmailSendTime)
      ensures inFlight == old(inFlight)
    {
      var r := Recipients.Add(emails, input);
      match r {
        case Added(list) =>
          Recipients.AddKeepsNormalized(emails, input);
          emails := list;
          emailError := None;
          RunAlarmEffect(now);
        case Rejected(error) =>
          emailError := Some(match error
            case EmptyAddress => EmptyEmail
            case InvalidAddress => InvalidEmail
            case AlreadyListed => DuplicateEmail);
      }
    }

    /** `handleRemoveEmail`; the new list re-runs the alarm effect. */
    method RemoveEmail(e: string, now: int)
      requires Valid()
      modifies this
      ensures Valid()
      ensures emails == Recipients.Remove(old(emails), e)
      ensures var r := AlarmEffect(hasFear, isRhythmicClapping, old(alarmEmailSent), |emails|);
        alarmEmailSent == r.latch && !r.schedule && alarmTimers == old(alarmTimers)
      ensures emailError == old(emailError) && isSending == old(isSending)
      ensures lastEmailSendTime == old(lastEmailSendTime) && inFlight == old(inFlight)
      ensures hasFear == old(hasFear) && isRhythmicClapping == old(isRhythmicClapping)
    {
      Recipients.RemoveKeepsNormalized(emails, e);
      emails := Recipients.Remove(emails, e);
      RunAlarmEffect(now);
    }

    /** The send button's state at time `now`. */
    function SendDisabled(now: int): (r: bool)
      reads this
      ensures !r ==> !isSending && SendCheck(false, now, lastEmailSendTime, true, |emails|, true).None?
    {
      SendButtonDisabled(isSending, |emails|, now, lastEmailSendTime)
    }

    /** `sendScreenshotEmail` up to the start of delivery, for the given
        recipient list. A refused send shows its notice and changes nothing
        else; a send that goes ahead clears the notice, marks the page as
        sending and records its start time. The cooldown is not advanced
        here. */
    method StartSend(isAlarm: bool, now: int, recipients: seq<string>, cameraReady: bool, canvasReady: bool)
      returns (started: bool)
      requires Valid()
      modifies this
      ensures Valid()
      ensures var check := SendCheck(isAlarm, now, old(lastEmailSendTime), cameraReady, |recipients|, canvasReady);
        && started == check.None?
        && emailError == check
        && isSending == (started || old(isSending))
        && inFlight == old(inFlight) + (if started then [now] else [])
      ensures lastEmailSendTime == old(lastEmailSendTime)
      ensures emails == old(emails) && alarmTimers == old(alarmTimers)
      ensures alarmEmailSent == old(alarmEmailSent) && isAlarmActive == old(isAlarmActive)
      ensures hasFear == old(hasFear) && isRhythmicClapping == old(isRhythmicClapping)
    {
      var check := SendCheck(isAlarm, now, lastEmailSendTime, cameraReady, |recipients|, canvasReady);
      emailError := check;
      started := check.None?;
      if started {
        isSending := true;
        inFlight := inFlight + [now];
      }
    }

    /** The send button: a manual send to the current list. */
    method SendScreenshot(now: int, cameraReady: bool, canvasReady: bool) returns (started: bool)
      requires Valid()
      modifies this
      ensures Valid()
      ensures var check := SendCheck(false, now, old(lastEmailSendTime), cameraReady, |emails|, canvasReady);
        && started == check.None?
        && emailError == check
        && isSending == (started || old(isSending))
        && inFlight == old(inFlight) + (if started then [now] else [])
      ensures lastEmailSendTime == old(lastEmailSendTime)
      ensures emails == old(emails) && alarmTimers == old(alarmTimers)
      ensures alarmEmailSent == old(alarmEmailSent) && isAlarmActive == old(isAlarmActive)
      ensures hasFear == old(hasFear) && isRhythmicClapping == old(isRhythmicClapping)
    {
      started := StartSend(false, now, emails, cameraReady, canvasReady);
    }

    /** The alarm timer `k` fires at time `now` and makes an alarm send to the
        list it was scheduled with; that list is never empty, so only the
        camera or the drawing context can stop it. */
    method FireAlarmTimer(k: nat, now: int, cameraReady: bool, canvasReady: bool)
      returns (started: bool)
      requires Valid() && k < |alarmTimers|
      modifies this
      ensures Valid()
      ensures alarmTimers == old(alarmTimers[..k] + alarmTimers[k + 1..])
      ensures started <==> cameraReady && canvasReady
      ensures emailError == SendCheck(true, now, old(lastEmailSendTime), cameraReady,
                                      |old(alarmTimers[k].recipients)|, canvasReady)
      ensures isSending == (started || old(isSending))
      ensures inFlight == old(inFlight) + (if started then [now] else [])
      ensures lastEmailSendTime == old(lastEmailSendTime) && emails == old(emails)
      ensures alarmEmailSent == old(alarmEmailSent) && isAlarmActive == old(isAlarmActive)
      ensures hasFear == old(hasFear) && isRhythmicClapping == old(isRhythmicClapping)
    {
      var timer := alarmTimers[k];
      alarmTimers := alarmTimers[..k] + alarmTimers[k + 1..];
      started := StartSend(true, now, timer.recipients, cameraReady, canvasReady);
    }

    /** The in-flight send `k` reports. On delivery the cooldown restarts from
        that send's start time; on failure it is left as it was and the error
        is shown. Either way the page stops showing "sending". */
    method CompleteSend(k: nat, delivered: bool, message: string)
      requires Valid() && k < |inFlight|
      modifies this
      ensures Valid()
      ensures !isSending
      ensures inFlight == old(inFlight[..k] + inFlight[k + 1..])
      ensures delivered ==> lastEmailSendTime == old(inFlight[k]) && emailError == old(emailError)
      ensures !delivered ==> (lastEmailSendTime == old(lastEmailSendTime)
                              && emailError == Some(DeliveryError(FailureText(message))))
      ensures emails == old(emails) && alarmTimers == old(alarmTimers)
      ensures alarmEmailSent == old(alarmEmailSent) && isAlarmActive == old(isAlarmActive)
      ensures hasFear == old(hasFear) && isRhythmicClapping == old(isRhythmicClapping)
    {
      var startedAt := inFlight[k];
      if delivered {
        lastEmailSendTime := startedAt;
      } else {
        emailError := Some(DeliveryError(FailureText(message)));
      }
      isSending := false;
      inFlight := inFlight[..k] + inFlight[k + 1..];
    }
  }
}
