/** The per-frame step of hooks/useClappingDetection.ts (`detectClap`): the
    loudness test, the 200 ms cooldown, the append-and-evict update of the
    clap window, the rhythm test, and the two transient flags with their
    auto-clear timers.

    Timers are explicit: each flag carries the due times of the clears that
    are pending for it, and `Tick(now)` fires every clear that is due. As in
    the source, every clap adds one more 300 ms clear of the clap indicator
    and every rhythmic verdict one more 2000 ms clear of the rhythmic flag;
    no pending clear is ever cancelled. `SampleRearmed` is the step with the
    2000 ms hold re-armed by each verdict instead, which is what the hook's
    "keep the flag active for 2 seconds" intends (see
    `RaiseLetsOlderClearFire`). */
module ClapDetector {
  import opened Rhythm

  const ClapHold: int := 300
  const RhythmicHold: int := 2000

  // ---------------------------------------------------------------------
  // Transient flags and their clear timers
  // ---------------------------------------------------------------------

  /** A transient flag and the due times of the timers that will clear it. */
  datatype Indicator = Indicator(on: bool, clears: seq<int>)

  /** Sets the flag and schedules one more clear; clears already pending stay
      pending, as with `setTimeout`. */
  function Raise(f: Indicator, due: int): Indicator
  {
    Indicator(true, f.clears + [due])
  }

  /** Sets the flag and replaces any pending clear by one at `due`. */
  function Rearm(f: Indicator, due: int): Indicator
  {
    Indicator(true, [due])
  }

  /** Clears the flag at once; the pending timers are left alone. */
  function Drop(f: Indicator): Indicator
  {
    Indicator(false, f.clears)
  }

  /** The due times still in the future, in order. */
  function Later(ds: seq<int>, now: int): (r: seq<int>)
    ensures forall d :: d in r <==> d in ds && d > now
    ensures |r| <= |ds|
    ensures |r| == |ds| <==> forall i :: 0 <= i < |ds| ==> ds[i] > now
  {
    if ds == [] then []
    else
      var rest := Later(ds[1..], now);
      assert (forall i :: 0 <= i < |ds| ==> ds[i] > now)
         <==> ds[0] > now && forall i :: 0 <= i < |ds[1..]| ==> ds[1..][i] > now;
      (if ds[0] > now then [ds[0]] else []) + rest
  }

  /** Every clear due at or before `now` fires (each one sets the flag to
      false) and is no longer pending. */
  function Fire(f: Indicator, now: int): (r: Indicator)
    ensures r.on <==> f.on && forall i :: 0 <= i < |f.clears| ==> f.clears[i] > now
    ensures forall d :: d in r.clears <==> d in f.clears && d > now
  {
    Indicator(f.on && |Later(f.clears, now)| == |f.clears|, Later(f.clears, now))
  }

  // ---------------------------------------------------------------------
  // Detector state and one step
  // ---------------------------------------------------------------------

  /** `lastClapTimeRef`, `clapTimestampsRef`, `clapCount`, and the flags
      `isClapping` and `isRhythmicClapping` with their pending clears. */
  datatype Detection = Detection(
    lastClapTime: int,
    window: seq<int>,
    clapCount: nat,
    clapping: Indicator,
    rhythmic: Indicator)

  function Initial(): Detection
  {
    Detection(0, [], 0, Indicator(false, []), Indicator(false, []))
  }

  /** What every reachable state satisfies: the window is in time order with
      more than a cooldown between neighbours, ends with the last clap, holds
      only claps from the 4000 ms before it, and the count is its length. */
  predicate Consistent(s: Detection)
  {
    WindowOk(s.window, s.lastClapTime) && s.clapCount == |s.window|
  }

  /** A window of claps whose newest entry is `last`. */
  predicate WindowOk(w: seq<int>, last: int)
  {
    && Spaced(w)
    && (forall j :: 0 <= j < |w| ==> w[j] <= last && last - w[j] < RhythmicWindow)
    && (|w| > 0 ==> w[|w| - 1] == last)
  }

  /** A frame registers a clap when it is loud enough and strictly more than
      the cooldown has passed since the last clap. */
  predicate Registers(s: Detection, bins: seq<uint8>, now: int)
  {
    Loud(bins) && now - s.lastClapTime > ClapCooldown
  }

  /** The window of a state holds enough claps for a verdict, and the verdict
      is "rhythmic". */
  predicate RhythmicVerdict(s: Detection)
  {
    |s.window| >= RhythmicMinClaps && Rhythmic(s.window)
  }

  /** A registered clap at `now`: it joins the window, stale entries leave,
      the clap indicator is raised with one more clear 300 ms later and, with
      enough claps, the rhythm verdict is renewed; a rhythmic verdict adds one
      more clear 2000 ms later and leaves the earlier ones pending. */
  function Clap(s: Detection, now: int): (r: Detection)
    ensures r.lastClapTime == now && now in r.window && r.clapCount == |r.window|
    ensures r.clapping == Indicator(true, s.clapping.clears + [now + ClapHold])
    ensures s.rhythmic.clears <= r.rhythmic.clears
  {
    var w := Evict(s.window + [now], now);
    Detection(
      now, w, |w|,
      Raise(s.clapping, now + ClapHold),
      if |w| < RhythmicMinClaps then s.rhythmic
      else if Rhythmic(w) then Raise(s.rhythmic, now + RhythmicHold)
      else Drop(s.rhythmic))
  }

  /** One analysed frame. Without a clap nothing changes; a clap comes more
      than a cooldown after the previous one; no pending clear is cancelled. */
  function Sample(s: Detection, bins: seq<uint8>, now: int): (r: Detection)
    ensures !Registers(s, bins, now) ==> r == s
    ensures Registers(s, bins, now) ==> r.lastClapTime == now && now - s.lastClapTime > ClapCooldown
    ensures s.clapping.clears <= r.clapping.clears && s.rhythmic.clears <= r.rhythmic.clears
  {
    if Registers(s, bins, now) then Clap(s, now) else s
  }

  /** The pending clears due by `now` fire. They only ever turn a flag off and
      leave the window alone. */
  function Tick(s: Detection, now: int): (r: Detection)
    ensures r.lastClapTime == s.lastClapTime && r.window == s.window && r.clapCount == s.clapCount
    ensures (r.clapping.on ==> s.clapping.on) && (r.rhythmic.on ==> s.rhythmic.on)
    ensures |r.clapping.clears| <= |s.clapping.clears| && |r.rhythmic.clears| <= |s.rhythmic.clears|
  {
    s.(clapping := Fire(s.clapping, now), rhythmic := Fire(s.rhythmic, now))
  }

  /** The intended clap step: a rhythmic verdict re-arms the flag, so that its
      only pending clear is 2000 ms after the latest verdict. Everything else
      is as in `Clap`. */
  function ClapRearmed(s: Detection, now: int): (r: Detection)
    ensures var c := Clap(s, now);
      && r.lastClapTime == c.lastClapTime && r.window == c.window
      && r.clapCount == c.clapCount && r.clapping == c.clapping
    ensures RhythmicVerdict(r) ==> r.rhythmic == Indicator(true, [now + RhythmicHold])
    ensures !RhythmicVerdict(r) ==> r.rhythmic == Clap(s, now).rhythmic
  {
    var c := Clap(s, now);
    if RhythmicVerdict(c) then c.(rhythmic := Rearm(s.rhythmic, now + RhythmicHold)) else c
  }

  /** One analysed frame with the re-armed rhythmic clear. */
  function SampleRearmed(s: Detection, bins: seq<uint8>, now: int): (r: Detection)
    ensures var c := Sample(s, bins, now);
      && r.lastClapTime == c.lastClapTime && r.window == c.window
      && r.clapCount == c.clapCount && r.clapping == c.clapping
  {
    if Registers(s, bins, now) then ClapRearmed(s, now) else s
  }

  /** A frame whose clap gives a rhythmic verdict adds a clear at now + 2000
      to the pending ones as written, and leaves only that one re-armed. */
  lemma VerdictClears(s: Detection, bins: seq<uint8>, now: int)
    requires Registers(s, bins, now) && RhythmicVerdict(Sample(s, bins, now))
    ensures Sample(s, bins, now).rhythmic == Indicator(true, s.rhythmic.clears + [now + RhythmicHold])
    ensures SampleRearmed(s, bins, now).rhythmic == Indicator(true, [now + RhythmicHold])
  {
    assert Sample(s, bins, now) == Clap(s, now);
    assert SampleRearmed(s, bins, now) == ClapRearmed(s, now);
  }

  /** Two states that differ at most in the rhythmic flag register the same
      claps and reach the same window. */
  lemma SameWindowStep(s: Detection, r: Detection, bins: seq<uint8>, now: int)
    requires r.lastClapTime == s.lastClapTime && r.window == s.window
    requires r.clapCount == s.clapCount && r.clapping == s.clapping
    ensures Registers(r, bins, now) == Registers(s, bins, now)
    ensures SampleRearmed(r, bins, now).window == Sample(s, bins, now).window
  {
  }

  /** As written: two rhythmic verdicts at t1 < t2 leave the first verdict's
      clear pending, and it turns the flag off at t1 + 2000, before the
      latest verdict is 2000 ms old. Re-armed, the flag is still on then. */
  lemma RaiseLetsOlderClearFire(s: Detection, b1: seq<uint8>, t1: int, b2: seq<uint8>, t2: int)
    requires Registers(s, b1, t1) && RhythmicVerdict(Sample(s, b1, t1))
    requires Registers(Sample(s, b1, t1), b2, t2) && RhythmicVerdict(Sample(Sample(s, b1, t1), b2, t2))
    ensures var s2 := Sample(Sample(s, b1, t1), b2, t2);
      s2.rhythmic.on && !Tick(s2, t1 + RhythmicHold).rhythmic.on && t1 + RhythmicHold < t2 + RhythmicHold
    ensures Tick(SampleRearmed(SampleRearmed(s, b1, t1), b2, t2), t1 + RhythmicHold).rhythmic.on
  {
    var s1 := Sample(s, b1, t1);
    var r1 := SampleRearmed(s, b1, t1);
    VerdictClears(s, b1, t1);
    VerdictClears(s1, b2, t2);
    var c := s1.rhythmic.clears + [t2 + RhythmicHold];
    assert c[|s.rhythmic.clears|] == t1 + RhythmicHold;
    SameWindowStep(s1, r1, b2, t2);
    VerdictClears(r1, b2, t2);
  }

  /** Re-armed: after a rhythmic verdict at `now`, the flag is on at any
      later time `t` exactly while t < now + 2000. */
  lemma RearmHoldsForTwoSeconds(s: Detection, bins: seq<uint8>, now: int, t: int)
    requires Registers(s, bins, now) && RhythmicVerdict(Sample(s, bins, now))
    requires now <= t
    ensures Tick(SampleRearmed(s, bins, now), t).rhythmic.on <==> t < now + RhythmicHold
  {
    VerdictClears(s, bins, now);
  }

  lemma InitialConsistent()
    ensures Consistent(Initial()) && !Initial().rhythmic.on && !Initial().clapping.on
  {
  }

  /** Appending a clap more than a cooldown after the newest entry and
      evicting gives a window whose newest entry is the new clap; it is a
      suffix of the old window followed by the new clap. */
  lemma {:induction false} AdvanceWindow(w: seq<int>, last: int, now: int)
    requires WindowOk(w, last) && now - last > ClapCooldown
    ensures WindowOk(Evict(w + [now], now), now)
    ensures StaleCount(w + [now], now) <= |w|
    ensures Evict(w + [now], now) == (w + [now])[StaleCount(w + [now], now)..]
  {
    var v := w + [now];
    forall i | 0 < i < |v| ensures v[i] - v[i - 1] > ClapCooldown {
      if i < |v| - 1 {
        assert v[i] == w[i] && v[i - 1] == w[i - 1];
      }
    }
    EvictIsSuffix(v, now);
    var k := StaleCount(v, now);
    assert k < |v| by {
      assert now - v[|v| - 1] < RhythmicWindow;
    }
    var r := Evict(v, now);
    assert r == v[k..];
    forall j | 0 <= j < |r|
      ensures r[j] <= now && now - r[j] < RhythmicWindow
    {
      assert r[j] == v[k + j];
      assert r[j] in r;
      if k + j < |w| {
        assert v[k + j] == w[k + j];
      }
    }
  }

  /** Every step keeps the state consistent. */
  lemma SampleKeepsConsistent(s: Detection, bins: seq<uint8>, now: int)
    requires Consistent(s)
    ensures Consistent(Sample(s, bins, now))
  {
    if Registers(s, bins, now) {
      AdvanceWindow(s.window, s.lastClapTime, now);
    }
  }

  lemma TickKeepsConsistent(s: Detection, now: int)
    requires Consistent(s)
    ensures Consistent(Tick(s, now))
    ensures Tick(s, now).window == s.window && Tick(s, now).lastClapTime == s.lastClapTime
  {
  }

  /** What one frame does. Without a clap nothing changes. With a clap the last
      clap time becomes `now`, the window is what remains of the old window
      plus `now` after dropping its oldest entries, `now` itself is kept as the
      newest entry, every entry is younger than 4000 ms, the count is the
      window's length, and the clap flag is set with a clear due 300 ms later.
      The rhythmic flag is left alone below three claps; from three claps on
      it is the verdict of the variance test, and a rhythmic verdict adds a
      clear 2000 ms later to those already pending. */
  lemma ClapStep(s: Detection, bins: seq<uint8>, now: int)
    requires Consistent(s)
    ensures var r := Sample(s, bins, now);
      && (!Registers(s, bins, now) ==> r == s)
      && (Registers(s, bins, now) ==>
            && r.lastClapTime == now
            && |r.window| > 0 && r.window[|r.window| - 1] == now
            && (exists k :: 0 <= k <= |s.window| && r.window == (s.window + [now])[k..])
            && (forall j :: 0 <= j < |r.window| ==> now - r.window[j] < RhythmicWindow)
            && r.clapCount == |r.window|
            && r.clapping.on && r.clapping.clears == s.clapping.clears + [now + ClapHold]
            && (|r.window| < RhythmicMinClaps ==> r.rhythmic == s.rhythmic)
            && (|r.window| >= RhythmicMinClaps ==> r.rhythmic.on == Rhythmic(r.window))
            && (|r.window| >= RhythmicMinClaps && Rhythmic(r.window) ==>
                  r.rhythmic.clears == s.rhythmic.clears + [now + RhythmicHold])
            && (|r.window| >= RhythmicMinClaps && !Rhythmic(r.window) ==>
                  r.rhythmic.clears == s.rhythmic.clears))
  {
    if Registers(s, bins, now) {
      AdvanceWindow(s.window, s.lastClapTime, now);
      var k := StaleCount(s.window + [now], now);
      assert Sample(s, bins, now).window == (s.window + [now])[k..];
    }
  }

  /** The window never holds more than 20 timestamps. */
  lemma WindowBound(s: Detection)
    requires Consistent(s)
    ensures |s.window| <= 20 && s.clapCount <= 20
  {
    WindowAtMostTwenty(s.window, s.lastClapTime);
  }

  // ---------------------------------------------------------------------
  // Runs of frames
  // ---------------------------------------------------------------------

  datatype Frame = Frame(bins: seq<uint8>, time: int)

  /** The times of the claps registered along a run of frames. */
  function Claps(s: Detection, frames: seq<Frame>): seq<int>
    decreases |frames|
  {
    if frames == [] then []
    else
      var f := frames[0];
      (if Registers(s, f.bins, f.time) then [f.time] else [])
        + Claps(Sample(s, f.bins, f.time), frames[1..])
  }

  lemma {:induction false} ClapsSpaced(s: Detection, frames: seq<Frame>, t0: int, t1: int)
    requires forall i :: 0 <= i < |frames| ==> t0 <= frames[i].time <= t1
    ensures var c := Claps(s, frames);
      Spaced(c) && forall j :: 0 <= j < |c| ==> t0 <= c[j] <= t1 && c[j] - s.lastClapTime > ClapCooldown
    decreases |frames|
  {
    if frames != [] {
      var f := frames[0];
      var s' := Sample(s, f.bins, f.time);
      ClapsSpaced(s', frames[1..], t0, t1);
      var rest := Claps(s', frames[1..]);
      assert Claps(s, frames) == (if Registers(s, f.bins, f.time) then [f.time] else []) + rest;
    }
  }

  /** Over any run of frames whose times lie in [t0, t1], at most
      (t1 - t0) / 200 + 1 claps are registered. */
  lemma ClapRateBound(s: Detection, frames: seq<Frame>, t0: int, t1: int)
    requires t0 <= t1
    requires forall i :: 0 <= i < |frames| ==> t0 <= frames[i].time <= t1
    ensures |Claps(s, frames)| <= (t1 - t0) / ClapCooldown + 1
  {
    var c := Claps(s, frames);
    ClapsSpaced(s, frames, t0, t1);
    if |c| > 0 {
      SpacedGrowth(c, 0, |c| - 1);
      assert (ClapCooldown + 1) * (|c| - 1) == 201 * (|c| - 1);
      assert 200 * (|c| - 1) <= t1 - t0;
      assert t1 - t0 < 200 * ((t1 - t0) / 200 + 1);
      assert |c| - 1 <= (t1 - t0) / 200;
      assert (t1 - t0) / ClapCooldown == (t1 - t0) / 200;
    }
  }

  // ---------------------------------------------------------------------
  // The hook's state as an object
  // ---------------------------------------------------------------------

  class Detector {
    var lastClapTime: int
    var clapTimestamps: seq<int>
    var clapCount: nat
    var isClapping: bool
    var clappingClears: seq<int>
    var isRhythmicClapping: bool
    var rhythmicClears: seq<int>

    function State(): Detection
      reads this
    {
      Detection(lastClapTime, clapTimestamps, clapCount,
                Indicator(isClapping, clappingClears),
                Indicator(isRhythmicClapping, rhythmicClears))
    }

    predicate Valid()
      reads this
    {
      Consistent(State())
    }

    constructor ()
      ensures Valid() && State() == Initial()
    {
      lastClapTime := 0;
      clapTimestamps := [];
      clapCount := 0;
      isClapping, clappingClears := false, [];
      isRhythmicClapping, rhythmicClears := false, [];
    }

    /** One analysed frame: the bins lo .. hi-1 of the analyser's frequency
        data at time `now`. Returns whether a clap was registered. */
    method OnFrame(data: array<uint8>, lo: nat, hi: nat, now: int) returns (clap: bool)
      requires Valid() && lo <= hi <= data.Length
      modifies this
      ensures Valid()
      ensures clap == Registers(old(State()), data[lo..hi], now)
      ensures State() == Sample(old(State()), data[lo..hi], now)
      ensures clapCount == |clapTimestamps| <= 20
    {
      ghost var s := State();
      ghost var bins := data[lo..hi];
      var sum, max := BandLevel(data, lo, hi);
      var isLoudEnough := sum > ClapThreshold * (hi - lo) || max > ClapThreshold + PeakMargin;
      assert isLoudEnough == Loud(bins) by {
        assert |bins| == hi - lo;
      }
      clap := isLoudEnough && now - lastClapTime > ClapCooldown;
      if clap {
        RegisterClap(now);
      }
      assert State() == Sample(s, bins, now);
      assert data[lo..hi] == bins;
      SampleKeepsConsistent(s, bins, now);
      WindowBound(State());
    }

    /** The clap branch of the frame handler: push, evict, count, raise the
        clap indicator, and run the rhythm test on three claps or more. */
    method RegisterClap(now: int)
      modifies this
      ensures State() == Clap(old(State()), now)
    {
      var stamps := Evict(clapTimestamps + [now], now);
      var verdict := Indicator(isRhythmicClapping, rhythmicClears);
      if |stamps| >= RhythmicMinClaps {
        var rhythmic := RhythmTest(stamps);
        verdict := if rhythmic then Raise(verdict, now + RhythmicHold) else Drop(verdict);
      }
      isClapping, clappingClears := true, clappingClears + [now + ClapHold];
      lastClapTime, clapTimestamps, clapCount := now, stamps, |stamps|;
      isRhythmicClapping, rhythmicClears := verdict.on, verdict.clears;
    }

    /** The clear timers due by `now` fire. */
    method OnTimers(now: int)
      requires Valid()
      modifies this
      ensures Valid()
      ensures State() == Tick(old(State()), now)
    {
      var c := Fire(Indicator(isClapping, clappingClears), now);
      var r := Fire(Indicator(isRhythmicClapping, rhythmicClears), now);
      isClapping, clappingClears := c.on, c.clears;
      isRhythmicClapping, rhythmicClears := r.on, r.clears;
    }
  }
}
