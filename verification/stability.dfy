/** The frame stability filter with its one-shot latch, shared by both camera
    screens: each reading either extends the current run of identical readings
    or starts a new one, and the first time a run reaches the threshold while
    the latch is clear the latch is set and the reading is emitted, once. The
    back button sets the same latch without emitting anything. */
module Stability {
  import opened Wrappers

  /** Identical consecutive readings needed before a result is accepted. */
  const Threshold: int := 3

  /** Bounds of Kotlin's 32-bit `Int`, the type of the run counter. */
  const IntMax: int := 0x7fff_ffff
  const IntMin: int := -0x8000_0000

  /** `stableCount.value++` on a Kotlin `Int`: the largest value wraps to the
      smallest. */
  function Inc32(c: int): (r: int)
    ensures IntMin <= c <= IntMax ==> IntMin <= r <= IntMax
    ensures c < IntMax ==> r == c + 1
    ensures IntMin <= c <= IntMax ==> r == (c + 1 - IntMin) % 0x1_0000_0000 + IntMin
  {
    if c == IntMax then IntMin else c + 1
  }

  /** The three values a camera screen remembers: the last reading, the
      length of the current run and the latch (`hasNavigatedBack`). */
  datatype FilterState = FilterState(lastResult: string, stableCount: int, hasNavigatedBack: bool)

  /** The state a screen starts with. */
  const Initial: FilterState := FilterState("", 0, false)

  /** One thing that can happen to a screen: a frame that yields a reading, a
      frame that yields none (no image, a failed recognition, no candidate),
      or a press of the back button. */
  datatype Event = Reading(value: string) | NoReading | BackPressed

  /** The state after an event, and the value written to the result slot by
      it, if any. */
  datatype Outcome = Outcome(state: FilterState, emitted: Option<string>)

  /** The listener's counter and latch update for one reading. */
  function Step(s: FilterState, v: string): (o: Outcome)
    ensures o.state.lastResult == v
    ensures v == s.lastResult ==> o.state.stableCount == Inc32(s.stableCount)
    ensures v != s.lastResult ==> o.state.stableCount == 1
    ensures o.emitted.Some? <==> o.state.stableCount >= Threshold && !s.hasNavigatedBack
    ensures o.emitted.Some? ==> o.emitted.value == v
    ensures o.state.hasNavigatedBack <==> s.hasNavigatedBack || o.emitted.Some?
  {
    var count := if v == s.lastResult then Inc32(s.stableCount) else 1;
    if count >= Threshold && !s.hasNavigatedBack then
      Outcome(FilterState(v, count, true), Some(v))
    else
      Outcome(FilterState(v, count, s.hasNavigatedBack), None)
  }

  /** The back button's click handler: set the latch if it is clear. */
  function Back(s: FilterState): (r: FilterState)
    ensures r.hasNavigatedBack
    ensures r.lastResult == s.lastResult && r.stableCount == s.stableCount
    ensures s.hasNavigatedBack ==> r == s
  {
    if !s.hasNavigatedBack then s.(hasNavigatedBack := true) else s
  }

  /** One event. Only a reading can emit. */
  function Apply(s: FilterState, e: Event): Outcome {
    match e
    case Reading(v) => Step(s, v)
    case NoReading => Outcome(s, None)
    case BackPressed => Outcome(Back(s), None)
  }

  function Front<T>(xs: seq<T>): seq<T>
    requires |xs| > 0
  {
    xs[..|xs| - 1]
  }

  function Last<T>(xs: seq<T>): T
    requires |xs| > 0
  {
    xs[|xs| - 1]
  }

  /** The state after the events, delivered one after the other. */
  function Final(s: FilterState, evs: seq<Event>): FilterState
    decreases |evs|
  {
    if |evs| == 0 then s else Apply(Final(s, Front(evs)), Last(evs)).state
  }

  /** What each event emitted, event by event. */
  function Trace(s: FilterState, evs: seq<Event>): (r: seq<Option<string>>)
    ensures |r| == |evs|
    decreases |evs|
  {
    if |evs| == 0 then []
    else Trace(s, Front(evs)) + [Apply(Final(s, Front(evs)), Last(evs)).emitted]
  }

  /** The values emitted, in order. */
  function Emissions(s: FilterState, evs: seq<Event>): seq<string>
    decreases |evs|
  {
    if |evs| == 0 then []
    else
      var o := Apply(Final(s, Front(evs)), Last(evs));
      Emissions(s, Front(evs)) + (if o.emitted.Some? then [o.emitted.value] else [])
  }

  // ---------------------------------------------------------------------------
  // Folds over concatenated event sequences.

  lemma FrontOfAppend<T>(a: seq<T>, b: seq<T>)
    requires |b| > 0
    ensures Front(a + b) == a + Front(b) && Last(a + b) == Last(b)
  {
    assert (a + b)[..|a + b| - 1] == a + b[..|b| - 1];
  }

  /** Delivering `a` and then `b` is delivering `a + b`. */
  lemma {:induction false} FinalAppend(s: FilterState, a: seq<Event>, b: seq<Event>)
    ensures Final(s, a + b) == Final(Final(s, a), b)
    decreases |b|
  {
    if |b| == 0 {
      assert a + b == a;
    } else {
      FrontOfAppend(a, b);
      FinalAppend(s, a, Front(b));
    }
  }

  /** The emissions of `a + b` are those of `a` followed by those of `b` from
      where `a` left the filter. */
  lemma {:induction false} EmissionsAppend(s: FilterState, a: seq<Event>, b: seq<Event>)
    ensures Emissions(s, a + b) == Emissions(s, a) + Emissions(Final(s, a), b)
    decreases |b|
  {
    if |b| == 0 {
      assert a + b == a;
    } else {
      FrontOfAppend(a, b);
      EmissionsAppend(s, a, Front(b));
      FinalAppend(s, a, Front(b));
    }
  }

  /** Event `k` of the trace is what event `k` emitted from the state the
      events before it left. */
  lemma {:induction false} TraceAt(s: FilterState, evs: seq<Event>, k: nat)
    requires k < |evs|
    ensures Trace(s, evs)[k] == Apply(Final(s, evs[..k]), evs[k]).emitted
    decreases |evs|
  {
    if k < |evs| - 1 {
      TraceAt(s, Front(evs), k);
      assert Front(evs)[..k] == evs[..k];
    } else {
      assert Front(evs) == evs[..k];
    }
  }

  // ---------------------------------------------------------------------------
  // The latch.

  /** Once the latch is set it stays set and nothing more is emitted, though
      the last reading and the counter keep following the readings. */
  lemma {:induction false} LatchHolds(s: FilterState, evs: seq<Event>)
    requires s.hasNavigatedBack
    ensures Final(s, evs).hasNavigatedBack
    ensures Emissions(s, evs) == []
    decreases |evs|
  {
    if |evs| > 0 {
      LatchHolds(s, Front(evs));
    }
  }

  /** Whatever the events, at most one value is emitted, none once the latch
      is set, and an emission leaves the latch set. */
  lemma {:induction false} AtMostOneEmission(s: FilterState, evs: seq<Event>)
    ensures |Emissions(s, evs)| <= 1
    ensures s.hasNavigatedBack ==> Emissions(s, evs) == []
    ensures |Emissions(s, evs)| == 1 ==> Final(s, evs).hasNavigatedBack
    decreases |evs|
  {
    if s.hasNavigatedBack {
      LatchHolds(s, evs);
    } else if |evs| > 0 {
      AtMostOneEmission(s, Front(evs));
    }
  }

  /** A frame without a reading is as if it had not happened. */
  lemma NoReadingIsSilent(s: FilterState, before: seq<Event>, after: seq<Event>)
    ensures Final(s, before + [NoReading] + after) == Final(s, before + after)
    ensures Emissions(s, before + [NoReading] + after) == Emissions(s, before + after)
  {
    FinalAppend(s, before + [NoReading], after);
    FinalAppend(s, before, [NoReading]);
    FinalAppend(s, before, after);
    EmissionsAppend(s, before + [NoReading], after);
    EmissionsAppend(s, before, [NoReading]);
    EmissionsAppend(s, before, after);
    var t := Final(s, before);
    assert Final(t, [NoReading]) == t && Emissions(t, [NoReading]) == [] by {
      assert Front([NoReading]) == [];
    }
  }

  /** An emitted value is the reading of the event that emitted it. */
  lemma EmittedIsReading(s: FilterState, evs: seq<Event>, k: nat)
    requires k < |evs| && Trace(s, evs)[k].Some?
    ensures evs[k].Reading? && Trace(s, evs)[k].value == evs[k].value
  {
    TraceAt(s, evs, k);
  }

  /** After the back button nothing more is emitted, and pressing it again
      changes nothing. */
  lemma BackSuppresses(s: FilterState, before: seq<Event>, after: seq<Event>)
    ensures Emissions(s, before + [BackPressed] + after) == Emissions(s, before)
    ensures Final(s, before + [BackPressed, BackPressed]) == Final(s, before + [BackPressed])
  {
    EmissionsAppend(s, before + [BackPressed], after);
    EmissionsAppend(s, before, [BackPressed]);
    var t := Final(s, before + [BackPressed]);
    FinalAppend(s, before, [BackPressed]);
    assert Final(s, before + [BackPressed]) == Back(Final(s, before));
    LatchHolds(t, after);
    assert before + [BackPressed, BackPressed] == (before + [BackPressed]) + [BackPressed];
    FinalAppend(s, before + [BackPressed], [BackPressed]);
  }

  // ---------------------------------------------------------------------------
  // Runs of identical readings.

  /** `n` frames that all read `v`. */
  function Repeat(v: string, n: nat): (r: seq<Event>)
    ensures |r| == n && forall k :: 0 <= k < n ==> r[k] == Reading(v)
  {
    seq(n, _ => Reading(v))
  }

  /** The first reading after a screen opens always counts 1, even when it is
      the empty string the last result starts as. */
  lemma FirstReadingCountsOne(v: string)
    ensures Step(Initial, v).state == FilterState(v, 1, false)
    ensures Step(Initial, v).emitted == None
  {
  }

  /** A fresh run of identical readings, the latch clear, emits exactly on
      its third reading and at no other. */
  lemma {:induction false} FreshRunEmitsOnThird(s: FilterState, v: string, n: nat)
    requires !s.hasNavigatedBack
    requires v != s.lastResult || s.stableCount == 0
    ensures Trace(s, Repeat(v, n)) == seq(n, k => if k == Threshold - 1 then Some(v) else None)
    ensures n >= 1 ==> Final(s, Repeat(v, n)).lastResult == v
    ensures 1 <= n < Threshold ==> Final(s, Repeat(v, n)) == FilterState(v, n, false)
    ensures n >= Threshold <==> Final(s, Repeat(v, n)).hasNavigatedBack
  {
    if n > 0 {
      FreshRunEmitsOnThird(s, v, n - 1);
      assert Front(Repeat(v, n)) == Repeat(v, n - 1);
      var t := Trace(s, Repeat(v, n));
      var e := seq(n, k => if k == Threshold - 1 then Some(v) else None);
      forall k | 0 <= k < n ensures t[k] == e[k] {
        if k < n - 1 {
          assert t[k] == Trace(s, Repeat(v, n - 1))[k];
        }
      }
    }
  }

  /** What a fresh run of identical readings emits: its value once it is
      three readings long, nothing before. */
  lemma {:induction false} FreshRunEmissions(s: FilterState, v: string, n: nat)
    requires !s.hasNavigatedBack
    requires v != s.lastResult || s.stableCount == 0
    ensures Emissions(s, Repeat(v, n)) == if n >= Threshold then [v] else []
  {
    if n > 0 {
      FreshRunEmissions(s, v, n - 1);
      assert Front(Repeat(v, n)) == Repeat(v, n - 1);
      FreshRunEmitsOnThird(s, v, n - 1);
      if n - 1 == 0 {
        assert Final(s, Repeat(v, 0)) == s;
      }
    }
  }

  /** Every emitted value shows up in the trace at the event that emitted it. */
  lemma {:induction false} EmissionsInTrace(s: FilterState, evs: seq<Event>)
    ensures forall v :: v in Emissions(s, evs) ==>
      exists k :: 0 <= k < |evs| && Trace(s, evs)[k] == Some(v)
    decreases |evs|
  {
    if |evs| > 0 {
      EmissionsInTrace(s, Front(evs));
      forall v | v in Emissions(s, evs)
        ensures exists k :: 0 <= k < |evs| && Trace(s, evs)[k] == Some(v)
      {
        if v in Emissions(s, Front(evs)) {
          var k :| 0 <= k < |Front(evs)| && Trace(s, Front(evs))[k] == Some(v);
          assert Trace(s, evs)[k] == Some(v);
        } else {
          assert Trace(s, evs)[|evs| - 1] == Some(v);
        }
      }
      assert forall v :: v in Emissions(s, evs) ==> exists k :: 0 <= k < |evs| && Trace(s, evs)[k] == Some(v);
    } else {
      assert Emissions(s, evs) == [];
    }
  }

  /** Conversely, whatever the trace shows at an event is among the
      emissions. */
  lemma {:induction false} TraceInEmissions(s: FilterState, evs: seq<Event>, k: nat)
    requires k < |evs| && Trace(s, evs)[k].Some?
    ensures Trace(s, evs)[k].value in Emissions(s, evs)
    decreases |evs|
  {
    if k < |evs| - 1 {
      TraceInEmissions(s, Front(evs), k);
      assert Trace(s, evs)[k] == Trace(s, Front(evs))[k];
    }
  }

  /** The example of a barcode read on three frames in a row. */
  lemma ExampleThreeFrames()
    ensures Trace(Initial, Repeat("4912345678904", 3)) == [None, None, Some("4912345678904")]
    ensures Emissions(Initial, Repeat("4912345678904", 3)) == ["4912345678904"]
  {
    FreshRunEmitsOnThird(Initial, "4912345678904", 3);
    FreshRunEmissions(Initial, "4912345678904", 3);
  }

  // ---------------------------------------------------------------------------
  // A reference description of the filter in terms of the readings alone.

  /** The readings among the events, in order. */
  function Readings(evs: seq<Event>): (r: seq<string>)
    ensures |r| <= |evs|
    decreases |evs|
  {
    if |evs| == 0 then []
    else Readings(Front(evs)) + (if Last(evs).Reading? then [Last(evs).value] else [])
  }

  /** The last reading, or the empty string the screen starts with. */
  function LastReading(rs: seq<string>): string {
    if |rs| == 0 then "" else Last(rs)
  }

  /** Length of the longest suffix of `rs` whose elements are all equal. */
  function TrailingRun(rs: seq<string>): (r: nat)
    ensures r <= |rs| && (|rs| > 0 ==> r >= 1)
    ensures forall k :: |rs| - r <= k < |rs| ==> rs[k] == rs[|rs| - 1]
    ensures 0 < r < |rs| ==> rs[|rs| - r - 1] != rs[|rs| - 1]
    decreases |rs|
  {
    if |rs| == 0 then 0
    else if |rs| >= 2 && rs[|rs| - 2] == rs[|rs| - 1] then TrailingRun(Front(rs)) + 1
    else 1
  }

  /** The threshold is reached exactly when the last three readings agree. */
  lemma {:induction false} RunReachesThreshold(rs: seq<string>)
    ensures TrailingRun(rs) >= Threshold <==>
      |rs| >= 3 && rs[|rs| - 1] == rs[|rs| - 2] && rs[|rs| - 2] == rs[|rs| - 3]
  {
    if |rs| >= 3 && rs[|rs| - 1] == rs[|rs| - 2] && rs[|rs| - 2] == rs[|rs| - 3] {
      var f := Front(rs);
      assert f[|f| - 1] == f[|f| - 2];
      assert TrailingRun(f) >= 2;
    }
  }

  /** The events end with a reading that completes a run of the threshold's
      length. */
  predicate Stable(evs: seq<Event>) {
    |evs| > 0 && Last(evs).Reading? && TrailingRun(Readings(evs)) >= Threshold
  }

  /** Some prefix of the events ends with the back button or with a stable
      reading: the screen is done. */
  predicate Ended(evs: seq<Event>)
    decreases |evs|
  {
    |evs| > 0 && (Ended(Front(evs)) || Last(evs).BackPressed? || Stable(evs))
  }

  /** Whatever the latch, the last result is the most recent reading. */
  lemma {:induction false} LastResultFollowsReadings(s: FilterState, evs: seq<Event>)
    ensures Final(s, evs).lastResult == if |Readings(evs)| == 0 then s.lastResult else Last(Readings(evs))
    decreases |evs|
  {
    if |evs| > 0 {
      LastResultFollowsReadings(s, Front(evs));
      ReadingsSnoc(Front(evs), Last(evs));
      assert Front(evs) + [Last(evs)] == evs;
    }
  }

  /** The reading appended by one more event. */
  lemma ReadingsSnoc(evs: seq<Event>, e: Event)
    ensures Readings(evs + [e]) == Readings(evs) + (if e.Reading? then [e.value] else [])
    ensures Ended(evs + [e]) == (Ended(evs) || e.BackPressed? || Stable(evs + [e]))
  {
    FrontOfAppend(evs, [e]);
    assert Front(evs + [e]) == evs;
  }

  /** The run counter after extending the readings by one. */
  lemma TrailingRunSnoc(rs: seq<string>, v: string)
    ensures TrailingRun(rs + [v]) == if |rs| > 0 && Last(rs) == v then TrailingRun(rs) + 1 else 1
  {
    FrontOfAppend(rs, [v]);
    assert Front(rs + [v]) == rs;
  }

  /** From a fresh screen, the state is a function of the events alone: the
      last result is the last reading, the latch is set exactly when the
      screen is done, and until then the counter is the length of the current
      run of identical readings, which stays below the threshold, so the
      32-bit wrap of the counter can never decide an emission. */
  lemma {:induction false} FilterTracksReadings(evs: seq<Event>)
    ensures Final(Initial, evs).lastResult == LastReading(Readings(evs))
    ensures Final(Initial, evs).hasNavigatedBack == Ended(evs)
    ensures !Ended(evs) ==> Final(Initial, evs).stableCount == TrailingRun(Readings(evs)) < Threshold
    decreases |evs|
  {
    if |evs| > 0 {
      var p, e := Front(evs), Last(evs);
      assert evs == p + [e];
      FilterTracksReadings(p);
      TracksStep(p, e);
    }
  }

  /** The inductive step of `FilterTracksReadings`: one more event keeps the
      state in step with the reference. */
  lemma TracksStep(p: seq<Event>, e: Event)
    requires Final(Initial, p).lastResult == LastReading(Readings(p))
    requires Final(Initial, p).hasNavigatedBack == Ended(p)
    requires !Ended(p) ==> Final(Initial, p).stableCount == TrailingRun(Readings(p)) < Threshold
    ensures Final(Initial, p + [e]).lastResult == LastReading(Readings(p + [e]))
    ensures Final(Initial, p + [e]).hasNavigatedBack == Ended(p + [e])
    ensures !Ended(p + [e]) ==> Final(Initial, p + [e]).stableCount == TrailingRun(Readings(p + [e])) < Threshold
  {
    var evs := p + [e];
    FrontOfAppend(p, [e]);
    assert Front(evs) == p && Last(evs) == e;
    var s := Final(Initial, p);
    assert Final(Initial, evs) == Apply(s, e).state;
    ReadingsSnoc(p, e);
    match e
    case Reading(v) =>
      TrailingRunSnoc(Readings(p), v);
      assert Readings(evs) == Readings(p) + [v];
      assert Last(Readings(evs)) == v;
    case NoReading =>
      assert Readings(evs) == Readings(p);
    case BackPressed =>
      assert Readings(evs) == Readings(p);
  }

  /** From a fresh screen, event `k` emits exactly when it completes a stable
      run and the screen was not already done, and it emits its own reading. */
  lemma EmissionMatchesReference(evs: seq<Event>, k: nat)
    requires k < |evs|
    ensures Trace(Initial, evs)[k] ==
      if evs[k].Reading? && Stable(evs[..k + 1]) && !Ended(evs[..k]) then Some(evs[k].value) else None
  {
    var p, e := evs[..k], evs[k];
    assert evs[..k + 1] == p + [e];
    TraceAt(Initial, evs, k);
    StepMatchesReference(p, e);
  }

  /** One more event, from a fresh screen: it emits exactly when it is a
      reading that completes a stable run and the screen was not done. */
  lemma StepMatchesReference(p: seq<Event>, e: Event)
    ensures Apply(Final(Initial, p), e).emitted ==
      if e.Reading? && Stable(p + [e]) && !Ended(p) then Some(e.value) else None
  {
    if e.Reading? {
      ReadingStepMatches(p, e.value);
    }
  }

  /** The reading case of `StepMatchesReference`. */
  lemma ReadingStepMatches(p: seq<Event>, v: string)
    ensures Step(Final(Initial, p), v).emitted ==
      if Stable(p + [Reading(v)]) && !Ended(p) then Some(v) else None
  {
    var f := Final(Initial, p);
    var e := Reading(v);
    FilterTracksReadings(p);
    FrontOfAppend(p, [e]);
    assert Last(p + [e]) == e;
    ReadingsSnoc(p, e);
    var rs := Readings(p) + [v];
    assert Readings(p + [e]) == rs;
    TrailingRunSnoc(Readings(p), v);
    assert Stable(p + [e]) <==> TrailingRun(rs) >= Threshold;
    if !Ended(p) {
      assert Step(f, v).state.stableCount == TrailingRun(rs);
    }
  }

  // ---------------------------------------------------------------------------
  // The result slot of the screen that opened the camera.

  /** A camera screen: its filter and the saved-state handle of the screen
      below it on the back stack. */
  datatype Screen = Screen(filter: FilterState, savedState: map<string, string>)

  /** One event: update the filter and write an emitted value under `key`. */
  function OnEvent(key: string, sc: Screen, e: Event): Screen {
    var o := Apply(sc.filter, e);
    Screen(o.state, if o.emitted.Some? then sc.savedState[key := o.emitted.value] else sc.savedState)
  }

  /** The screen after the events. */
  function RunScreen(key: string, sc: Screen, evs: seq<Event>): Screen
    decreases |evs|
  {
    if |evs| == 0 then sc else OnEvent(key, RunScreen(key, sc, Front(evs)), Last(evs))
  }

  /** The slot is written once, with the emitted value, or not at all; no
      other entry of the saved state changes. */
  lemma {:induction false} SlotWrittenOnce(key: string, sc: Screen, evs: seq<Event>)
    ensures RunScreen(key, sc, evs).filter == Final(sc.filter, evs)
    ensures |Emissions(sc.filter, evs)| == 0 ==> RunScreen(key, sc, evs).savedState == sc.savedState
    ensures |Emissions(sc.filter, evs)| == 1 ==>
      RunScreen(key, sc, evs).savedState == sc.savedState[key := Emissions(sc.filter, evs)[0]]
    decreases |evs|
  {
    AtMostOneEmission(sc.filter, evs);
    if |evs| > 0 {
      SlotWrittenOnce(key, sc, Front(evs));
      AtMostOneEmission(sc.filter, Front(evs));
    }
  }

  /** Once the back button is pressed, whatever follows, the saved state
      stays what it was at the press. */
  lemma BackFreezesSlot(key: string, sc: Screen, before: seq<Event>, after: seq<Event>)
    ensures RunScreen(key, sc, before + [BackPressed] + after).savedState == RunScreen(key, sc, before).savedState
  {
    var evs := before + [BackPressed] + after;
    BackSuppresses(sc.filter, before, after);
    SlotWrittenOnce(key, sc, evs);
    SlotWrittenOnce(key, sc, before);
    AtMostOneEmission(sc.filter, before);
  }

  /** From a fresh screen, when event `k` is a reading that completes a
      stable run before the screen was done, the saved state at the end holds
      exactly that reading under `key`, whatever comes after it. */
  lemma SlotHoldsStableReading(key: string, handle: map<string, string>, evs: seq<Event>, k: nat)
    requires k < |evs| && evs[k].Reading? && Stable(evs[..k + 1]) && !Ended(evs[..k])
    ensures RunScreen(key, Screen(Initial, handle), evs).savedState == handle[key := evs[k].value]
  {
    EmissionMatchesReference(evs, k);
    TraceInEmissions(Initial, evs, k);
    AtMostOneEmission(Initial, evs);
    var em := Emissions(Initial, evs);
    assert em == [evs[k].value];
    SlotWrittenOnce(key, Screen(Initial, handle), evs);
  }
}
