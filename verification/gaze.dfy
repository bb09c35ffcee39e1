/** The gaze page: the result callback that hit-tests a gaze sample against the lesion image's
    bounding box and hands image-local points to the heat map, and the start/stop tracking flag.
    The eye-tracking service and the heat-map library are outside the model; only the calls made
    to the service and the points given to the heat map are recorded. */
module Gaze {

  import opened Common

  /** One gaze result: the tracker's state code and the page coordinates of the gaze. */
  datatype Sample = Sample(state: int, x: real, y: real)

  /** The image's bounding client rectangle at the time the sample arrives. */
  datatype Rect = Rect(left: real, top: real, right: real, bottom: real)

  /** A point handed to the heat map. */
  datatype HeatPoint = HeatPoint(x: real, y: real, value: nat)

  /** The state code of a valid gaze estimate. */
  const Valid := 0

  /** Inclusive containment on all four edges. */
  predicate Inside(r: Rect, x: real, y: real)
  {
    r.left <= x <= r.right && r.top <= y <= r.bottom
  }

  /** The image's own rectangle: origin at its top-left corner. */
  function Local(r: Rect): Rect
  {
    Rect(0.0, 0.0, r.right - r.left, r.bottom - r.top)
  }

  /** The result callback: a valid sample inside the image becomes a point of weight 1 relative to
      the image's top-left corner; anything else is dropped. */
  function OnResult(s: Sample, r: Rect): (p: Option<HeatPoint>)
    ensures p.Some? <==> s.state == Valid && Inside(r, s.x, s.y)
    ensures p.Some? ==> p.value.value == 1 && Inside(Local(r), p.value.x, p.value.y)
    ensures p.Some? ==> p.value.x + r.left == s.x && p.value.y + r.top == s.y
  {
    if s.state == Valid then
      if s.x >= r.left && s.x <= r.right && s.y >= r.top && s.y <= r.bottom then
        Some(HeatPoint(s.x - r.left, s.y - r.top, 1))
      else
        None
    else
      None
  }

  /** Every point of the image is the translation of exactly the gaze at the corresponding page
      position: translating back and hit-testing again gives the same point. */
  lemma OnResultCoversImage(r: Rect, x: real, y: real)
    requires Inside(Local(r), x, y)
    ensures OnResult(Sample(Valid, x + r.left, y + r.top), r) == Some(HeatPoint(x, y, 1))
  {
  }

  // ---------------------------------------------------------------------------------------------
  // A batch of samples

  /** The heat-map points produced by a sequence of samples, each with the rectangle measured when
      it arrived. */
  function Collect(samples: seq<(Sample, Rect)>): (h: seq<HeatPoint>)
    ensures |h| <= |samples|
    ensures forall i :: 0 <= i < |h| ==> h[i].value == 1 && 0.0 <= h[i].x && 0.0 <= h[i].y
    ensures forall i :: 0 <= i < |h| ==>
      exists j :: 0 <= j < |samples| && OnResult(samples[j].0, samples[j].1) == Some(h[i])
  {
    if |samples| == 0 then []
    else
      var front := samples[..|samples| - 1];
      var rest := Collect(front);
      var (s, r) := samples[|samples| - 1];
      assert forall j :: 0 <= j < |front| ==> front[j] == samples[j];
      match OnResult(s, r)
      case None => rest
      case Some(p) => rest + [p]
  }

  /** The heat map of two batches is the first batch's points followed by the second's: points
      arrive in sample order. */
  lemma {:induction false} CollectAppend(a: seq<(Sample, Rect)>, b: seq<(Sample, Rect)>)
    ensures Collect(a + b) == Collect(a) + Collect(b)
    decreases |b|
  {
    if |b| == 0 {
      assert a + b == a;
    } else {
      var b' := b[..|b| - 1];
      assert (a + b)[..|a + b| - 1] == a + b';
      assert (a + b)[|a + b| - 1] == b[|b| - 1];
      CollectAppend(a, b');
    }
  }

  /** One sample's contribution: its hit-tested point, if any. */
  lemma CollectOne(s: Sample, r: Rect)
    ensures Collect([(s, r)]) == match OnResult(s, r) case None => [] case Some(p) => [p]
  {
    assert [(s, r)][..0] == [];
  }

  /** The number of samples that are valid and fall on the image. */
  function Accepted(samples: seq<(Sample, Rect)>): nat
  {
    if |samples| == 0 then 0
    else
      var (s, r) := samples[|samples| - 1];
      Accepted(samples[..|samples| - 1]) + if s.state == Valid && Inside(r, s.x, s.y) then 1 else 0
  }

  /** The heat map gains one point per accepted sample and none for the others. */
  lemma {:induction false} CollectCountsAccepted(samples: seq<(Sample, Rect)>)
    ensures |Collect(samples)| == Accepted(samples)
  {
    if |samples| > 0 {
      CollectCountsAccepted(samples[..|samples| - 1]);
    }
  }

  /** Samples with any state other than valid can be removed without changing the heat map. */
  lemma {:induction false} InvalidSamplesAddNothing(samples: seq<(Sample, Rect)>, s: Sample, r: Rect)
    requires s.state != Valid
    ensures Collect(samples + [(s, r)]) == Collect(samples)
  {
    assert (samples + [(s, r)])[..|samples|] == samples;
  }

  // ---------------------------------------------------------------------------------------------
  // The tracking flag

  datatype Call = StartEyeTracking | StopEyeTracking

  /** The page's tracking state: the active flag, whether the result callback has been installed,
      the calls made to the eye-tracking service, and the points given to the heat map. */
  datatype Tracker = Tracker(active: bool, handlerInstalled: bool, calls: seq<Call>, heat: seq<HeatPoint>)

  const Init := Tracker(false, false, [], [])

  /** The start button: nothing when already active; otherwise start the service, install the
      result callback and set the flag. */
  function Start(t: Tracker): (t': Tracker)
    ensures t'.active
    ensures t.active ==> t' == t
    ensures !t.active ==> t'.handlerInstalled && t'.calls == t.calls + [StartEyeTracking] && t'.heat == t.heat
  {
    if t.active then t
    else t.(active := true, handlerInstalled := true, calls := t.calls + [StartEyeTracking])
  }

  /** The stop button: stop the service and clear the flag when active; nothing otherwise. The
      result callback stays installed. */
  function Stop(t: Tracker): (t': Tracker)
    ensures !t'.active
    ensures !t.active ==> t' == t
    ensures t.active ==> t'.calls == t.calls + [StopEyeTracking]
                          && t'.heat == t.heat && t'.handlerInstalled == t.handlerInstalled
  {
    if t.active then t.(active := false, calls := t.calls + [StopEyeTracking]) else t
  }

  lemma StartIdempotent(t: Tracker)
    ensures Start(Start(t)) == Start(t)
  {
  }

  lemma StopIdempotent(t: Tracker)
    ensures Stop(Stop(t)) == Stop(t)
  {
  }

  /** A gaze result reaches the callback only once it has been installed. */
  function Deliver(t: Tracker, s: Sample, r: Rect): (t': Tracker)
    ensures t'.active == t.active && t'.handlerInstalled == t.handlerInstalled && t'.calls == t.calls
    ensures t'.heat == t.heat + (if t.handlerInstalled then Collect([(s, r)]) else [])
  {
    if !t.handlerInstalled then t
    else
      match OnResult(s, r)
      case None => t
      case Some(p) => t.(heat := t.heat + [p])
  }

  datatype Event = ClickStart | ClickStop | Result(sample: Sample, rect: Rect)

  /** Clicks never touch the heat map, and gaze results never touch the service or the flag. */
  function Step(t: Tracker, e: Event): (t': Tracker)
    ensures e.Result? ==> t'.active == t.active && t'.calls == t.calls && t'.handlerInstalled == t.handlerInstalled
    ensures !e.Result? ==> t'.heat == t.heat
    ensures t.calls <= t'.calls && t.heat <= t'.heat
    ensures |t'.calls| <= |t.calls| + 1 && |t'.heat| <= |t.heat| + 1
  {
    match e
    case ClickStart => Start(t)
    case ClickStop => Stop(t)
    case Result(s, r) => Deliver(t, s, r)
  }

  /** Events only ever append to the service calls and the heat map, at most one entry each. */
  function Run(t: Tracker, events: seq<Event>): (t': Tracker)
    ensures t.calls <= t'.calls && t.heat <= t'.heat
    ensures |t'.calls| <= |t.calls| + |events| && |t'.heat| <= |t.heat| + |events|
  {
    if |events| == 0 then t else Step(Run(t, events[..|events| - 1]), events[|events| - 1])
  }

  /** What every reachable tracker satisfies: the service calls alternate start, stop, start, ...;
      the flag is set exactly after a start; the callback is installed once anything was started;
      and every heat point has weight 1 and lies right of and below the image's corner. */
  predicate Reachable(t: Tracker)
  {
    && (forall i :: 0 <= i < |t.calls| ==> t.calls[i] == if i % 2 == 0 then StartEyeTracking else StopEyeTracking)
    && (t.active <==> |t.calls| % 2 == 1)
    && (t.handlerInstalled <==> |t.calls| > 0)
    && (forall i :: 0 <= i < |t.heat| ==> t.heat[i].value == 1 && 0.0 <= t.heat[i].x && 0.0 <= t.heat[i].y)
  }

  lemma StepKeepsReachable(t: Tracker, e: Event)
    requires Reachable(t)
    ensures Reachable(Step(t, e))
  {
    if e.Result? {
      var h := Collect([(e.sample, e.rect)]);
      assert forall i :: 0 <= i < |h| ==> h[i].value == 1 && 0.0 <= h[i].x && 0.0 <= h[i].y;
    }
  }

  /** Any sequence of button clicks and gaze results from the initial page keeps the invariant. */
  lemma {:induction false} RunReachable(events: seq<Event>)
    ensures Reachable(Run(Init, events))
  {
    if |events| > 0 {
      RunReachable(events[..|events| - 1]);
      StepKeepsReachable(Run(Init, events[..|events| - 1]), events[|events| - 1]);
    }
  }
}
