/**
 The probe query of the metric export: its step, the grid points at which it reports data, and the
 buffered range that is exported. Times are integer milliseconds.
 */
module ProbeWindow {
  import opened Wrappers
  import opened Extremes
  import opened ExportRows
  import opened ChunkedExport

  const MINUTE := 60_000
  const BUFFER := 300_000

  function CeilDiv(a: nat, b: nat): nat
    requires b > 0
  {
    (a + b - 1) / b
  }

  /** int() of a duration in seconds: truncation towards zero. */
  function WholeSeconds(milliseconds: int): int {
    if milliseconds >= 0 then milliseconds / 1000 else -(-milliseconds / 1000)
  }

  function TotalMinutes(start: int, end: int): nat {
    var range := WholeSeconds(end - start);
    CeilDiv(if range > 60 then range else 60, 60)
  }

  function ProbeStep(start: int, end: int, maxPoints: nat): (minutes: nat)
    requires maxPoints > 0
  {
    var minutes := CeilDiv(TotalMinutes(start, end), maxPoints);
    if minutes > 1 then minutes else 1
  }

  // ---------------------------------------------------------------- the step

  lemma CeilDivMeans(a: nat, b: nat, m: nat)
    requires b > 0
    ensures CeilDiv(a, b) <= m <==> a <= b * m
  {
    var q, r := (a + b - 1) / b, (a + b - 1) % b;
    assert a + b - 1 == b * q + r;
    if q <= m {
      MulMonotone(b, q, m);
    } else {
      MulMonotone(b, m + 1, q);
    }
  }

  lemma MulMonotone(b: nat, x: nat, y: nat)
    requires x <= y
    ensures b * x <= b * y
  {
    assert b * y == b * x + b * (y - x);
  }

  /** The step is the smallest whole number of minutes that keeps the range within the point limit. */
  lemma StepIsSmallest(start: int, end: int, maxPoints: nat, m: nat)
    requires maxPoints > 0 && m > 0
    ensures ProbeStep(start, end, maxPoints) >= 1
    ensures CeilDiv(TotalMinutes(start, end), m) <= maxPoints <==> ProbeStep(start, end, maxPoints) <= m
  {
    var total := TotalMinutes(start, end);
    CeilDivMeans(total, m, maxPoints);
    CeilDivMeans(total, maxPoints, m);
  }

  /**
   In seconds: m minutes are enough exactly when the whole seconds of the range fit into that many points of m
   minutes, and a range of less than a minute counts as one.
   */
  lemma StepInSeconds(start: int, end: int, maxPoints: nat, m: nat)
    requires start <= end && maxPoints > 0 && m > 0
    ensures ProbeStep(start, end, maxPoints) <= m <==> (end - start) / 1000 <= 60 * (m * maxPoints)
    ensures StepMs(start, end, maxPoints) == ProbeStep(start, end, maxPoints) * 60_000
  {
    var seconds := (end - start) / 1000;
    StepIsSmallest(start, end, maxPoints, m);
    CeilDivMeans(TotalMinutes(start, end), m, maxPoints);
    CeilDivMeans(if seconds > 60 then seconds else 60, 60, m * maxPoints);
    MulMonotone(m, 1, maxPoints);
  }

  // ---------------------------------------------------------------- the grid

  function StepMs(start: int, end: int, maxPoints: nat): (step: nat)
    requires maxPoints > 0
    ensures step >= MINUTE
  {
    ProbeStep(start, end, maxPoints) * MINUTE
  }

  /** The index of the last grid point in the range; a range query returns one point more than this. */
  function LastPoint(start: int, end: int, step: nat): nat
    requires start <= end && step > 0
  {
    (end - start) / step
  }

  lemma RangeInMinutes(start: int, end: int)
    requires start <= end
    ensures end - start < (TotalMinutes(start, end) + 1) * MINUTE
  {
    var seconds := WholeSeconds(end - start);
    CeilDivMeans(if seconds > 60 then seconds else 60, 60, TotalMinutes(start, end));
  }

  /** A probe query returns at most one point more than the limit it was asked to keep. */
  lemma PointsBounded(start: int, end: int, maxPoints: nat)
    requires start <= end && maxPoints > 0
    ensures LastPoint(start, end, StepMs(start, end, maxPoints)) + 1 <= maxPoints + 1
  {
    var minutes, total := ProbeStep(start, end, maxPoints), TotalMinutes(start, end);
    StepIsSmallest(start, end, maxPoints, minutes);
    CeilDivMeans(total, minutes, maxPoints);
    RangeInMinutes(start, end);
    assert (total + 1) * MINUTE <= (minutes * maxPoints + minutes) * MINUTE;
    assert (minutes * maxPoints + minutes) * MINUTE == (maxPoints + 1) * (minutes * MINUTE);
    QuotientAtMost(end - start, minutes * MINUTE, maxPoints);
  }

  lemma QuotientAtMost(a: nat, b: nat, m: nat)
    requires b > 0
    ensures a / b <= m <==> a < (m + 1) * b
  {
    DivFloor(a, b);
    if a / b <= m {
      MulMonotone(b, a / b + 1, m + 1);
    } else {
      MulMonotone(b, m + 1, a / b);
    }
  }

  lemma DivFloor(a: nat, b: nat)
    requires b > 0
    ensures a / b * b <= a < (a / b + 1) * b
  {
  }

  function Grid(start: int, step: nat, k: nat): int {
    start + k * step
  }

  /** The probe sees a sample from a grid point when it lies within one step before it. */
  predicate Lit(samples: seq<int>, start: int, step: nat, k: nat) {
    exists i :: 0 <= i < |samples| && Grid(start, step, k) - step < samples[i] <= Grid(start, step, k)
  }

  /** The timestamps that the query returns among the first n grid points. */
  function LitPoints(samples: seq<int>, start: int, step: nat, n: nat): (points: seq<int>)
    ensures forall t :: t in points ==> exists k: nat :: k < n && Lit(samples, start, step, k) && t == Grid(start, step, k)
    ensures forall k: nat :: k < n && Lit(samples, start, step, k) ==> Grid(start, step, k) in points
  {
    if n == 0 then []
    else
      var before := LitPoints(samples, start, step, n - 1);
      if Lit(samples, start, step, n - 1) then before + [Grid(start, step, n - 1)] else before
  }

  function FindDataBounds(samples: seq<int>, start: int, end: int, step: nat): Option<(int, int)>
    requires start <= end && step > 0
  {
    var points := LitPoints(samples, start, step, LastPoint(start, end, step) + 1);
    if points == [] then None else Some((MinOf(points), MaxOf(points)))
  }

  /** The bounds are grid points with data, and all grid points with data lie between them. */
  lemma BoundsAreTight(samples: seq<int>, start: int, end: int, step: nat)
    requires start <= end && step > 0
    ensures var bounds := FindDataBounds(samples, start, end, step);
            match bounds
            case None => forall k: nat :: k <= LastPoint(start, end, step) ==> !Lit(samples, start, step, k)
            case Some((first, last)) =>
              (exists k: nat :: k <= LastPoint(start, end, step) && Lit(samples, start, step, k) && first == Grid(start, step, k)) &&
              (exists k: nat :: k <= LastPoint(start, end, step) && Lit(samples, start, step, k) && last == Grid(start, step, k)) &&
              forall k: nat :: k <= LastPoint(start, end, step) && Lit(samples, start, step, k) ==>
                first <= Grid(start, step, k) <= last
  {
    hide Lit, Grid, LitPoints, LastPoint;
    var n := LastPoint(start, end, step) + 1;
    var points := LitPoints(samples, start, step, n);
    if points != [] {
      ExtremesBound(points);
      var first: nat :| first < n && Lit(samples, start, step, first) && MinOf(points) == Grid(start, step, first);
      var last: nat :| last < n && Lit(samples, start, step, last) && MaxOf(points) == Grid(start, step, last);
    }
  }

  /** Some sample lies within one step before the k-th point of the grid, which is in the range. */
  ghost predicate Seen(samples: seq<int>, start: int, end: int, step: nat, k: nat) {
    start + k * step <= end && exists t :: t in samples && start + k * step - step < t <= start + k * step
  }

  /** The bounds are the first and the last such point, and there are none if no point is seen. */
  lemma BoundsMean(samples: seq<int>, start: int, end: int, step: nat)
    requires start <= end && step > 0
    ensures var bounds := FindDataBounds(samples, start, end, step);
            (bounds.None? <==> forall k: nat :: !Seen(samples, start, end, step, k)) &&
            (bounds.Some? ==>
              (exists k: nat :: Seen(samples, start, end, step, k) && bounds.value.0 == start + k * step) &&
              (exists k: nat :: Seen(samples, start, end, step, k) && bounds.value.1 == start + k * step) &&
              forall k: nat :: Seen(samples, start, end, step, k) ==> bounds.value.0 <= start + k * step <= bounds.value.1)
  {
    BoundsAreTight(samples, start, end, step);
    hide FindDataBounds, Seen;
    forall k: nat ensures Seen(samples, start, end, step, k) <==> k <= LastPoint(start, end, step) && Lit(samples, start, step, k) {
      SeenIs(samples, start, end, step, k);
    }
    hide Lit, LastPoint;
  }

  lemma SeenIs(samples: seq<int>, start: int, end: int, step: nat, k: nat)
    requires start <= end && step > 0
    ensures Seen(samples, start, end, step, k) <==> k <= LastPoint(start, end, step) && Lit(samples, start, step, k)
  {
    var n, point := LastPoint(start, end, step), Grid(start, step, k);
    assert point == start + k * step;
    if k <= n {
      GridInRange(start, end, step, k);
    } else {
      DivFloor(end - start, step);
      MulMonotone(step, n + 1, k);
    }
    if i :| 0 <= i < |samples| && point - step < samples[i] <= point {
      assert samples[i] in samples;
    }
    if t :| t in samples && point - step < t <= point {
      var i :| 0 <= i < |samples| && samples[i] == t;
    }
  }

  function ExportStart(start: int, bounds: (int, int)): int {
    if start >= bounds.0 - BUFFER then start else bounds.0 - BUFFER
  }

  function ExportEnd(end: int, bounds: (int, int)): int {
    if end <= bounds.1 + BUFFER then end else bounds.1 + BUFFER
  }

  predicate Exported(samples: seq<int>, start: int, end: int, step: nat, s: int)
    requires start <= end && step > 0
  {
    var bounds := FindDataBounds(samples, start, end, step);
    bounds.Some? && ExportStart(start, bounds.value) <= s < ExportEnd(end, bounds.value)
  }

  /**
   What is exported: nothing without bounds; else exactly the times of the half-open range that lie at most five
   minutes before the first bound and less than five minutes after the last.
   */
  lemma ExportedMeans(samples: seq<int>, start: int, end: int, step: nat, s: int)
    requires start <= end && step > 0
    ensures var bounds := FindDataBounds(samples, start, end, step);
            Exported(samples, start, end, step, s) <==>
            bounds.Some? && start <= s < end && bounds.value.0 - 300_000 <= s < bounds.value.1 + 300_000
  {
  }

  /** A sample in the half-open range that some grid point in the range follows. */
  predicate Covered(samples: seq<int>, start: int, end: int, step: nat, s: int)
    requires start <= end && step > 0
  {
    s in samples && start <= s < end && s <= Grid(start, step, LastPoint(start, end, step))
  }

  /** The grid point that follows a covered sample within one step. */
  lemma NextGridPoint(samples: seq<int>, start: int, end: int, step: nat, s: int) returns (k: nat)
    requires start <= end && step > 0 && Covered(samples, start, end, step, s)
    ensures k <= LastPoint(start, end, step) && Lit(samples, start, step, k)
    ensures Grid(start, step, k) - step < s <= Grid(start, step, k)
  {
    var n := LastPoint(start, end, step);
    k := 0;
    while Grid(start, step, k) < s
      invariant k <= n
      invariant Grid(start, step, k) - step < s
      decreases n - k
    {
      if k == n {
        assert false;
      }
      assert Grid(start, step, k + 1) == Grid(start, step, k) + step;
      k := k + 1;
    }
  }

  lemma GridInRange(start: int, end: int, step: nat, k: nat)
    requires start <= end && step > 0 && k <= LastPoint(start, end, step)
    ensures start <= Grid(start, step, k) <= end
  {
    DivFloor(end - start, step);
    MulMonotone(step, k, LastPoint(start, end, step));
  }

  /** With a step of at most the buffer, every covered sample lies in the exported range. */
  lemma CoveredIsExported(samples: seq<int>, start: int, end: int, step: nat, s: int)
    requires start <= end && 0 < step <= BUFFER && Covered(samples, start, end, step, s)
    ensures Exported(samples, start, end, step, s)
  {
    var k := NextGridPoint(samples, start, end, step, s);
    GridInRange(start, end, step, k);
    var points := LitPoints(samples, start, step, LastPoint(start, end, step) + 1);
    assert Grid(start, step, k) in points;
    ExtremesBound(points);
  }

  ghost predicate Sound(start: int, end: int, step: nat)
    requires start <= end && step > 0
  {
    forall samples, s :: Covered(samples, start, end, step, s) ==> Exported(samples, start, end, step, s)
  }

  /** With a larger step that fits into the range, a sample just after the start is left out. */
  lemma LargeStepMisses(start: int, end: int, step: nat)
    requires step > BUFFER + 1 && start + step <= end
    ensures Covered([start + 1], start, end, step, start + 1)
    ensures !Exported([start + 1], start, end, step, start + 1)
  {
    var samples := [start + 1];
    var n := LastPoint(start, end, step);
    QuotientAtMost(end - start, step, 0);
    GridFrom(start, step, 1, n);
    var points := LitPoints(samples, start, step, n + 1);
    if points != [] {
      var t := MinOf(points);
      ExtremesBound(points);
      var k: nat :| k < n + 1 && Lit(samples, start, step, k) && t == Grid(start, step, k);
      assert k != 0;
      GridFrom(start, step, 1, k);
    }
  }

  lemma GridFrom(start: int, step: nat, j: nat, k: nat)
    requires j <= k
    ensures Grid(start, step, j) <= Grid(start, step, k)
    ensures Grid(start, step, 0) == start && Grid(start, step, 1) == start + step
  {
    MulMonotone(step, j, k);
  }

  /** With a step that does not fit into the range, only a sample at the very start is covered, and exported. */
  lemma OnlyFirstPoint(samples: seq<int>, start: int, end: int, step: nat, s: int)
    requires start <= end && end - start < step && Covered(samples, start, end, step, s)
    ensures Exported(samples, start, end, step, s)
  {
    QuotientAtMost(end - start, step, 0);
    GridFrom(start, step, 0, 0);
    var k := NextGridPoint(samples, start, end, step, s);
    hide Lit, Grid, LastPoint, LitPoints;
    var points := LitPoints(samples, start, step, LastPoint(start, end, step) + 1);
    ExtremesBound(points);
    forall t | t in points ensures t == start {
      var n: nat :| n < 1 && Lit(samples, start, step, n) && t == Grid(start, step, n);
    }
  }

  /**
   The whole search is sound for every set of samples exactly when the chosen step is at most five minutes, or
   does not fit into the range at all, which takes a limit of one point.
   */
  lemma ProbeSoundIff(start: int, end: int, maxPoints: nat)
    requires start <= end && maxPoints > 0
    ensures Sound(start, end, StepMs(start, end, maxPoints)) <==>
            ProbeStep(start, end, maxPoints) <= 5 || end - start < StepMs(start, end, maxPoints)
    ensures maxPoints >= 2 && end - start < StepMs(start, end, maxPoints) ==> ProbeStep(start, end, maxPoints) <= 5
  {
    hide Covered, Exported, ProbeStep;
    var minutes, step := ProbeStep(start, end, maxPoints), StepMs(start, end, maxPoints);
    if minutes <= 5 || end - start < step {
      forall samples, s | Covered(samples, start, end, step, s) ensures Exported(samples, start, end, step, s) {
        if minutes <= 5 {
          CoveredIsExported(samples, start, end, step, s);
        } else {
          OnlyFirstPoint(samples, start, end, step, s);
        }
      }
    } else {
      LargeStepMisses(start, end, step);
    }
    if maxPoints >= 2 && minutes > 5 {
      StepFits(start, end, maxPoints);
    }
  }

  lemma StepFits(start: int, end: int, maxPoints: nat)
    requires start <= end && maxPoints >= 2 && ProbeStep(start, end, maxPoints) > 5
    ensures start + StepMs(start, end, maxPoints) <= end
  {
    var minutes, total := ProbeStep(start, end, maxPoints), TotalMinutes(start, end);
    CeilDivMeans(total, maxPoints, total - 1);
    MulMonotone(total - 1, 2, maxPoints);
    assert total <= maxPoints * (total - 1);
    assert minutes <= total - 1;
    var seconds := WholeSeconds(end - start);
    CeilDivMeans(if seconds > 60 then seconds else 60, 60, total - 1);
  }

  // ---------------------------------------------------------------- probe, buffer and export together

  /** What extract_cluster exports: nothing where the probe finds nothing, else the buffered range. */
  function Extract<M(==), V>(client: Client<M, V>, samples: seq<int>, start: int, end: int, maxPoints: nat, retries: nat)
    : Option<seq<Entry<M, V>>>
    requires start <= end && maxPoints > 0
  {
    match FindDataBounds(samples, start, end, StepMs(start, end, maxPoints))
    case None => Some([])
    case Some(bounds) => ExportFrom(client, ExportStart(start, bounds), ExportEnd(end, bounds), retries, [])
  }

  /** The probe sees the times of the samples that are not null. */
  ghost predicate Sees<M(!new), V>(samples: seq<int>, store: Store<M, V>) {
    forall t :: t in samples <==> exists m, i :: 0 <= i < |store(m)| && store(m)[i].value.Some? && store(m)[i].time == t
  }

  /** No gap in the range that the probe leads to. */
  ghost predicate GapFreeProbed<M(!new), V>(store: Store<M, V>, samples: seq<int>, start: int, end: int, maxPoints: nat)
    requires start <= end && maxPoints > 0
  {
    var bounds := FindDataBounds(samples, start, end, StepMs(start, end, maxPoints));
    bounds.Some? ==> GapFree(store, ExportStart(start, bounds.value), ExportEnd(end, bounds.value))
  }

  /** A series holds a sample, at the scaled time. */
  ghost predicate Has<M, V>(e: Entry<M, V>, time: int, value: V) {
    exists p :: 0 <= p < |e.timestamps| && p < |e.values| && e.timestamps[p] == time * 1000 && e.values[p] == value
  }

  /**
   From probe to file: with a step of at most five minutes and a store without gaps in the probed range, every
   non-null sample that a grid point of the range follows ends up in its series, for every pattern of failed
   requests that the export survives.
   */
  lemma CoveredIsExtracted<M(!new), V>(
    client: Client<M, V>, store: Store<M, V>, samples: seq<int>, start: int, end: int, maxPoints: nat, retries: nat, m: M, i: nat)
    requires start <= end && maxPoints > 0 && ProbeStep(start, end, maxPoints) <= 5
    requires Serves(client, store) && Sees(samples, store) && GapFreeProbed(store, samples, start, end, maxPoints)
    requires Extract(client, samples, start, end, maxPoints, retries).Some?
    requires i < |store(m)| && store(m)[i].value.Some? && start <= store(m)[i].time < end
    requires var step := StepMs(start, end, maxPoints);
             store(m)[i].time <= Grid(start, step, LastPoint(start, end, step))
    ensures var entries := Extract(client, samples, start, end, maxPoints, retries).value;
            var at := Find(entries, m);
            at < |entries| && Has(entries[at], store(m)[i].time, store(m)[i].value.value)
  {
    hide Serves, ProbeStep, FindDataBounds, ExportFrom, GapFree, Window, Kept, Find, StepMs, ExportStart, ExportEnd;
    var step := StepMs(start, end, maxPoints);
    StepIs(start, end, maxPoints);
    CoveredIsExported(samples, start, end, step, store(m)[i].time);
    var bounds := FindDataBounds(samples, start, end, step).value;
    var low, high := ExportStart(start, bounds), ExportEnd(end, bounds);
    ExportComplete(client, store, low, high, retries);
    WindowHas(store(m), low, high, i);
    KeptHas(Window(store(m), low, high), store(m)[i]);
  }

  /**
   Nothing else ends up in the file: every timestamp of every series is that of a non-null sample of the series, in
   the half-open range and within five minutes of what the probe found.
   */
  lemma NothingOutside<M(!new), V>(
    client: Client<M, V>, store: Store<M, V>, samples: seq<int>, start: int, end: int, maxPoints: nat, retries: nat, n: nat, p: nat)
    requires start <= end && maxPoints > 0 && Serves(client, store)
    requires Extract(client, samples, start, end, maxPoints, retries).Some?
    requires var entries := Extract(client, samples, start, end, maxPoints, retries).value;
             n < |entries| && p < |entries[n].timestamps|
    ensures var e, step := Extract(client, samples, start, end, maxPoints, retries).value[n], StepMs(start, end, maxPoints);
            var bounds := FindDataBounds(samples, start, end, step);
            |e.values| == |e.timestamps| && bounds.Some? &&
            exists i :: 0 <= i < |store(e.metric)| && e.timestamps[p] == store(e.metric)[i].time * 1000 &&
                        store(e.metric)[i].value == Some(e.values[p]) && start <= store(e.metric)[i].time < end &&
                        bounds.value.0 - 300_000 <= store(e.metric)[i].time < bounds.value.1 + 300_000
  {
    hide Serves, ProbeStep, FindDataBounds, ExportFrom, Window, Kept, StepMs, StopPoint, ExportStart, ExportEnd;
    var bounds := FindDataBounds(samples, start, end, StepMs(start, end, maxPoints)).value;
    var low, high := ExportStart(start, bounds), ExportEnd(end, bounds);
    var entries := ExportFrom(client, low, high, retries, []).value;
    var m := entries[n].metric;
    ExportRefinesStore(client, store, low, high, retries, m);
    assert Find(entries, m) == n;
    BeforeTheEnd(store, low, high);
    var stop := StopPoint(store, low, high, false);
    var kept := KeptAt(Window(store(m), low, stop));
    var picks := WindowAt(store(m), low, stop);
    var i := picks[kept[p]];
    assert i in picks;
    RangeOf(start, end, bounds, store(m)[i].time);
  }

  lemma BeforeTheEnd<M(!new), V>(store: Store<M, V>, low: int, high: int)
    ensures StopPoint(store, low, high, false) <= if low <= high then high else low
  {
  }

  lemma RangeOf(start: int, end: int, bounds: (int, int), s: int)
    ensures ExportStart(start, bounds) <= s < ExportEnd(end, bounds) <==>
            start <= s < end && bounds.0 - 300_000 <= s < bounds.1 + 300_000
  {
  }

  lemma StepIs(start: int, end: int, maxPoints: nat)
    requires maxPoints > 0
    ensures StepMs(start, end, maxPoints) == ProbeStep(start, end, maxPoints) * MINUTE
  {
  }

  lemma {:induction false} WindowHas<V>(samples: seq<Sample<V>>, low: int, high: int, i: nat)
    requires i < |samples| && low <= samples[i].time < high
    ensures samples[i] in Window(samples, low, high)
  {
    if i < |samples| - 1 {
      WindowHas(samples[..|samples| - 1], low, high, i);
    }
  }

  lemma {:induction false} KeptHas<V>(samples: seq<Sample<V>>, s: Sample<V>)
    requires s in samples && s.value.Some?
    ensures |Kept(samples).0| == |Kept(samples).1|
    ensures exists p :: 0 <= p < |Kept(samples).0| && Kept(samples).0[p] == s.time * 1000 && Kept(samples).1[p] == s.value.value
  {
    var front, last := samples[..|samples| - 1], samples[|samples| - 1];
    assert samples == front + [last];
    KeptPaired(front);
    if s in front {
      KeptHas(front, s);
      var p :| 0 <= p < |Kept(front).0| && Kept(front).0[p] == s.time * 1000 && Kept(front).1[p] == s.value.value;
      assert Kept(samples).0[p] == s.time * 1000 && Kept(samples).1[p] == s.value.value;
    } else {
      assert Kept(samples).0[|Kept(front).0|] == s.time * 1000;
    }
  }

  lemma {:induction false} KeptPaired<V>(samples: seq<Sample<V>>)
    ensures |Kept(samples).0| == |Kept(samples).1|
  {
    if samples != [] {
      KeptPaired(samples[..|samples| - 1]);
    }
  }
}
