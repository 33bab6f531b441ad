/**
 The two re-alignments of benchmark runs. A run is a list of entries; `rest` stands for the labels and
 everything else of an entry; a missing timestamps or values list is an empty one.
 */
module BenchPress {
  import opened Wrappers
  import opened Extremes
  import opened Sequences

  datatype Entry<T> = Entry(rest: T, timestamps: seq<int>, values: seq<T>)

  type Run<T> = seq<Entry<T>>

  // ---------------------------------------------------------------- bounds and shifts, as functions

  function AllTimes<T>(run: Run<T>): seq<int> {
    if run == [] then [] else AllTimes(run[..|run| - 1]) + run[|run| - 1].timestamps
  }

  function Start<T>(run: Run<T>): int
    requires AllTimes(run) != []
  {
    MinOf(AllTimes(run))
  }

  function End<T>(run: Run<T>): int
    requires AllTimes(run) != []
  {
    MaxOf(AllTimes(run))
  }

  /** Runs without any timestamp have no duration of their own. */
  function Duration<T>(run: Run<T>): (d: nat)
  {
    if AllTimes(run) == [] then 0
    else
      ExtremesBound(AllTimes(run));
      End(run) - Start(run)
  }

  function ShiftTimes(ts: seq<int>, offset: int): (r: seq<int>)
    ensures |r| == |ts| && forall i :: 0 <= i < |ts| ==> r[i] == ts[i] + offset
  {
    seq(|ts|, i requires 0 <= i < |ts| => ts[i] + offset)
  }

  function ShiftEntry<T>(e: Entry<T>, offset: int): Entry<T> {
    e.(timestamps := ShiftTimes(e.timestamps, offset))
  }

  function Shift<T>(run: Run<T>, offset: int): (r: Run<T>)
    ensures |r| == |run| && forall i :: 0 <= i < |run| ==> r[i] == ShiftEntry(run[i], offset)
  {
    seq(|run|, i requires 0 <= i < |run| => ShiftEntry(run[i], offset))
  }

  function TotalSpan<T>(runs: seq<Run<T>>): nat {
    if runs == [] then 0 else TotalSpan(runs[..|runs| - 1]) + Duration(runs[|runs| - 1])
  }

  function MaxDuration<T>(runs: seq<Run<T>>): nat {
    if runs == [] then 0
    else
      var before, last := MaxDuration(runs[..|runs| - 1]), Duration(runs[|runs| - 1]);
      if last > before then last else before
  }

  /** Move a run so that it starts at an instant; a run without timestamps stays as it is. */
  function MoveTo<T>(run: Run<T>, at: int): Run<T> {
    if AllTimes(run) == [] then run else Shift(run, at - Start(run))
  }

  /** Where the k-th run goes in each mode. */
  function SequentialStart<T>(runs: seq<Run<T>>, startMs: int, k: nat): int
    requires k <= |runs|
  {
    startMs - TotalSpan(runs) + TotalSpan(runs[..k])
  }

  function ParallelStart<T>(runs: seq<Run<T>>, startMs: int): int {
    startMs - MaxDuration(runs)
  }

  function PlacedSequential<T>(runs: seq<Run<T>>, startMs: int): (placed: seq<Run<T>>)
    ensures |placed| == |runs|
    ensures forall k :: 0 <= k < |runs| ==> placed[k] == MoveTo(runs[k], SequentialStart(runs, startMs, k))
  {
    seq(|runs|, k requires 0 <= k < |runs| => MoveTo(runs[k], SequentialStart(runs, startMs, k)))
  }

  function PlacedParallel<T>(runs: seq<Run<T>>, startMs: int): (placed: seq<Run<T>>)
    ensures |placed| == |runs|
    ensures forall k :: 0 <= k < |runs| ==> placed[k] == MoveTo(runs[k], ParallelStart(runs, startMs))
  {
    seq(|runs|, k requires 0 <= k < |runs| => MoveTo(runs[k], ParallelStart(runs, startMs)))
  }

  // ---------------------------------------------------------------- the loops, as the script runs them

  /** The entry of group_bounds for a run. */
  function BoundsOf<T>(run: Run<T>): Option<(int, int)> {
    if AllTimes(run) == [] then None else Some((Start(run), End(run)))
  }

  ghost predicate AreBounds<T>(runs: seq<Run<T>>, bounds: seq<Option<(int, int)>>) {
    |bounds| == |runs| && forall k :: 0 <= k < |runs| ==> bounds[k] == BoundsOf(runs[k])
  }

  /** The group_bounds loop. */
  method Bounds<T>(runs: seq<Run<T>>) returns (bounds: seq<Option<(int, int)>>)
    ensures AreBounds(runs, bounds)
  {
    bounds := [];
    for k := 0 to |runs|
      invariant AreBounds(runs[..k], bounds)
    {
      var allTs: seq<int> := [];
      for i := 0 to |runs[k]|
        invariant allTs == AllTimes(runs[k][..i])
      {
        assert runs[k][..i + 1][..i] == runs[k][..i];
        allTs := allTs + runs[k][i].timestamps;
      }
      assert runs[k][..|runs[k]|] == runs[k];
      bounds := bounds + [if allTs != [] then Some((MinOf(allTs), MaxOf(allTs))) else None];
    }
    assert runs[..|runs|] == runs;
  }

  lemma DurationIs<T>(run: Run<T>)
    ensures Duration(run) == match BoundsOf(run) case None => 0 case Some((s, e)) => e - s
    ensures Duration(run) == if AllTimes(run) == [] then 0 else End(run) - Start(run)
    ensures BoundsOf(run).None? <==> AllTimes(run) == []
  {
    hide MinOf, MaxOf, AllTimes;
  }

  /** What a run becomes, in terms of its bounds. */
  lemma MoveIs<T>(run: Run<T>, at: int)
    ensures MoveTo(run, at) == match BoundsOf(run) case None => run case Some((s, _)) => Shift(run, at - s)
  {
    hide MinOf, MaxOf, AllTimes, Shift;
  }

  lemma SpanNext<T>(runs: seq<Run<T>>, k: nat)
    requires k < |runs|
    ensures TotalSpan(runs[..k + 1]) == TotalSpan(runs[..k]) + Duration(runs[k])
  {
    hide Duration;
    assert runs[..k + 1][..k] == runs[..k];
  }

  lemma {:induction false} MaxDurationIs<T>(runs: seq<Run<T>>)
    ensures forall i :: 0 <= i < |runs| ==> Duration(runs[i]) <= MaxDuration(runs)
    ensures MaxDuration(runs) == 0 || exists i :: 0 <= i < |runs| && Duration(runs[i]) == MaxDuration(runs)
  {
    hide Duration;
    if runs != [] {
      var front := runs[..|runs| - 1];
      MaxDurationIs(front);
      assert forall i :: 0 <= i < |front| ==> front[i] == runs[i];
    }
  }

  lemma MaxNext<T>(runs: seq<Run<T>>, k: nat)
    requires k < |runs|
    ensures MaxDuration(runs[..k + 1])
         == if Duration(runs[k]) > MaxDuration(runs[..k]) then Duration(runs[k]) else MaxDuration(runs[..k])
  {
    hide Duration;
    assert runs[..k + 1][..k] == runs[..k];
  }

  /** The inner loop over the entries of one run. */
  method AppendShifted<T>(out: seq<Entry<T>>, run: Run<T>, offset: int) returns (result: seq<Entry<T>>)
    ensures result == out + Shift(run, offset)
  {
    result := out;
    for i := 0 to |run|
      invariant result == out + Shift(run, offset)[..i]
    {
      if run[i].timestamps == [] {
        assert ShiftEntry(run[i], offset) == run[i];
        result := result + [run[i]];
        continue;
      }
      var shifted := ShiftTimes(run[i].timestamps, offset);
      result := result + [Entry(run[i].rest, shifted, run[i].values)];
    }
    assert Shift(run, offset)[..|run|] == Shift(run, offset);
  }

  method AlignSequential<T>(runs: seq<Run<T>>, startMs: int) returns (out: seq<Entry<T>>)
    ensures out == FlattenAll(PlacedSequential(runs, startMs))
  {
    hide BoundsOf, Duration, MoveTo, Shift, FlattenAll, TotalSpan;
    var bounds := Bounds(runs);
    var totalSpan := 0;
    assert TotalSpan(runs[..0]) == 0 && FlattenAll<Entry<T>>([]) == [] by { NoRuns(runs); }
    for k := 0 to |runs|
      invariant totalSpan == TotalSpan(runs[..k])
    {
      DurationIs(runs[k]);
      SpanNext(runs, k);
      if bounds[k].Some? {
        totalSpan := totalSpan + (bounds[k].value.1 - bounds[k].value.0);
      }
    }
    assert runs[..|runs|] == runs;
    var cursorMs := startMs - totalSpan;
    out := [];
    ghost var placed := PlacedSequential(runs, startMs);
    assert placed[..0] == [];
    for k := 0 to |runs|
      invariant out == FlattenAll(placed[..k])
      invariant cursorMs == SequentialStart(runs, startMs, k)
    {
      DurationIs(runs[k]);
      MoveIs(runs[k], cursorMs);
      SpanNext(runs, k);
      FlattenNext(placed, k, []);
      if bounds[k].None? {
        out := out + runs[k];
        continue;
      }
      var (groupStart, groupEnd) := bounds[k].value;
      out := AppendShifted(out, runs[k], cursorMs - groupStart);
      cursorMs := cursorMs + (groupEnd - groupStart);
    }
    assert placed[..|runs|] == placed;
  }

  lemma NoRuns<T>(runs: seq<Run<T>>)
    ensures TotalSpan(runs[..0]) == 0 && MaxDuration(runs[..0]) == 0 && FlattenAll<Entry<T>>([]) == []
  {
  }

  /** The longest duration, and whether any run has timestamps. */
  method LongestRun<T>(runs: seq<Run<T>>, bounds: seq<Option<(int, int)>>) returns (valid: bool, maxDuration: int)
    requires AreBounds(runs, bounds)
    ensures maxDuration == MaxDuration(runs)
    ensures valid <==> exists k :: 0 <= k < |runs| && bounds[k].Some?
  {
    hide BoundsOf, Duration, MaxDuration;
    valid, maxDuration := false, 0;
    assert MaxDuration(runs[..0]) == 0 by { NoRuns(runs); }
    for k := 0 to |runs|
      invariant maxDuration == MaxDuration(runs[..k])
      invariant valid <==> exists j :: 0 <= j < k && bounds[j].Some?
    {
      DurationIs(runs[k]);
      MaxNext(runs, k);
      if bounds[k].Some? {
        valid := true;
        if bounds[k].value.1 - bounds[k].value.0 > maxDuration {
          maxDuration := bounds[k].value.1 - bounds[k].value.0;
        }
      }
    }
    assert runs[..|runs|] == runs;
  }

  method AlignParallel<T>(runs: seq<Run<T>>, startMs: int) returns (out: seq<Entry<T>>)
    ensures out == FlattenAll(PlacedParallel(runs, startMs))
  {
    hide BoundsOf, Duration, MoveTo, Shift, FlattenAll, MaxDuration;
    var bounds := Bounds(runs);
    var valid, maxDuration := LongestRun(runs, bounds);
    out := [];
    ghost var placed := PlacedParallel(runs, startMs);
    assert placed[..0] == [] && FlattenAll<Entry<T>>([]) == [] by { NoRuns(runs); }
    if !valid {
      for k := 0 to |runs|
        invariant out == FlattenAll(placed[..k])
      {
        MoveIs(runs[k], startMs - maxDuration);
        FlattenNext(placed, k, []);
        out := out + runs[k];
      }
      assert placed[..|runs|] == placed;
      return;
    }
    var commonStart := startMs - maxDuration;
    for k := 0 to |runs|
      invariant out == FlattenAll(placed[..k])
    {
      MoveIs(runs[k], commonStart);
      FlattenNext(placed, k, []);
      if bounds[k].None? {
        out := out + runs[k];
        continue;
      }
      out := AppendShifted(out, runs[k], commonStart - bounds[k].value.0);
    }
    assert placed[..|runs|] == placed;
  }

  // ---------------------------------------------------------------- shifting a run

  lemma {:induction false} ShiftAllTimes<T>(run: Run<T>, offset: int)
    ensures AllTimes(Shift(run, offset)) == ShiftTimes(AllTimes(run), offset)
  {
    if run != [] {
      ShiftAllTimes(run[..|run| - 1], offset);
      assert Shift(run, offset)[..|run| - 1] == Shift(run[..|run| - 1], offset);
    }
  }

  lemma {:induction false} ShiftExtremes(ts: seq<int>, offset: int)
    requires ts != []
    ensures MinOf(ShiftTimes(ts, offset)) == MinOf(ts) + offset
    ensures MaxOf(ShiftTimes(ts, offset)) == MaxOf(ts) + offset
  {
    if |ts| > 1 {
      ShiftExtremes(ts[1..], offset);
      assert ShiftTimes(ts, offset)[1..] == ShiftTimes(ts[1..], offset);
    }
  }

  lemma ShiftBounds<T>(run: Run<T>, offset: int)
    requires AllTimes(run) != []
    ensures AllTimes(Shift(run, offset)) != []
    ensures Start(Shift(run, offset)) == Start(run) + offset && End(Shift(run, offset)) == End(run) + offset
  {
    hide MinOf, MaxOf, AllTimes, Shift;
    ShiftAllTimes(run, offset);
    ShiftExtremes(AllTimes(run), offset);
  }

  lemma MoveBounds<T>(run: Run<T>, at: int)
    requires AllTimes(run) != []
    ensures AllTimes(MoveTo(run, at)) != []
    ensures Start(MoveTo(run, at)) == at && End(MoveTo(run, at)) == at + Duration(run)
  {
    hide Start, End, AllTimes, Shift, Duration;
    DurationIs(run);
    ShiftBounds(run, at - Start(run));
  }

  /** Two shifts are one. */
  lemma ShiftTwice<T>(run: Run<T>, a: int, b: int)
    ensures Shift(Shift(run, a), b) == Shift(run, a + b)
  {
    forall i | 0 <= i < |run| ensures Shift(Shift(run, a), b)[i] == Shift(run, a + b)[i] {
      assert ShiftTimes(ShiftTimes(run[i].timestamps, a), b) == ShiftTimes(run[i].timestamps, a + b);
    }
  }

  /** A run moved to an instant does not depend on where it was. */
  lemma MoveForgets<T>(run: Run<T>, offset: int, at: int)
    ensures MoveTo(Shift(run, offset), at) == MoveTo(run, at)
    ensures Duration(Shift(run, offset)) == Duration(run)
  {
    hide Start, End, AllTimes, Shift, Duration;
    DurationIs(run);
    DurationIs(Shift(run, offset));
    if AllTimes(run) == [] {
      NoTimes(run, offset);
    } else {
      ShiftBounds(run, offset);
      ShiftTwice(run, offset, at - Start(run) - offset);
    }
  }

  lemma {:induction false} EmptyEntries<T>(run: Run<T>)
    requires AllTimes(run) == []
    ensures forall i :: 0 <= i < |run| ==> run[i].timestamps == []
  {
    if run != [] {
      EmptyEntries(run[..|run| - 1]);
    }
  }

  lemma NoTimes<T>(run: Run<T>, offset: int)
    requires AllTimes(run) == []
    ensures Shift(run, offset) == run
  {
    EmptyEntries(run);
    hide AllTimes;
    forall i | 0 <= i < |run| ensures Shift(run, offset)[i] == run[i] {
      assert ShiftTimes(run[i].timestamps, offset) == run[i].timestamps;
    }
  }

  // ---------------------------------------------------------------- what is kept

  /** The same entries in the same order with the same values, all times moved by one offset. */
  ghost predicate SameButShifted<T>(run: Run<T>, placed: Run<T>) {
    exists offset :: IsShift(run, placed, offset)
  }

  ghost predicate IsShift<T>(run: Run<T>, placed: Run<T>, offset: int) {
    |placed| == |run| &&
    forall i :: 0 <= i < |run| ==>
      placed[i].rest == run[i].rest && placed[i].values == run[i].values &&
      |placed[i].timestamps| == |run[i].timestamps| &&
      forall j :: 0 <= j < |run[i].timestamps| ==> placed[i].timestamps[j] == run[i].timestamps[j] + offset
  }

  lemma MoveKeeps<T>(run: Run<T>, at: int)
    ensures SameButShifted(run, MoveTo(run, at))
  {
    if AllTimes(run) == [] {
      assert IsShift(run, run, 0);
    } else {
      assert IsShift(run, MoveTo(run, at), at - Start(run));
    }
  }

  // ---------------------------------------------------------------- align_sequential

  /** There is no run with timestamps between the j-th and the k-th. */
  ghost predicate Consecutive<T>(runs: seq<Run<T>>, j: nat, k: nat) {
    j < k < |runs| && AllTimes(runs[j]) != [] && AllTimes(runs[k]) != [] &&
    forall i :: j < i < k ==> AllTimes(runs[i]) == []
  }

  lemma {:induction false} SpanOfEmpty<T>(runs: seq<Run<T>>, j: nat, k: nat)
    requires j <= k <= |runs| && forall i :: j <= i < k ==> AllTimes(runs[i]) == []
    ensures TotalSpan(runs[..j]) == TotalSpan(runs[..k])
    decreases k
  {
    if j < k {
      assert runs[..k][..k - 1] == runs[..k - 1];
      SpanOfEmpty(runs, j, k - 1);
    }
  }

  /** Every run is moved as a whole, from its place on the time line to where its durations add up. */
  lemma SequentialEnds<T>(runs: seq<Run<T>>, startMs: int, k: nat)
    requires k < |runs|
    ensures var placed := PlacedSequential(runs, startMs);
            SameButShifted(runs[k], placed[k]) &&
            (AllTimes(runs[k]) != [] ==>
              AllTimes(placed[k]) != [] &&
              Start(placed[k]) == SequentialStart(runs, startMs, k) &&
              End(placed[k]) == SequentialStart(runs, startMs, k + 1))
  {
    hide Start, End, AllTimes, MoveTo, Duration, SameButShifted, TotalSpan;
    MoveKeeps(runs[k], SequentialStart(runs, startMs, k));
    SpanNext(runs, k);
    if AllTimes(runs[k]) != [] {
      MoveBounds(runs[k], SequentialStart(runs, startMs, k));
    }
  }

  lemma SameStart<T>(runs: seq<Run<T>>, startMs: int, j: nat, k: nat)
    requires j <= k <= |runs| && forall i :: j <= i < k ==> AllTimes(runs[i]) == []
    ensures SequentialStart(runs, startMs, j) == SequentialStart(runs, startMs, k)
  {
    SpanOfEmpty(runs, j, k);
  }

  /** Sequential runs tile time: each run with timestamps ends at the very instant the next one starts. */
  lemma SequentialTiles<T>(runs: seq<Run<T>>, startMs: int, j: nat, k: nat)
    requires Consecutive(runs, j, k)
    ensures var placed := PlacedSequential(runs, startMs);
            AllTimes(placed[j]) != [] && AllTimes(placed[k]) != [] && End(placed[j]) == Start(placed[k])
  {
    hide Start, End, AllTimes, MoveTo, Duration, SameButShifted, SequentialStart;
    assert SequentialStart(runs, startMs, j + 1) == SequentialStart(runs, startMs, k) by {
      SameStart(runs, startMs, j + 1, k);
    }
    SequentialEnds(runs, startMs, j);
    SequentialEnds(runs, startMs, k);
  }

  /** No run between two places has timestamps. */
  ghost predicate EmptyBetween<T>(runs: seq<Run<T>>, j: nat, k: nat)
    requires k <= |runs|
  {
    forall i :: j <= i < k ==> AllTimes(runs[i]) == []
  }

  /** The first run with timestamps starts the summed durations before start_ms; the last ends exactly there. */
  lemma SequentialExtent<T>(runs: seq<Run<T>>, startMs: int, k: nat)
    requires k < |runs| && AllTimes(runs[k]) != []
    ensures var placed := PlacedSequential(runs, startMs);
            AllTimes(placed[k]) != [] &&
            (EmptyBetween(runs, 0, k) ==> Start(placed[k]) == startMs - TotalSpan(runs)) &&
            (EmptyBetween(runs, k + 1, |runs|) ==> End(placed[k]) == startMs)
  {
    SequentialEnds(runs, startMs, k);
    if EmptyBetween(runs, 0, k) {
      StartOfFirst(runs, startMs, k);
    }
    if EmptyBetween(runs, k + 1, |runs|) {
      StartPastLast(runs, startMs, k + 1);
    }
    hide Start, End, AllTimes, MoveTo, Duration, SameButShifted, SequentialStart, PlacedSequential, TotalSpan, EmptyBetween;
  }

  lemma StartOfFirst<T>(runs: seq<Run<T>>, startMs: int, k: nat)
    requires k <= |runs| && forall i :: 0 <= i < k ==> AllTimes(runs[i]) == []
    ensures SequentialStart(runs, startMs, k) == startMs - TotalSpan(runs)
  {
    SpanOfEmpty(runs, 0, k);
    NoRuns(runs);
  }

  lemma StartPastLast<T>(runs: seq<Run<T>>, startMs: int, k: nat)
    requires k <= |runs| && forall i :: k <= i < |runs| ==> AllTimes(runs[i]) == []
    ensures SequentialStart(runs, startMs, k) == startMs
  {
    hide AllTimes, Duration, TotalSpan;
    SpanOfEmpty(runs, k, |runs|);
    assert runs[..|runs|] == runs;
  }

  // ---------------------------------------------------------------- align_parallel

  /**
   Parallel runs: each run with timestamps starts the longest duration before start_ms, none ends after
   start_ms, some run ends exactly there, and every run keeps its entries, values and gaps.
   */
  lemma ParallelAligns<T>(runs: seq<Run<T>>, startMs: int)
    ensures var placed := PlacedParallel(runs, startMs);
            forall k :: 0 <= k < |runs| ==>
              SameButShifted(runs[k], placed[k]) &&
              (AllTimes(runs[k]) != [] ==>
                AllTimes(placed[k]) != [] &&
                Start(placed[k]) == startMs - MaxDuration(runs) && End(placed[k]) <= startMs)
    ensures var placed := PlacedParallel(runs, startMs);
            (exists k :: 0 <= k < |runs| && AllTimes(runs[k]) != []) ==>
              exists k :: 0 <= k < |runs| && AllTimes(placed[k]) != [] && End(placed[k]) == startMs
  {
    hide Start, End, AllTimes, MoveTo, Duration, SameButShifted, MaxDuration;
    var placed, at := PlacedParallel(runs, startMs), ParallelStart(runs, startMs);
    forall k | 0 <= k < |runs|
      ensures SameButShifted(runs[k], placed[k])
      ensures AllTimes(runs[k]) != [] ==>
                AllTimes(placed[k]) != [] && Start(placed[k]) == at && End(placed[k]) == at + Duration(runs[k])
    {
      MoveKeeps(runs[k], at);
      if AllTimes(runs[k]) != [] {
        MoveBounds(runs[k], at);
      }
    }
    MaxDurationIs(runs);
    if k :| 0 <= k < |runs| && AllTimes(runs[k]) != [] {
      if MaxDuration(runs) == 0 {
        assert Duration(runs[k]) == 0 && End(placed[k]) == startMs;
      } else {
        var j :| 0 <= j < |runs| && Duration(runs[j]) == MaxDuration(runs);
        DurationIs(runs[j]);
        assert End(placed[j]) == startMs;
      }
    }
  }

  // ---------------------------------------------------------------- on the timestamps themselves

  /** Some entry of the run has that timestamp. */
  ghost predicate HasTime<T>(run: Run<T>, t: int) {
    exists i :: 0 <= i < |run| && t in run[i].timestamps
  }

  /** The longest time between two timestamps of a run; 0 if it has none. */
  ghost predicate IsSpan<T>(run: Run<T>, d: int) {
    && (forall a, b :: HasTime(run, a) && HasTime(run, b) ==> b - a <= d)
    && ((exists a, b :: HasTime(run, a) && HasTime(run, b) && b - a == d) || (d == 0 && !exists a :: HasTime(run, a)))
  }

  lemma {:induction false} TimesAre<T>(run: Run<T>, t: int)
    ensures t in AllTimes(run) <==> HasTime(run, t)
  {
    if run != [] {
      var front, last := run[..|run| - 1], run[|run| - 1];
      TimesAre(front, t);
      assert forall i :: 0 <= i < |front| ==> run[i] == front[i];
      assert HasTime(run, t) <==> HasTime(front, t) || t in last.timestamps;
    }
  }

  /** A run starts and ends at timestamps of its own, and the others lie between. */
  lemma RunExtent<T>(run: Run<T>)
    ensures AllTimes(run) != [] <==> exists t :: HasTime(run, t)
    ensures AllTimes(run) != [] ==>
              HasTime(run, Start(run)) && HasTime(run, End(run)) && forall t :: HasTime(run, t) ==> Start(run) <= t <= End(run)
  {
    forall t ensures t in AllTimes(run) <==> HasTime(run, t) {
      TimesAre(run, t);
    }
    if AllTimes(run) != [] {
      assert AllTimes(run)[0] in AllTimes(run);
      ExtremesBound(AllTimes(run));
    }
  }

  lemma SpanIsDuration<T>(run: Run<T>, d: int)
    requires IsSpan(run, d)
    ensures Duration(run) == d
  {
    hide HasTime, Start, End, AllTimes;
    RunExtent(run);
    DurationOf(run);
  }

  lemma DurationOf<T>(run: Run<T>)
    ensures Duration(run) == if AllTimes(run) == [] then 0 else End(run) - Start(run)
  {
  }

  /**
   Parallel runs: with the longest span d of all runs, every timestamp lands in the last d before start_ms;
   each run with timestamps reaches the beginning of that stretch and some run reaches start_ms.
   */
  lemma ParallelOnTimestamps<T>(runs: seq<Run<T>>, startMs: int, spans: seq<int>, d: int)
    requires |spans| == |runs| && forall k :: 0 <= k < |runs| ==> IsSpan(runs[k], spans[k]) && spans[k] <= d
    requires exists k :: 0 <= k < |runs| && spans[k] == d && exists t :: HasTime(runs[k], t)
    ensures var placed := PlacedParallel(runs, startMs);
            (forall k, t :: 0 <= k < |runs| && HasTime(placed[k], t) ==> startMs - d <= t <= startMs) &&
            (forall k :: 0 <= k < |runs| && (exists t :: HasTime(runs[k], t)) ==> HasTime(placed[k], startMs - d)) &&
            exists k :: 0 <= k < |runs| && HasTime(placed[k], startMs)
  {
    hide HasTime, IsSpan, Start, End, AllTimes, MoveTo, Duration, SameButShifted, MaxDuration, PlacedParallel;
    var placed := PlacedParallel(runs, startMs);
    ParallelAligns(runs, startMs);
    MaxDurationIs(runs);
    forall k | 0 <= k < |runs| ensures Duration(runs[k]) == spans[k] {
      SpanIsDuration(runs[k], spans[k]);
    }
    forall k | 0 <= k < |runs|
      ensures AllTimes(runs[k]) != [] <==> exists t :: HasTime(runs[k], t)
      ensures AllTimes(placed[k]) != [] ==>
                HasTime(placed[k], Start(placed[k])) && HasTime(placed[k], End(placed[k])) &&
                forall t :: HasTime(placed[k], t) ==> Start(placed[k]) <= t <= End(placed[k])
      ensures AllTimes(placed[k]) == [] ==> forall t :: !HasTime(placed[k], t)
      ensures AllTimes(placed[k]) != [] ==> AllTimes(runs[k]) != []
    {
      RunExtent(runs[k]);
      RunExtent(placed[k]);
      PlacedTimes(runs, startMs, k);
    }
    assert MaxDuration(runs) == d;
  }

  lemma PlacedTimes<T>(runs: seq<Run<T>>, startMs: int, k: nat)
    requires k < |runs|
    ensures AllTimes(runs[k]) == [] ==>
              AllTimes(PlacedParallel(runs, startMs)[k]) == [] && AllTimes(PlacedSequential(runs, startMs)[k]) == []
  {
  }

  function Sum(xs: seq<int>): int {
    if xs == [] then 0 else xs[0] + Sum(xs[1..])
  }

  lemma {:induction false} SumIsSpan<T>(runs: seq<Run<T>>, spans: seq<int>, k: nat)
    requires |spans| == |runs| && k <= |runs| && forall i :: 0 <= i < |runs| ==> Duration(runs[i]) == spans[i]
    ensures TotalSpan(runs) == TotalSpan(runs[..k]) + Sum(spans[k..])
    decreases |runs| - k
  {
    hide Duration;
    if k < |runs| {
      SumIsSpan(runs, spans, k + 1);
      SpanNext(runs, k);
      assert spans[k..][1..] == spans[k + 1..];
    } else {
      assert runs[..k] == runs;
    }
  }

  /**
   Sequential runs: every timestamp of a run lands in the run's own stretch, which ends before start_ms by the
   spans of all later runs, and the run reaches both ends of it.
   */
  lemma SequentialOnTimestamps<T>(runs: seq<Run<T>>, startMs: int, spans: seq<int>, k: nat)
    requires |spans| == |runs| && k < |runs| && forall i :: 0 <= i < |runs| ==> IsSpan(runs[i], spans[i])
    ensures var run, low, high := PlacedSequential(runs, startMs)[k], startMs - Sum(spans[k..]), startMs - Sum(spans[k + 1..]);
            (forall t :: HasTime(run, t) ==> low <= t <= high) &&
            ((exists t :: HasTime(runs[k], t)) ==> HasTime(run, low) && HasTime(run, high))
  {
    hide HasTime, IsSpan, Start, End, AllTimes, MoveTo, Duration, SameButShifted, TotalSpan, PlacedSequential;
    var run := PlacedSequential(runs, startMs)[k];
    forall i | 0 <= i < |runs| ensures Duration(runs[i]) == spans[i] {
      SpanIsDuration(runs[i], spans[i]);
    }
    SumIsSpan(runs, spans, k);
    SumIsSpan(runs, spans, k + 1);
    SequentialEnds(runs, startMs, k);
    RunExtent(runs[k]);
    RunExtent(run);
    PlacedTimes(runs, startMs, k);
  }

  // ---------------------------------------------------------------- independence of the input clocks

  function ShiftRuns<T>(runs: seq<Run<T>>, offsets: seq<int>): (r: seq<Run<T>>)
    requires |offsets| == |runs|
    ensures |r| == |runs| && forall k :: 0 <= k < |runs| ==> r[k] == Shift(runs[k], offsets[k])
  {
    seq(|runs|, k requires 0 <= k < |runs| => Shift(runs[k], offsets[k]))
  }

  lemma {:induction false} SpansForget<T>(runs: seq<Run<T>>, offsets: seq<int>)
    requires |offsets| == |runs|
    ensures TotalSpan(ShiftRuns(runs, offsets)) == TotalSpan(runs)
    ensures MaxDuration(ShiftRuns(runs, offsets)) == MaxDuration(runs)
  {
    hide Duration;
    if runs != [] {
      var n := |runs| - 1;
      SpansForget(runs[..n], offsets[..n]);
      assert ShiftRuns(runs, offsets)[..n] == ShiftRuns(runs[..n], offsets[..n]);
      MoveForgets(runs[n], offsets[n], 0);
    }
  }

  /** Shifting every input run by a constant of its own changes nothing in either mode. */
  lemma InputClocksIrrelevant<T>(runs: seq<Run<T>>, offsets: seq<int>, startMs: int)
    requires |offsets| == |runs|
    ensures PlacedParallel(ShiftRuns(runs, offsets), startMs) == PlacedParallel(runs, startMs)
    ensures PlacedSequential(ShiftRuns(runs, offsets), startMs) == PlacedSequential(runs, startMs)
  {
    hide Start, End, AllTimes, Shift, MoveTo, Duration, MaxDuration, TotalSpan;
    var shifted := ShiftRuns(runs, offsets);
    SpansForget(runs, offsets);
    forall k | 0 <= k < |runs|
      ensures PlacedParallel(shifted, startMs)[k] == PlacedParallel(runs, startMs)[k]
      ensures PlacedSequential(shifted, startMs)[k] == PlacedSequential(runs, startMs)[k]
    {
      SpansForget(runs[..k], offsets[..k]);
      assert shifted[..k] == ShiftRuns(runs[..k], offsets[..k]);
      MoveForgets(runs[k], offsets[k], ParallelStart(runs, startMs));
      MoveForgets(runs[k], offsets[k], SequentialStart(runs, startMs, k));
    }
  }
}
