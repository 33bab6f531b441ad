/**
 The step builder of the Allure report: a bracket parser over the flat list of By() events, which
 also hands out attachments, logs, parameters and the failure by windows of timeline orders.
 */
module AllureSteps {
  import opened Strings
  import opened Wrappers

  datatype Kind = ByStart | ByEnd | OtherEvent

  /** `time` is in nanoseconds since the epoch. */
  datatype Event = Event(kind: Kind, message: string, line: int, order: int, time: nat)

  /** An attachment, log or parameter entry; `value` is its payload, already parsed. */
  datatype Entry = Entry(order: int, time: nat, value: string)

  datatype Context = Context(entries: seq<Entry>, logs: seq<Entry>, parameters: seq<Entry>, failureOrder: int)

  /** An attachment of a step: the report entry with that index, or the file of its joined logs. */
  datatype Attachment = FromEntry(index: nat) | LogFile(text: string)

  datatype Step = Step(
    name: string, failed: bool, start: nat, stop: nat, children: seq<Step>,
    attachments: seq<Attachment>, parameters: seq<string>)

  const MAX_ORDER := 0x7fff_ffff

  function Milliseconds(time: nat): nat {
    time / 1_000_000
  }

  function Later(a: nat, b: nat): nat {
    if b > a then b else a
  }

  /** Ginkgo numbers the events of a timeline in increasing order. */
  ghost predicate Increasing(events: seq<Event>) {
    forall i, j :: 0 <= i < j < |events| ==> events[i].order < events[j].order
  }

  // ---------------------------------------------------------------- search

  predicate Ends(e: Event, start: Event) {
    e.kind == ByEnd && start.line == e.line && start.order < e.order
  }

  function FirstEnd(events: seq<Event>, start: Event, from: nat): (r: Option<nat>)
    requires from <= |events|
    ensures r.Some? ==> from <= r.value < |events| && Ends(events[r.value], start)
    ensures forall i :: from <= i < (if r.Some? then r.value else |events|) ==> !Ends(events[i], start)
    decreases |events| - from
  {
    if from == |events| then None
    else if Ends(events[from], start) then Some(from)
    else FirstEnd(events, start, from + 1)
  }

  function FindByEventEnd(events: seq<Event>, start: Event): (r: Option<nat>)
    ensures r.Some? ==> r.value < |events| && Ends(events[r.value], start)
    ensures forall i :: 0 <= i < (if r.Some? then r.value else |events|) ==> !Ends(events[i], start)
  {
    FirstEnd(events, start, 0)
  }

  /** The order of the first step start at or after an index: where the window of a step closes. */
  function StretchLimit(events: seq<Event>, from: nat): int
    requires from <= |events|
    decreases |events| - from
  {
    if from == |events| then MAX_ORDER
    else if events[from].kind == ByStart then events[from].order
    else StretchLimit(events, from + 1)
  }

  /** It is the order of the first start from there on, or the largest order when there is none. */
  lemma {:induction false} StretchLimitIs(events: seq<Event>, from: nat, k: nat)
    requires from <= k <= |events| && forall j :: from <= j < k ==> events[j].kind != ByStart
    requires k < |events| ==> events[k].kind == ByStart
    ensures StretchLimit(events, from) == if k < |events| then events[k].order else MAX_ORDER
    decreases k - from
  {
    if from < k {
      StretchLimitIs(events, from + 1, k);
    }
  }

  // ---------------------------------------------------------------- windows

  predicate InWindow(order: int, low: int, high: int) {
    low < order < high
  }

  /** The indices among the first n entries that a window claims and nobody claimed before. */
  function Owned(entries: seq<Entry>, low: int, high: int, skip: set<nat>, n: nat): (owned: seq<nat>)
    requires n <= |entries|
    ensures forall i :: i in owned <==> 0 <= i < n && i !in skip && InWindow(entries[i].order, low, high)
  {
    if n == 0 then []
    else
      var before := Owned(entries, low, high, skip, n - 1);
      if n - 1 !in skip && InWindow(entries[n - 1].order, low, high) then before + [n - 1] else before
  }

  function Elements(xs: seq<nat>): set<nat> {
    set x | x in xs
  }

  function AsAttachments(owned: seq<nat>): (atts: seq<Attachment>)
    ensures |atts| == |owned| && forall i :: 0 <= i < |owned| ==> atts[i] == FromEntry(owned[i])
  {
    seq(|owned|, i requires 0 <= i < |owned| => FromEntry(owned[i]))
  }

  /** The payloads among the first n entries that lie in a window. */
  function ValuesIn(entries: seq<Entry>, low: int, high: int, n: nat): seq<string>
    requires n <= |entries|
  {
    if n == 0 then []
    else
      var before := ValuesIn(entries, low, high, n - 1);
      if InWindow(entries[n - 1].order, low, high) then before + [entries[n - 1].value] else before
  }

  function LatestIn(entries: seq<Entry>, low: int, high: int, skip: set<nat>, base: nat, n: nat): nat
    requires n <= |entries|
  {
    if n == 0 then base
    else
      var before := LatestIn(entries, low, high, skip, base, n - 1);
      if n - 1 !in skip && InWindow(entries[n - 1].order, low, high) then Later(before, entries[n - 1].time) else before
  }

  function LogAttachment(lines: seq<string>): seq<Attachment> {
    if lines == [] then [] else [LogFile(Join(lines, "\n"))]
  }

  // ---------------------------------------------------------------- pairing

  /** The first end event on a line. */
  function EndOn(events: seq<Event>, line: int): (r: Option<nat>)
    ensures r.Some? ==> r.value < |events| && events[r.value].kind == ByEnd && events[r.value].line == line
  {
    if events == [] then None
    else if events[0].kind == ByEnd && events[0].line == line then Some(0)
    else
      var later :- EndOn(events[1..], line);
      Some(later + 1)
  }

  lemma {:induction false} EndOnIsFirst(events: seq<Event>, line: int)
    ensures var n := if EndOn(events, line).Some? then EndOn(events, line).value else |events|;
            forall i :: 0 <= i < n ==> !(events[i].kind == ByEnd && events[i].line == line)
  {
    if events != [] {
      EndOnIsFirst(events[1..], line);
      assert forall i :: 1 <= i < |events| ==> events[i] == events[1..][i - 1];
    }
  }

  /** A start event, the end event it is paired with if there is one, and the steps between them. */
  datatype Nest = Nest(start: Event, end: Option<Event>, children: seq<Nest>)

  /** Each start is paired with the first later end event on its line, which closes the step. */
  function Nests(events: seq<Event>): seq<Nest>
    decreases |events|
  {
    if events == [] then []
    else
      var start, rest := events[0], events[1..];
      if start.kind != ByStart then Nests(rest)
      else
        match EndOn(rest, start.line)
        case None => [Nest(start, None, [])] + Nests(rest)
        case Some(k) => [Nest(start, Some(rest[k]), Nests(rest[..k]))] + Nests(rest[k + 1..])
  }

  /** In timeline order, the reporter's search by line and order finds that event. */
  lemma EndFound(events: seq<Event>, i: nat)
    requires Increasing(events) && i < |events| && events[i].kind == ByStart
    ensures FindByEventEnd(events, events[i])
         == match EndOn(events[i + 1..], events[i].line) case None => None case Some(k) => Some(i + 1 + k)
  {
    var end, rest := FindByEventEnd(events, events[i]), events[i + 1..];
    var first := EndOn(rest, events[i].line);
    EndOnIsFirst(rest, events[i].line);
    if first.Some? {
      assert Ends(events[i + 1 + first.value], events[i]);
    }
    if end.Some? {
      assert end.value > i && rest[end.value - i - 1] == events[end.value];
    }
  }

  /** Where the window of the last step before a list of siblings closes. */
  function LimitOf(nests: seq<Nest>): int {
    if nests == [] then MAX_ORDER else nests[0].start.order
  }

  lemma {:induction false} LimitIsNextStart(events: seq<Event>, from: nat)
    requires from <= |events|
    ensures StretchLimit(events, from) == LimitOf(Nests(events[from..]))
    decreases |events| - from
  {
    if from < |events| {
      assert events[from..][1..] == events[from + 1..];
      LimitIsNextStart(events, from + 1);
    }
  }

  // ---------------------------------------------------------------- handing out

  /** The step of a paired start, given where its window closes, its children and what was claimed before. */
  function MakeStep(ctx: Context, start: Event, end: Option<Event>, limit: int, children: seq<Step>, skip: set<nat>): Step {
    var low := start.order;
    var base := if end.Some? then end.value.time else start.time;
    var t1 := LatestIn(ctx.entries, low, limit, skip, base, |ctx.entries|);
    var t2 := LatestIn(ctx.logs, low, limit, {}, t1, |ctx.logs|);
    var t3 := LatestIn(ctx.parameters, low, limit, {}, t2, |ctx.parameters|);
    Step(
      start.message,
      ctx.failureOrder > 0 && InWindow(ctx.failureOrder, low, limit),
      Milliseconds(start.time),
      if t3 > start.time then Milliseconds(t3) else Milliseconds(base),
      children,
      AsAttachments(Owned(ctx.entries, low, limit, skip, |ctx.entries|))
        + LogAttachment(ValuesIn(ctx.logs, low, limit, |ctx.logs|)),
      ValuesIn(ctx.parameters, low, limit, |ctx.parameters|))
  }

  /**
   The steps of a list of siblings, and the entries claimed by then; children do not see what was claimed
   before.
   */
  function HandOut(ctx: Context, nests: seq<Nest>, skip: set<nat>): (seq<Step>, set<nat>) {
    if nests == [] then ([], skip)
    else
      var head, limit := nests[0], LimitOf(nests[1..]);
      var inner := HandOut(ctx, head.children, {});
      var claimed := skip + inner.1;
      var rest := HandOut(ctx, nests[1..], claimed + Claims(ctx, head, limit, claimed));
      ([MakeStep(ctx, head.start, head.end, limit, inner.0, claimed)] + rest.0, rest.1)
  }

  function Claims(ctx: Context, head: Nest, limit: int, claimed: set<nat>): set<nat> {
    Elements(Owned(ctx.entries, head.start.order, limit, claimed, |ctx.entries|))
  }

  /** What the reporter's single pass amounts to: pair all events, then hand out. */
  function Build(ctx: Context, events: seq<Event>): (seq<Step>, set<nat>) {
    HandOut(ctx, Nests(events), {})
  }

  // ---------------------------------------------------------------- the builder, as the reporter runs it

  lemma NoneOwned()
    ensures AsAttachments([]) == [] && Elements([]) == {}
  {
  }

  lemma OneMoreOwned(owned: seq<nat>, skip: set<nat>, i: nat)
    ensures AsAttachments(owned + [i]) == AsAttachments(owned) + [FromEntry(i)]
    ensures skip + Elements(owned + [i]) == skip + Elements(owned) + {i}
    ensures forall x :: x in Elements(owned) <==> x in owned
  {
  }

  method ClaimAttachments(entries: seq<Entry>, low: int, high: int, skip: set<nat>, base: nat)
    returns (attachments: seq<Attachment>, indicesToSkip: set<nat>, maxTime: nat)
    ensures var owned := Owned(entries, low, high, skip, |entries|);
            attachments == AsAttachments(owned) && indicesToSkip == skip + Elements(owned)
    ensures maxTime == LatestIn(entries, low, high, skip, base, |entries|)
  {
    hide Elements, AsAttachments;
    attachments, indicesToSkip, maxTime := [], skip, base;
    NoneOwned();
    for i := 0 to |entries|
      invariant attachments == AsAttachments(Owned(entries, low, high, skip, i))
      invariant indicesToSkip == skip + Elements(Owned(entries, low, high, skip, i))
      invariant maxTime == LatestIn(entries, low, high, skip, base, i)
    {
      ghost var owned := Owned(entries, low, high, skip, i);
      OneMoreOwned(owned, skip, i);
      if i !in indicesToSkip {
        if entries[i].order > low && entries[i].order < high {
          attachments := attachments + [FromEntry(i)];
          indicesToSkip := indicesToSkip + {i};
          if entries[i].time > maxTime {
            maxTime := entries[i].time;
          }
        }
      }
    }
  }

  method CollectValues(entries: seq<Entry>, low: int, high: int, base: nat)
    returns (values: seq<string>, maxTime: nat)
    ensures values == ValuesIn(entries, low, high, |entries|)
    ensures maxTime == LatestIn(entries, low, high, {}, base, |entries|)
  {
    values, maxTime := [], base;
    for i := 0 to |entries|
      invariant values == ValuesIn(entries, low, high, i)
      invariant maxTime == LatestIn(entries, low, high, {}, base, i)
    {
      if entries[i].order > low && entries[i].order < high {
        values := values + [entries[i].value];
        if entries[i].time > maxTime {
          maxTime := entries[i].time;
        }
      }
    }
  }

  method FindStretchLimit(events: seq<Event>, from: nat) returns (limit: int)
    requires from <= |events|
    ensures limit == StretchLimit(events, from)
  {
    limit := MAX_ORDER;
    var j := from;
    while j < |events|
      invariant from <= j <= |events|
      invariant limit == MAX_ORDER && StretchLimit(events, from) == StretchLimit(events, j)
    {
      if events[j].kind == ByStart {
        limit := events[j].order;
        break;
      }
      j := j + 1;
    }
  }

  /** The body of the loop once the children of a step are known. */
  method FinishStep(ctx: Context, startEvent: Event, endEvent: Option<Event>, limit: int, children: seq<Step>, skip: set<nat>)
    returns (step: Step, indicesToSkip: set<nat>)
    ensures step == MakeStep(ctx, startEvent, endEvent, limit, children, skip)
    ensures indicesToSkip == skip + Elements(Owned(ctx.entries, startEvent.order, limit, skip, |ctx.entries|))
  {
    var stop, maxTime := Milliseconds(startEvent.time), startEvent.time;
    if endEvent.Some? {
      stop, maxTime := Milliseconds(endEvent.value.time), endEvent.value.time;
    }
    var failed := ctx.failureOrder > 0 && ctx.failureOrder > startEvent.order && ctx.failureOrder < limit;
    var attachments, logs, parameters;
    attachments, indicesToSkip, maxTime := ClaimAttachments(ctx.entries, startEvent.order, limit, skip, maxTime);
    logs, maxTime := CollectValues(ctx.logs, startEvent.order, limit, maxTime);
    if |logs| > 0 {
      attachments := attachments + [LogFile(Join(logs, "\n"))];
    }
    parameters, maxTime := CollectValues(ctx.parameters, startEvent.order, limit, maxTime);
    if maxTime > startEvent.time {
      stop := Milliseconds(maxTime);
    }
    step := Step(startEvent.message, failed, Milliseconds(startEvent.time), stop, children, attachments, parameters);
  }

  /** One round of the loop, for a start event at index i that ends before index `next`. */
  lemma OneStart(ctx: Context, events: seq<Event>, i: nat, skip: set<nat>, end: Option<nat>, next: nat)
    requires Increasing(events) && i < |events| && events[i].kind == ByStart
    requires end == FindByEventEnd(events, events[i]) && next == if end.Some? then end.value + 1 else i + 1
    ensures i < next <= |events|
    ensures var inner := if end.Some? then Build(ctx, events[i + 1..end.value]) else ([], {});
            var endEvent := if end.Some? then Some(events[end.value]) else None;
            var limit, claimed := StretchLimit(events, next), skip + inner.1;
            var owned := Owned(ctx.entries, events[i].order, limit, claimed, |ctx.entries|);
            var rest := HandOut(ctx, Nests(events[next..]), claimed + Elements(owned));
            HandOut(ctx, Nests(events[i..]), skip)
            == ([MakeStep(ctx, events[i], endEvent, limit, inner.0, claimed)] + rest.0, rest.1)
  {
    hide MakeStep, Owned, Elements, StretchLimit, EndOn;
    EndFound(events, i);
    LimitIsNextStart(events, next);
    assert events[i..][1..] == events[i + 1..];
    var all := Nests(events[i..]);
    if end.Some? {
      var k := end.value - i - 1;
      assert events[i + 1..][..k] == events[i + 1..end.value] && events[i + 1..][k + 1..] == events[next..];
      assert all == [Nest(events[i], Some(events[end.value]), Nests(events[i + 1..end.value]))] + Nests(events[next..]);
    } else {
      assert all == [Nest(events[i], None, [])] + Nests(events[next..]);
    }
    assert all[1..] == Nests(events[next..]);
  }

  lemma SkipEvent(events: seq<Event>, i: nat)
    requires i < |events| && events[i].kind != ByStart
    ensures Nests(events[i..]) == Nests(events[i + 1..])
  {
    assert events[i..][1..] == events[i + 1..];
  }

  method CreateSteps(ctx: Context, events: seq<Event>) returns (steps: seq<Step>, indicesToSkip: set<nat>)
    requires Increasing(events)
    ensures (steps, indicesToSkip) == Build(ctx, events)
    decreases |events|
  {
    hide MakeStep, Owned, Elements, StretchLimit, Nests, HandOut, FindByEventEnd;
    var currentEndIndex := -1;
    steps, indicesToSkip := [], {};
    assert events[0..] == events && [] + Build(ctx, events).0 == Build(ctx, events).0;
    for i := 0 to |events|
      invariant -1 <= currentEndIndex < |events|
      invariant var rest := HandOut(ctx, Nests(events[if currentEndIndex >= i then currentEndIndex + 1 else i..]), indicesToSkip);
                Build(ctx, events) == (steps + rest.0, rest.1)
    {
      if currentEndIndex >= i {
        // Skip the events already nested in the last step.
        continue;
      }
      var startEvent := events[i];
      if startEvent.kind == ByStart {
        ghost var before := indicesToSkip;
        var end := FindByEventEnd(events, startEvent);
        var endEvent, stretchSearchIndex := None, i + 1;
        var children: seq<Step> := [];
        if end.Some? {
          endEvent, stretchSearchIndex := Some(events[end.value]), end.value + 1;
        }
        OneStart(ctx, events, i, before, end, stretchSearchIndex);
        assert before + {} == before;
        if end.Some? {
          var toSkip;
          IncreasingSlice(events, i + 1, end.value);
          children, toSkip := CreateSteps(ctx, events[i + 1..end.value]);
          indicesToSkip := indicesToSkip + toSkip;
          currentEndIndex := end.value;
        }
        var limit := FindStretchLimit(events, stretchSearchIndex);
        var step;
        step, indicesToSkip := FinishStep(ctx, startEvent, endEvent, limit, children, indicesToSkip);
        ghost var rest := HandOut(ctx, Nests(events[stretchSearchIndex..]), indicesToSkip);
        assert steps + ([step] + rest.0) == (steps + [step]) + rest.0;
        steps := steps + [step];
      } else {
        SkipEvent(events, i);
      }
    }
    NothingLeft(ctx, events, indicesToSkip);
    assert steps + [] == steps;
  }

  lemma NothingLeft(ctx: Context, events: seq<Event>, skip: set<nat>)
    ensures HandOut(ctx, Nests(events[|events|..]), skip) == ([], skip)
  {
  }

  lemma IncreasingSlice(events: seq<Event>, i: nat, j: nat)
    requires Increasing(events) && i <= j <= |events|
    ensures Increasing(events[i..j])
  {
  }

  // ---------------------------------------------------------------- every start once

  function StartNames(events: seq<Event>): seq<string> {
    if events == [] then []
    else if events[0].kind == ByStart then [events[0].message] + StartNames(events[1..])
    else StartNames(events[1..])
  }

  /** Names, start times and nesting. */
  datatype Shape = Shape(name: string, start: nat, children: seq<Shape>)

  function StepsShape(steps: seq<Step>): seq<Shape> {
    if steps == [] then []
    else [Shape(steps[0].name, steps[0].start, StepsShape(steps[0].children))] + StepsShape(steps[1..])
  }

  function NestShape(nests: seq<Nest>): seq<Shape> {
    if nests == [] then []
    else [Shape(nests[0].start.message, Milliseconds(nests[0].start.time), NestShape(nests[0].children))] + NestShape(nests[1..])
  }

  /** Names, parents before their children. */
  function Preorder(shapes: seq<Shape>): seq<string> {
    if shapes == [] then [] else [shapes[0].name] + Preorder(shapes[0].children) + Preorder(shapes[1..])
  }

  /** Handing out leaves names, start times and nesting alone. */
  lemma {:induction false} HandOutShape(ctx: Context, nests: seq<Nest>, skip: set<nat>)
    ensures StepsShape(HandOut(ctx, nests, skip).0) == NestShape(nests)
  {
    hide Claims, Owned, ValuesIn, LatestIn, AsAttachments, LogAttachment;
    if nests != [] {
      var limit := LimitOf(nests[1..]);
      var inner := HandOut(ctx, nests[0].children, {});
      var claimed := skip + inner.1;
      var rest := HandOut(ctx, nests[1..], claimed + Claims(ctx, nests[0], limit, claimed));
      HandOutShape(ctx, nests[0].children, {});
      HandOutShape(ctx, nests[1..], claimed + Claims(ctx, nests[0], limit, claimed));
      assert HandOut(ctx, nests, skip).0[1..] == rest.0;
    }
  }

  lemma {:induction false} StartNamesSplit(a: seq<Event>, b: seq<Event>)
    ensures StartNames(a + b) == StartNames(a) + StartNames(b)
  {
    if a == [] {
      assert a + b == b;
    } else {
      assert (a + b)[1..] == a[1..] + b;
      StartNamesSplit(a[1..], b);
    }
  }

  lemma {:induction false} NestNames(events: seq<Event>)
    ensures Preorder(NestShape(Nests(events))) == StartNames(events)
    decreases |events|
  {
    hide EndOn;
    if events != [] {
      var start, rest := events[0], events[1..];
      var end := EndOn(rest, start.line);
      if start.kind != ByStart || end.None? {
        NestNames(rest);
        assert start.kind == ByStart ==> Nests(events)[1..] == Nests(rest);
      } else {
        var k := end.value;
        assert rest == rest[..k] + ([rest[k]] + rest[k + 1..]);
        StartNamesSplit(rest[..k], [rest[k]] + rest[k + 1..]);
        assert ([rest[k]] + rest[k + 1..])[1..] == rest[k + 1..];
        NestNames(rest[..k]);
        NestNames(rest[k + 1..]);
        assert Nests(events)[1..] == Nests(rest[k + 1..]);
      }
    }
  }

  /**
   However starts and ends are paired, no step is lost, repeated or reordered: read parents first,
   the steps are exactly the start events in the order of the timeline.
   */
  lemma EveryStartOnce(ctx: Context, events: seq<Event>)
    ensures Preorder(StepsShape(Build(ctx, events).0)) == StartNames(events)
  {
    HandOutShape(ctx, Nests(events), {});
    NestNames(events);
  }

  // ---------------------------------------------------------------- attachments, any events

  function OwnCarried(atts: seq<Attachment>): set<nat> {
    set k | 0 <= k < |atts| && atts[k].FromEntry? :: atts[k].index
  }

  /** The report entries that some step of a forest carries. */
  function Carried(steps: seq<Step>): set<nat> {
    if steps == [] then {}
    else OwnCarried(steps[0].attachments) + Carried(steps[0].children) + Carried(steps[1..])
  }

  lemma OwnCarriedIs(owned: seq<nat>, lines: seq<string>)
    ensures OwnCarried(AsAttachments(owned) + LogAttachment(lines)) == Elements(owned)
  {
    var atts := AsAttachments(owned) + LogAttachment(lines);
    forall x | x in Elements(owned) ensures x in OwnCarried(atts) {
      var k :| 0 <= k < |owned| && owned[k] == x;
      assert atts[k] == FromEntry(x);
    }
  }

  /** The claimed set is exactly what the steps carry, however deep, besides what was claimed before. */
  lemma {:induction false} ClaimedIsCarried(ctx: Context, nests: seq<Nest>, skip: set<nat>)
    ensures HandOut(ctx, nests, skip).1 == skip + Carried(HandOut(ctx, nests, skip).0)
  {
    hide Owned, ValuesIn, LatestIn, AsAttachments, LogAttachment, OwnCarried, Elements;
    if nests != [] {
      var limit := LimitOf(nests[1..]);
      var inner := HandOut(ctx, nests[0].children, {});
      var claimed := skip + inner.1;
      var next := claimed + Claims(ctx, nests[0], limit, claimed);
      ClaimedIsCarried(ctx, nests[0].children, {});
      ClaimedIsCarried(ctx, nests[1..], next);
      OwnCarriedIs(Owned(ctx.entries, nests[0].start.order, limit, claimed, |ctx.entries|),
        ValuesIn(ctx.logs, nests[0].start.order, limit, |ctx.logs|));
      var steps := HandOut(ctx, nests, skip).0;
      assert steps[1..] == HandOut(ctx, nests[1..], next).0;
      assert steps[0].children == inner.0;
    }
  }

  /** The entries that createFromSpecReport keeps at result level. */
  method Leftovers(entries: seq<Entry>, toSkip: set<nat>) returns (kept: seq<nat>)
    ensures forall i :: i in kept <==> 0 <= i < |entries| && i !in toSkip
    ensures forall j, k :: 0 <= j < k < |kept| ==> kept[j] < kept[k]
  {
    kept := [];
    for i := 0 to |entries|
      invariant forall k :: k in kept <==> 0 <= k < i && k !in toSkip
      invariant forall j :: 0 <= j < |kept| ==> kept[j] < i
      invariant forall j, k :: 0 <= j < k < |kept| ==> kept[j] < kept[k]
    {
      if i !in toSkip {
        kept := kept + [i];
      }
    }
  }

  /** For any events: an attachment stays at result level if and only if no step of the tree carries it. */
  method ReportAttachments(ctx: Context, events: seq<Event>) returns (steps: seq<Step>, kept: seq<nat>)
    requires Increasing(events)
    ensures steps == Build(ctx, events).0
    ensures forall i :: i in kept <==> 0 <= i < |ctx.entries| && i !in Carried(steps)
    ensures forall j, k :: 0 <= j < k < |kept| ==> kept[j] < kept[k]
  {
    var toSkip;
    steps, toSkip := CreateSteps(ctx, events);
    kept := Leftovers(ctx.entries, toSkip);
    ClaimedIsCarried(ctx, Nests(events), {});
  }

  // ---------------------------------------------------------------- the extent of a step

  lemma {:induction false} LatestBounds(entries: seq<Entry>, low: int, high: int, skip: set<nat>, base: nat, n: nat)
    requires n <= |entries|
    ensures var t := LatestIn(entries, low, high, skip, base, n);
            t >= base &&
            (forall i :: 0 <= i < n && i !in skip && InWindow(entries[i].order, low, high) ==> entries[i].time <= t) &&
            (t == base || exists i :: 0 <= i < n && i !in skip && InWindow(entries[i].order, low, high) && entries[i].time == t)
  {
    if n > 0 {
      LatestBounds(entries, low, high, skip, base, n - 1);
    }
  }

  /** The time of the step's own events and of everything it was handed. */
  ghost predicate TimeOf(ctx: Context, start: Event, end: Option<Event>, limit: int, skip: set<nat>, t: nat) {
    || t == start.time
    || (end.Some? && t == end.value.time)
    || (exists i :: 0 <= i < |ctx.entries| && i !in skip && InWindow(ctx.entries[i].order, start.order, limit) && ctx.entries[i].time == t)
    || (exists i :: 0 <= i < |ctx.logs| && InWindow(ctx.logs[i].order, start.order, limit) && ctx.logs[i].time == t)
    || (exists i :: 0 <= i < |ctx.parameters| && InWindow(ctx.parameters[i].order, start.order, limit) && ctx.parameters[i].time == t)
  }

  /** A step that does not end before it starts stops at the latest of these times. */
  lemma StopIsLatest(ctx: Context, start: Event, end: Option<Event>, limit: int, children: seq<Step>, skip: set<nat>)
    requires end.Some? ==> start.time <= end.value.time
    ensures var step := MakeStep(ctx, start, end, limit, children, skip);
            step.start <= step.stop &&
            (forall t :: TimeOf(ctx, start, end, limit, skip, t) ==> Milliseconds(t) <= step.stop) &&
            exists t :: TimeOf(ctx, start, end, limit, skip, t) && step.stop == Milliseconds(t)
  {
    var base := if end.Some? then end.value.time else start.time;
    LatestBounds(ctx.entries, start.order, limit, skip, base, |ctx.entries|);
    var t1 := LatestIn(ctx.entries, start.order, limit, skip, base, |ctx.entries|);
    LatestBounds(ctx.logs, start.order, limit, {}, t1, |ctx.logs|);
    var t2 := LatestIn(ctx.logs, start.order, limit, {}, t1, |ctx.logs|);
    LatestBounds(ctx.parameters, start.order, limit, {}, t2, |ctx.parameters|);
    var t3 := LatestIn(ctx.parameters, start.order, limit, {}, t2, |ctx.parameters|);
    assert TimeOf(ctx, start, end, limit, skip, t3);
    var step := MakeStep(ctx, start, end, limit, children, skip);
    assert step.stop == Milliseconds(t3);
    forall t | TimeOf(ctx, start, end, limit, skip, t) ensures Milliseconds(t) <= step.stop {
      assert t <= t3;
    }
  }

  /** The time where a step ends by itself, and the times of everything that lies in its window. */
  ghost predicate GivenTime(ctx: Context, start: Event, end: Option<Event>, limit: int, skip: set<nat>, t: nat) {
    || t == OwnTime(start, end)
    || (exists i :: 0 <= i < |ctx.entries| && i !in skip && start.order < ctx.entries[i].order < limit && ctx.entries[i].time == t)
    || (exists i :: 0 <= i < |ctx.logs| && start.order < ctx.logs[i].order < limit && ctx.logs[i].time == t)
    || (exists i :: 0 <= i < |ctx.parameters| && start.order < ctx.parameters[i].order < limit && ctx.parameters[i].time == t)
  }

  function OwnTime(start: Event, end: Option<Event>): nat {
    if end.Some? then end.value.time else start.time
  }

  ghost predicate WithinMillisecond(millisecond: nat, time: nat) {
    millisecond * 1_000_000 <= time < (millisecond + 1) * 1_000_000
  }

  /**
   Start and stop in any case, also for an end before its start: the stop is the latest given time if any of them is
   after the start, and the step's own end otherwise.
   */
  lemma StepTimes(ctx: Context, start: Event, end: Option<Event>, limit: int, children: seq<Step>, skip: set<nat>) returns (t: nat)
    ensures var step := MakeStep(ctx, start, end, limit, children, skip);
            WithinMillisecond(step.start, start.time) && WithinMillisecond(step.stop, t)
    ensures if exists u: nat :: GivenTime(ctx, start, end, limit, skip, u) && u > start.time
            then GivenTime(ctx, start, end, limit, skip, t) && forall u: nat :: GivenTime(ctx, start, end, limit, skip, u) ==> u <= t
            else t == OwnTime(start, end)
  {
    var base := OwnTime(start, end);
    LatestBounds(ctx.entries, start.order, limit, skip, base, |ctx.entries|);
    var t1 := LatestIn(ctx.entries, start.order, limit, skip, base, |ctx.entries|);
    LatestBounds(ctx.logs, start.order, limit, {}, t1, |ctx.logs|);
    var t2 := LatestIn(ctx.logs, start.order, limit, {}, t1, |ctx.logs|);
    LatestBounds(ctx.parameters, start.order, limit, {}, t2, |ctx.parameters|);
    var t3 := LatestIn(ctx.parameters, start.order, limit, {}, t2, |ctx.parameters|);
    var step := MakeStep(ctx, start, end, limit, children, skip);
    t := if t3 > start.time then t3 else base;
    assert step.start == start.time / 1_000_000 && step.stop == t / 1_000_000;
    hide MakeStep, LatestIn, Owned, ValuesIn;
    assert GivenTime(ctx, start, end, limit, skip, t3);
    assert forall u: nat :: GivenTime(ctx, start, end, limit, skip, u) ==> u <= t3;
  }

  /** A step's name, start, stop and children. */
  datatype Outline = Outline(name: string, start: nat, stop: nat, children: seq<Outline>)

  function StepsOutline(steps: seq<Step>): seq<Outline> {
    if steps == [] then []
    else
      [Outline(steps[0].name, steps[0].start, steps[0].stop, StepsOutline(steps[0].children))] + StepsOutline(steps[1..])
  }

  /** Every step extends from its start to the end it is paired with. */
  function NestsOutline(nests: seq<Nest>): seq<Outline> {
    if nests == [] then []
    else
      var start := nests[0].start;
      var end := if nests[0].end.Some? then nests[0].end.value else start;
      [Outline(start.message, Milliseconds(start.time), Milliseconds(end.time), NestsOutline(nests[0].children))]
      + NestsOutline(nests[1..])
  }

  /** In a report with nothing to hand out, that is the extent of every step, for any events. */
  lemma {:induction false} PlainExtent(ctx: Context, nests: seq<Nest>, skip: set<nat>)
    requires ctx.entries == ctx.logs == ctx.parameters == []
    ensures StepsOutline(HandOut(ctx, nests, skip).0) == NestsOutline(nests)
  {
    if nests != [] {
      var limit := LimitOf(nests[1..]);
      var claimed := skip + HandOut(ctx, nests[0].children, {}).1;
      var next := claimed + Claims(ctx, nests[0], limit, claimed);
      PlainExtent(ctx, nests[0].children, {});
      PlainExtent(ctx, nests[1..], next);
      assert HandOut(ctx, nests, skip).0[1..] == HandOut(ctx, nests[1..], next).0;
    }
  }
}
