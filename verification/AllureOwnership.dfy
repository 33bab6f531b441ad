/**
 Where the step builder puts what it hands out: when an attachment lands in exactly one place, how
 often a parameter is repeated, and what each step of a flat timeline owns.
 */
module AllureOwnership {
  import opened Strings
  import opened Wrappers
  import opened AllureSteps

  // ---------------------------------------------------------------- windows

  /** The window of the first of a list of siblings holds an order. */
  predicate Holds(nests: seq<Nest>, order: int)
    requires nests != []
  {
    InWindow(order, nests[0].start.order, LimitOf(nests[1..]))
  }

  /** Some step, however deep, has the order in its window. */
  predicate Taken(nests: seq<Nest>, order: int) {
    nests != [] && (Holds(nests, order) || Taken(nests[0].children, order) || Taken(nests[1..], order))
  }

  /** How many steps, however deep, have the order in their windows. */
  function WindowCount(nests: seq<Nest>, order: int): (n: nat)
    ensures n > 0 <==> Taken(nests, order)
  {
    if nests == [] then 0
    else (if Holds(nests, order) then 1 else 0) + WindowCount(nests[0].children, order) + WindowCount(nests[1..], order)
  }

  /** All starts lie after `low`, siblings ascend, and children start after their parent. */
  ghost predicate Rising(nests: seq<Nest>, low: int) {
    nests != [] ==>
      low < nests[0].start.order &&
      Rising(nests[0].children, nests[0].start.order) && Rising(nests[1..], nests[0].start.order)
  }

  lemma {:induction false} NestsRise(events: seq<Event>, low: int)
    requires Increasing(events) && (events != [] ==> low < events[0].order)
    ensures Rising(Nests(events), low)
    decreases |events|
  {
    hide EndOn;
    if events != [] {
      var start, rest := events[0], events[1..];
      var end := EndOn(rest, start.line);
      NestsRise(rest, start.order);
      if start.kind != ByStart {
        RisingFrom(Nests(rest), low, start.order);
      } else if end.Some? {
        NestsRise(rest[..end.value], start.order);
        NestsRise(rest[end.value + 1..], start.order);
        assert Nests(events)[1..] == Nests(rest[end.value + 1..]);
      } else {
        assert Nests(events)[1..] == Nests(rest);
      }
    }
  }

  lemma RisingFrom(nests: seq<Nest>, low: int, high: int)
    requires Rising(nests, high) && low <= high
    ensures Rising(nests, low)
  {
  }

  lemma {:induction false} NotTakenYet(nests: seq<Nest>, low: int, order: int)
    requires Rising(nests, low) && order <= low
    ensures !Taken(nests, order)
  {
    if nests != [] {
      NotTakenYet(nests[0].children, nests[0].start.order, order);
      NotTakenYet(nests[1..], nests[0].start.order, order);
    }
  }

  /** No step starts at that order. */
  ghost predicate Unused(nests: seq<Nest>, order: int) {
    nests != [] ==>
      nests[0].start.order != order && Unused(nests[0].children, order) && Unused(nests[1..], order)
  }

  lemma {:induction false} NestsUnused(events: seq<Event>, order: int)
    requires forall i :: 0 <= i < |events| && events[i].kind == ByStart ==> events[i].order != order
    ensures Unused(Nests(events), order)
    decreases |events|
  {
    hide EndOn;
    if events != [] {
      var rest := events[1..];
      var end := EndOn(rest, events[0].line);
      NestsUnused(rest, order);
      if events[0].kind == ByStart && end.Some? {
        NestsUnused(rest[..end.value], order);
        NestsUnused(rest[end.value + 1..], order);
        assert Nests(events)[1..] == Nests(rest[end.value + 1..]);
      } else if events[0].kind == ByStart {
        assert Nests(events)[1..] == Nests(rest);
      }
    }
  }

  /** An order of its own is in some window of a list exactly when the first of its steps started before it. */
  lemma {:induction false} TakenIsStarted(nests: seq<Nest>, low: int, order: int)
    requires Rising(nests, low) && Unused(nests, order) && order < MAX_ORDER
    ensures Taken(nests, order) <==> nests != [] && nests[0].start.order < order
  {
    if nests != [] {
      if nests[0].start.order < order {
        TakenIsStarted(nests[1..], nests[0].start.order, order);
      } else {
        NotTakenYet(nests[0].children, nests[0].start.order, order);
        NotTakenYet(nests[1..], nests[0].start.order, order);
      }
    }
  }

  // ---------------------------------------------------------------- attachments: exactly one place

  /** How many steps, however deep, carry a report entry. */
  function Carriers(steps: seq<Step>, i: nat): nat {
    if steps == [] then 0
    else
      (if FromEntry(i) in steps[0].attachments then 1 else 0) + Carriers(steps[0].children, i) + Carriers(steps[1..], i)
  }

  /** The places in the report that hold an attachment: steps, and the result for what nobody claimed. */
  function Places(ctx: Context, events: seq<Event>, i: nat): nat {
    Carriers(Build(ctx, events).0, i) + if i in Build(ctx, events).1 then 0 else 1
  }

  /**
   No list of siblings, at any depth, holds two steps that both have a descendant whose window
   holds the order.
   */
  ghost predicate Separate(nests: seq<Nest>, order: int) {
    && (forall j, k :: 0 <= j < k < |nests| ==> !(Taken(nests[j].children, order) && Taken(nests[k].children, order)))
    && forall j :: 0 <= j < |nests| ==> Separate(nests[j].children, order)
  }

  /** Some step of a list has such a descendant. */
  ghost predicate Busy(nests: seq<Nest>, order: int) {
    exists j :: 0 <= j < |nests| && Taken(nests[j].children, order)
  }

  lemma SeparateHead(nests: seq<Nest>, order: int)
    requires nests != []
    ensures Separate(nests, order) <==>
            Separate(nests[0].children, order) && Separate(nests[1..], order) &&
            !(Taken(nests[0].children, order) && Busy(nests[1..], order))
    ensures Busy(nests, order) <==> Taken(nests[0].children, order) || Busy(nests[1..], order)
  {
    hide Taken;
    var tail := nests[1..];
    assert forall j :: 0 <= j < |tail| ==> tail[j] == nests[j + 1];
    assert forall j :: 1 <= j < |nests| ==> nests[j] == tail[j - 1];
    if Separate(nests, order) {
      forall j, k | 0 <= j < k < |tail| ensures !(Taken(tail[j].children, order) && Taken(tail[k].children, order)) {
        assert !(Taken(nests[j + 1].children, order) && Taken(nests[k + 1].children, order));
      }
    }
  }

  lemma {:induction false} NotTakenSeparate(nests: seq<Nest>, order: int)
    requires !Taken(nests, order)
    ensures !Busy(nests, order)
  {
    if nests != [] {
      NotTakenSeparate(nests[1..], order);
      SeparateHead(nests, order);
    }
  }

  /** The first step of a list: what it adds to the carriers, and what is claimed after it. */
  lemma CarriersHead(ctx: Context, nests: seq<Nest>, skip: set<nat>, i: nat) returns (inner: (seq<Step>, set<nat>), next: set<nat>)
    requires nests != [] && i < |ctx.entries|
    ensures inner == HandOut(ctx, nests[0].children, {})
    ensures HandOut(ctx, nests, skip).1 == HandOut(ctx, nests[1..], next).1
    ensures var own := i !in skip + inner.1 && Holds(nests, ctx.entries[i].order);
            (i in next <==> i in skip || i in inner.1 || own) &&
            Carriers(HandOut(ctx, nests, skip).0, i)
            == Carriers(inner.0, i) + (if own then 1 else 0) + Carriers(HandOut(ctx, nests[1..], next).0, i)
  {
    hide ValuesIn, LatestIn, AsAttachments, LogAttachment;
    var limit := LimitOf(nests[1..]);
    inner := HandOut(ctx, nests[0].children, {});
    var claimed := skip + inner.1;
    var owned := Owned(ctx.entries, nests[0].start.order, limit, claimed, |ctx.entries|);
    next := claimed + Claims(ctx, nests[0], limit, claimed);
    InAttachments(owned, ValuesIn(ctx.logs, nests[0].start.order, limit, |ctx.logs|), i);
    var steps := HandOut(ctx, nests, skip).0;
    assert steps[1..] == HandOut(ctx, nests[1..], next).0;
  }

  lemma InAttachments(owned: seq<nat>, lines: seq<string>, i: nat)
    ensures FromEntry(i) in AsAttachments(owned) + LogAttachment(lines) <==> i in owned
  {
    var atts := AsAttachments(owned);
    if i in owned {
      var k :| 0 <= k < |owned| && owned[k] == i;
      assert atts[k] == FromEntry(i);
    }
  }

  /**
   The carriers of an entry in any tree: whether there are any, and whether there are several. An entry
   that was claimed before is still carried by descendants, which do not see that claim.
   */
  lemma {:induction false} CarriersOf(ctx: Context, nests: seq<Nest>, low: int, skip: set<nat>, i: nat)
    requires Rising(nests, low) && i < |ctx.entries|
    ensures var order, out := ctx.entries[i].order, HandOut(ctx, nests, skip);
            (i in out.1 <==> i in skip || Taken(nests, order)) &&
            (Carriers(out.0, i) > 0 <==> if i in skip then Busy(nests, order) else Taken(nests, order)) &&
            (Carriers(out.0, i) <= 1 <==> Separate(nests, order))
  {
    hide HandOut, Separate, Busy, Holds;
    var order := ctx.entries[i].order;
    if nests == [] {
      NothingToHandOut(ctx, skip, order);
    } else {
      var start, tail := nests[0].start.order, nests[1..];
      var inner, next := CarriersHead(ctx, nests, skip, i);
      CarriersOf(ctx, nests[0].children, start, {}, i);
      CarriersOf(ctx, tail, start, next, i);
      SeparateHead(nests, order);
      if i !in skip && !Taken(nests[0].children, order) && Holds(nests, order) {
        LaterNotTaken(nests, low, order);
      }
      if !Taken(tail, order) {
        NotTakenSeparate(tail, order);
      }
    }
  }

  lemma NothingToHandOut(ctx: Context, skip: set<nat>, order: int)
    ensures HandOut(ctx, [], skip) == ([], skip)
    ensures Separate([], order) && !Busy([], order)
  {
  }

  /** Once a window holds an order, nothing that starts later does. */
  lemma LaterNotTaken(nests: seq<Nest>, low: int, order: int)
    requires nests != [] && Rising(nests, low) && Holds(nests, order)
    ensures !Taken(nests[1..], order) && !Busy(nests[1..], order)
  {
    hide Busy;
    var tail := nests[1..];
    if tail != [] {
      NotTakenYet(tail[0].children, tail[0].start.order, order);
      NotTakenYet(tail[1..], tail[0].start.order, order);
    }
    NotTakenSeparate(tail, order);
  }

  /**
   For every timeline and every attachment: it is in one place at least, and in exactly one if and only
   if no two siblings, at any depth, both have a descendant whose window holds it.
   */
  lemma ExactlyOnceIff(ctx: Context, events: seq<Event>, i: nat)
    requires Increasing(events) && i < |ctx.entries|
    ensures Places(ctx, events, i) >= 1
    ensures Places(ctx, events, i) == 1 <==> Separate(Nests(events), ctx.entries[i].order)
  {
    hide HandOut, Separate, Busy, Nests, Rising;
    var low := if events == [] then 0 else events[0].order - 1;
    NestsRise(events, low);
    CarriersOf(ctx, Nests(events), low, {}, i);
  }

  // ---------------------------------------------------------------- parameters and logs: no claims

  function Multiplicity(values: seq<string>, v: string): nat {
    if values == [] then 0 else Multiplicity(values[..|values| - 1], v) + if values[|values| - 1] == v then 1 else 0
  }

  /** How often a value occurs among the parameters of all steps, however deep. */
  function Occurrences(steps: seq<Step>, v: string): nat {
    if steps == [] then 0
    else Multiplicity(steps[0].parameters, v) + Occurrences(steps[0].children, v) + Occurrences(steps[1..], v)
  }

  /** The windows that hold one of the first n parameters with that value, each counted. */
  function AllWindows(parameters: seq<Entry>, nests: seq<Nest>, v: string, n: nat): nat
    requires n <= |parameters|
  {
    if n == 0 then 0
    else
      AllWindows(parameters, nests, v, n - 1)
      + if parameters[n - 1].value == v then WindowCount(nests, parameters[n - 1].order) else 0
  }

  lemma {:induction false} AllWindowsHead(parameters: seq<Entry>, nests: seq<Nest>, v: string, n: nat)
    requires nests != [] && n <= |parameters|
    ensures AllWindows(parameters, nests, v, n)
         == Multiplicity(ValuesIn(parameters, nests[0].start.order, LimitOf(nests[1..]), n), v)
            + AllWindows(parameters, nests[0].children, v, n) + AllWindows(parameters, nests[1..], v, n)
  {
    if n > 0 {
      AllWindowsHead(parameters, nests, v, n - 1);
      var before := ValuesIn(parameters, nests[0].start.order, LimitOf(nests[1..]), n - 1);
      assert (before + [parameters[n - 1].value])[..|before|] == before;
    }
  }

  lemma {:induction false} AllWindowsNone(parameters: seq<Entry>, v: string, n: nat)
    requires n <= |parameters|
    ensures AllWindows(parameters, [], v, n) == 0
  {
    if n > 0 {
      AllWindowsNone(parameters, v, n - 1);
    }
  }

  /** Every parameter is given to every step whose window holds it, in any tree. */
  lemma {:induction false} ParametersGiven(ctx: Context, nests: seq<Nest>, skip: set<nat>, v: string)
    ensures Occurrences(HandOut(ctx, nests, skip).0, v) == AllWindows(ctx.parameters, nests, v, |ctx.parameters|)
  {
    hide AllWindows, ValuesIn, LatestIn, AsAttachments, LogAttachment, Claims, Multiplicity;
    if nests == [] {
      AllWindowsNone(ctx.parameters, v, |ctx.parameters|);
    } else {
      var limit := LimitOf(nests[1..]);
      var claimed := skip + HandOut(ctx, nests[0].children, {}).1;
      var next := claimed + Claims(ctx, nests[0], limit, claimed);
      ParametersGiven(ctx, nests[0].children, {}, v);
      ParametersGiven(ctx, nests[1..], next, v);
      AllWindowsHead(ctx.parameters, nests, v, |ctx.parameters|);
      assert HandOut(ctx, nests, skip).0[1..] == HandOut(ctx, nests[1..], next).0;
    }
  }

  // ---------------------------------------------------------------- failure and logs, any tree

  /** How many steps, however deep, are marked failed. */
  function FailedSteps(steps: seq<Step>): nat {
    if steps == [] then 0
    else (if steps[0].failed then 1 else 0) + FailedSteps(steps[0].children) + FailedSteps(steps[1..])
  }

  /** In any tree the failure marks every step whose window holds it. */
  lemma {:induction false} FailureMarks(ctx: Context, nests: seq<Nest>, skip: set<nat>)
    ensures FailedSteps(HandOut(ctx, nests, skip).0) == if ctx.failureOrder > 0 then WindowCount(nests, ctx.failureOrder) else 0
  {
    hide ValuesIn, LatestIn, AsAttachments, LogAttachment, Claims;
    if nests != [] {
      var limit := LimitOf(nests[1..]);
      var claimed := skip + HandOut(ctx, nests[0].children, {}).1;
      var next := claimed + Claims(ctx, nests[0], limit, claimed);
      FailureMarks(ctx, nests[0].children, {});
      FailureMarks(ctx, nests[1..], next);
      assert HandOut(ctx, nests, skip).0[1..] == HandOut(ctx, nests[1..], next).0;
    }
  }

  /** All steps, parents before their children. */
  function AllSteps(steps: seq<Step>): seq<Step> {
    if steps == [] then [] else [steps[0]] + AllSteps(steps[0].children) + AllSteps(steps[1..])
  }

  /** The windows of all steps in the same order, each by the orders at which it opens and closes. */
  function StepWindows(nests: seq<Nest>): seq<(int, int)> {
    if nests == [] then []
    else
      [(nests[0].start.order, LimitOf(nests[1..]))] + StepWindows(nests[0].children) + StepWindows(nests[1..])
  }

  function HoldingCount(windows: seq<(int, int)>, order: int): nat {
    if windows == [] then 0
    else (if InWindow(order, windows[0].0, windows[0].1) then 1 else 0) + HoldingCount(windows[1..], order)
  }

  lemma {:induction false} HoldingSplit(a: seq<(int, int)>, b: seq<(int, int)>, order: int)
    ensures HoldingCount(a + b, order) == HoldingCount(a, order) + HoldingCount(b, order)
  {
    if a == [] {
      assert a + b == b;
    } else {
      assert (a + b)[1..] == a[1..] + b;
      HoldingSplit(a[1..], b, order);
    }
  }

  lemma {:induction false} WindowCountIs(nests: seq<Nest>, order: int)
    ensures WindowCount(nests, order) == HoldingCount(StepWindows(nests), order)
  {
    if nests != [] {
      var own := [(nests[0].start.order, LimitOf(nests[1..]))];
      WindowCountIs(nests[0].children, order);
      WindowCountIs(nests[1..], order);
      HoldingSplit(own + StepWindows(nests[0].children), StepWindows(nests[1..]), order);
      HoldingSplit(own, StepWindows(nests[0].children), order);
      assert own[1..] == [] && HoldingCount(own[1..], order) == 0;
    }
  }

  /** A step's log file holds exactly the log lines of a window, in order, and there is none if there are no lines. */
  ghost predicate LogsOfWindow(ctx: Context, step: Step, window: (int, int)) {
    var lines := ValuesIn(ctx.logs, window.0, window.1, |ctx.logs|);
    forall text :: LogFile(text) in step.attachments <==> lines != [] && text == Join(lines, "\n")
  }

  ghost predicate LogsOfWindows(ctx: Context, steps: seq<Step>, windows: seq<(int, int)>) {
    |steps| == |windows| && forall k :: 0 <= k < |steps| ==> LogsOfWindow(ctx, steps[k], windows[k])
  }

  lemma LogsConcat(ctx: Context, a: seq<Step>, v: seq<(int, int)>, b: seq<Step>, w: seq<(int, int)>)
    requires LogsOfWindows(ctx, a, v) && LogsOfWindows(ctx, b, w)
    ensures LogsOfWindows(ctx, a + b, v + w)
  {
    hide LogsOfWindow;
  }

  /** In any tree each step carries the log lines of its own window, whatever other steps carry. */
  lemma {:induction false} LogsByWindow(ctx: Context, nests: seq<Nest>, skip: set<nat>)
    ensures LogsOfWindows(ctx, AllSteps(HandOut(ctx, nests, skip).0), StepWindows(nests))
  {
    hide MakeStep, Claims, LogsOfWindow;
    if nests != [] {
      var limit := LimitOf(nests[1..]);
      var inner := HandOut(ctx, nests[0].children, {});
      var claimed := skip + inner.1;
      var next := claimed + Claims(ctx, nests[0], limit, claimed);
      var step := MakeStep(ctx, nests[0].start, nests[0].end, limit, inner.0, claimed);
      LogsByWindow(ctx, nests[0].children, {});
      LogsByWindow(ctx, nests[1..], next);
      StepLogs(ctx, nests[0], limit, inner.0, claimed);
      var own := [(nests[0].start.order, limit)];
      assert LogsOfWindows(ctx, [step], own);
      var steps, rest := HandOut(ctx, nests, skip).0, HandOut(ctx, nests[1..], next).0;
      assert steps[0] == step && steps[1..] == rest;
      hide LogsOfWindows, HandOut;
      LogsConcat(ctx, [step], own, AllSteps(inner.0), StepWindows(nests[0].children));
      LogsConcat(ctx, [step] + AllSteps(inner.0), own + StepWindows(nests[0].children), AllSteps(rest), StepWindows(nests[1..]));
      StepsFirst(steps, inner.0);
    }
  }

  lemma StepsFirst(steps: seq<Step>, children: seq<Step>)
    requires steps != [] && steps[0].children == children
    ensures AllSteps(steps) == [steps[0]] + AllSteps(children) + AllSteps(steps[1..])
  {
  }

  lemma StepLogs(ctx: Context, nest: Nest, limit: int, children: seq<Step>, claimed: set<nat>)
    ensures var step := MakeStep(ctx, nest.start, nest.end, limit, children, claimed);
            LogsOfWindow(ctx, step, (nest.start.order, limit)) && step.children == children
  {
    LogsAmong(Owned(ctx.entries, nest.start.order, limit, claimed, |ctx.entries|),
      ValuesIn(ctx.logs, nest.start.order, limit, |ctx.logs|));
  }

  /** The number of windows: one at this level if anything started, and those of all children. */
  lemma {:induction false} WindowsByLevel(nests: seq<Nest>, low: int, order: int)
    requires Rising(nests, low) && Unused(nests, order) && order < MAX_ORDER
    ensures WindowCount(nests, order) <= 1 <==> !Busy(nests, order)
    ensures nests != [] && nests[0].start.order < order && !Busy(nests, order) ==> WindowCount(nests, order) == 1
  {
    hide Holds, Busy;
    if nests == [] {
      assert !Busy(nests, order) by { NotTakenSeparate(nests, order); }
    } else {
      var start, tail := nests[0].start.order, nests[1..];
      WindowsByLevel(tail, start, order);
      SeparateHead(nests, order);
      TakenIsStarted(nests, low, order);
      if Holds(nests, order) {
        LaterNotTaken(nests, low, order);
      } else {
        WindowsElsewhere(nests, low, order);
      }
    }
  }

  lemma WindowsElsewhere(nests: seq<Nest>, low: int, order: int)
    requires nests != [] && Rising(nests, low) && Unused(nests, order) && order < MAX_ORDER && !Holds(nests, order)
    ensures nests[0].start.order < order <==> Taken(nests[1..], order)
    ensures nests[0].start.order >= order ==> !Taken(nests[0].children, order)
  {
    var start, tail := nests[0].start.order, nests[1..];
    TakenIsStarted(tail, start, order);
    TakenIsStarted(nests[0].children, start, order);
  }

  /**
   A log or parameter with an order of its own is in one window at most exactly when no step at the top level has
   a descendant that started before it; otherwise it is repeated, since nothing is ever skipped.
   */
  lemma RepeatedIff(events: seq<Event>, order: int)
    requires Increasing(events) && order < MAX_ORDER
    requires forall i :: 0 <= i < |events| && events[i].kind == ByStart ==> events[i].order != order
    ensures WindowCount(Nests(events), order) <= 1 <==> !Busy(Nests(events), order)
    ensures WindowCount(Nests(events), order) > 0 <==> Nests(events) != [] && Nests(events)[0].start.order < order
  {
    hide Nests, Rising, Busy;
    var low := if events == [] then 0 else events[0].order - 1;
    NestsRise(events, low);
    NestsUnused(events, order);
    WindowsByLevel(Nests(events), low, order);
    TakenIsStarted(Nests(events), low, order);
  }

  // ---------------------------------------------------------------- flat lists

  /** No step has steps inside: instant markers, and blocks around nothing but other events. */
  ghost predicate Flat(nests: seq<Nest>) {
    forall k :: 0 <= k < |nests| ==> nests[k].children == []
  }

  function StartOrders(nests: seq<Nest>): (orders: seq<int>)
    ensures |orders| == |nests|
    ensures forall k :: 0 <= k < |nests| ==> orders[k] == nests[k].start.order
  {
    seq(|nests|, k requires 0 <= k < |nests| => nests[k].start.order)
  }

  /** The number of steps started strictly before an order; the last of them is the step that owns it. */
  function StartedBefore(starts: seq<int>, order: int): (n: nat)
    ensures n <= |starts|
  {
    if starts != [] && starts[0] < order then 1 + StartedBefore(starts[1..], order) else 0
  }

  ghost predicate Ascending(xs: seq<int>) {
    forall i, j :: 0 <= i < j < |xs| ==> xs[i] < xs[j]
  }

  /** Where the window of the k-th of a list of starts closes. */
  function KthLimit(starts: seq<int>, k: nat): int
    requires k < |starts|
  {
    if k + 1 < |starts| then starts[k + 1] else MAX_ORDER
  }

  ghost predicate KthWindow(starts: seq<int>, k: nat, order: int)
    requires k < |starts|
  {
    InWindow(order, starts[k], KthLimit(starts, k))
  }

  /** A step without children that owns everything in the window of the k-th start, and nothing else. */
  ghost predicate OwnsWindow(ctx: Context, step: Step, starts: seq<int>, k: nat)
    requires k < |starts|
  {
    var low, high := starts[k], KthLimit(starts, k);
    && step.children == []
    && step.failed == (ctx.failureOrder > 0 && KthWindow(starts, k, ctx.failureOrder))
    && step.attachments == AsAttachments(Owned(ctx.entries, low, high, {}, |ctx.entries|))
                           + LogAttachment(ValuesIn(ctx.logs, low, high, |ctx.logs|))
    && step.parameters == ValuesIn(ctx.parameters, low, high, |ctx.parameters|)
  }

  /** What the steps of a flat list carry, in terms of the orders of their starts only. */
  lemma {:induction false} FlatSteps(ctx: Context, nests: seq<Nest>, low: int, skip: set<nat>)
    requires Flat(nests) && Rising(nests, low)
    requires ClaimedEarlier(ctx, nests, skip)
    ensures var starts, steps := StartOrders(nests), HandOut(ctx, nests, skip).0;
            |steps| == |starts| && forall k :: 0 <= k < |steps| ==> OwnsWindow(ctx, steps[k], starts, k)
  {
    hide OwnsWindow, ValuesIn, LatestIn, AsAttachments, LogAttachment, Rising, ClaimedEarlier;
    if nests != [] {
      var starts, tail := StartOrders(nests), nests[1..];
      var next := FlatHead(ctx, nests, low, skip);
      FlatSteps(ctx, tail, nests[0].start.order, next);
      var steps, rest := HandOut(ctx, nests, skip).0, HandOut(ctx, tail, next).0;
      assert starts[1..] == StartOrders(tail);
      forall k | 1 <= k < |steps| ensures OwnsWindow(ctx, steps[k], starts, k) {
        OwnsShift(ctx, rest[k - 1], starts, k);
      }
    }
  }

  /** Everything claimed so far lies before the next start. */
  ghost predicate ClaimedEarlier(ctx: Context, nests: seq<Nest>, skip: set<nat>) {
    nests != [] ==> forall e :: e in skip && e < |ctx.entries| ==> ctx.entries[e].order <= nests[0].start.order
  }

  lemma FlatHead(ctx: Context, nests: seq<Nest>, low: int, skip: set<nat>) returns (next: set<nat>)
    requires nests != [] && Flat(nests) && Rising(nests, low) && ClaimedEarlier(ctx, nests, skip)
    ensures Flat(nests[1..]) && Rising(nests[1..], nests[0].start.order) && ClaimedEarlier(ctx, nests[1..], next)
    ensures var steps := HandOut(ctx, nests, skip).0;
            |steps| > 0 && steps[1..] == HandOut(ctx, nests[1..], next).0 &&
            OwnsWindow(ctx, steps[0], StartOrders(nests), 0)
  {
    hide ValuesIn, LatestIn, AsAttachments, LogAttachment;
    var limit := LimitOf(nests[1..]);
    assert HandOut(ctx, nests[0].children, {}) == ([], {});
    assert skip + {} == skip;
    OwnedUnblocked(ctx.entries, nests[0].start.order, limit, skip, |ctx.entries|);
    next := skip + Claims(ctx, nests[0], limit, skip);
    assert HandOut(ctx, nests, skip).0[1..] == HandOut(ctx, nests[1..], next).0;
  }

  /** Dropping the first start keeps the windows of the others. */
  lemma OwnsShift(ctx: Context, step: Step, starts: seq<int>, k: nat)
    requires 1 <= k < |starts| && OwnsWindow(ctx, step, starts[1..], k - 1)
    ensures OwnsWindow(ctx, step, starts, k)
  {
    assert starts[k] == starts[1..][k - 1] && KthLimit(starts, k) == KthLimit(starts[1..], k - 1);
  }

  lemma {:induction false} OwnedUnblocked(entries: seq<Entry>, low: int, high: int, skip: set<nat>, n: nat)
    requires n <= |entries|
    requires forall e :: e in skip && e < |entries| ==> entries[e].order <= low
    ensures Owned(entries, low, high, skip, n) == Owned(entries, low, high, {}, n)
  {
    if n > 0 {
      OwnedUnblocked(entries, low, high, skip, n - 1);
    }
  }

  /** The k-th start is the last one before an order, which is no start's own order. */
  ghost predicate OwnedBy(starts: seq<int>, k: nat, order: int) {
    StartedBefore(starts, order) == k + 1 && order !in starts && (k + 1 == |starts| ==> order < 0x7fff_ffff)
  }

  lemma FirstWindow(starts: seq<int>, order: int)
    requires Ascending(starts) && |starts| > 0
    ensures KthWindow(starts, 0, order) <==>
            StartedBefore(starts, order) == 1 && order !in starts && (|starts| == 1 ==> order < MAX_ORDER)
  {
    var rest := starts[1..];
    if starts[0] < order {
      assert StartedBefore(rest, order) == 0 <==> |starts| == 1 || order <= starts[1];
      if |starts| > 1 {
        assert order in starts ==> order >= starts[1];
        assert order == starts[1] ==> order in starts;
      }
    }
  }

  lemma {:induction false} WindowIsLastStarted(starts: seq<int>, k: nat, order: int)
    requires Ascending(starts) && k < |starts|
    ensures KthWindow(starts, k, order) <==> OwnedBy(starts, k, order)
    decreases k
  {
    var rest := starts[1..];
    assert starts == [starts[0]] + rest;
    if k == 0 {
      FirstWindow(starts, order);
    } else {
      WindowIsLastStarted(rest, k - 1, order);
      assert KthWindow(starts, k, order) == KthWindow(rest, k - 1, order);
    }
  }

  ghost predicate NoRepeats(atts: seq<Attachment>) {
    forall i, j :: 0 <= i < j < |atts| ==> atts[i] != atts[j]
  }

  /** The payloads of the entries that the k-th start owns, in order. */
  ghost function OwnedValues(entries: seq<Entry>, starts: seq<int>, k: nat, n: nat): seq<string>
    requires n <= |entries|
  {
    if n == 0 then []
    else
      var before := OwnedValues(entries, starts, k, n - 1);
      if OwnedBy(starts, k, entries[n - 1].order) then before + [entries[n - 1].value] else before
  }

  lemma {:induction false} ValuesAreOwned(entries: seq<Entry>, starts: seq<int>, k: nat, n: nat)
    requires Ascending(starts) && k < |starts| && n <= |entries|
    ensures ValuesIn(entries, starts[k], KthLimit(starts, k), n) == OwnedValues(entries, starts, k, n)
  {
    if n > 0 {
      ValuesAreOwned(entries, starts, k, n - 1);
      WindowIsLastStarted(starts, k, entries[n - 1].order);
    }
  }

  lemma {:induction false} OwnedAscending(entries: seq<Entry>, low: int, high: int, skip: set<nat>, n: nat)
    requires n <= |entries|
    ensures forall i, j :: 0 <= i < j < |Owned(entries, low, high, skip, n)| ==>
              Owned(entries, low, high, skip, n)[i] < Owned(entries, low, high, skip, n)[j]
  {
    if n > 0 {
      OwnedAscending(entries, low, high, skip, n - 1);
      var before := Owned(entries, low, high, skip, n - 1);
      assert forall i :: 0 <= i < |before| ==> before[i] in before;
    }
  }

  lemma DistinctAttachments(owned: seq<nat>, lines: seq<string>)
    requires forall i, j :: 0 <= i < j < |owned| ==> owned[i] < owned[j]
    ensures NoRepeats(AsAttachments(owned) + LogAttachment(lines))
  {
  }

  lemma {:induction false} StartsAscend(nests: seq<Nest>, low: int)
    requires Rising(nests, low)
    ensures Ascending(StartOrders(nests)) && forall k :: 0 <= k < |nests| ==> low < nests[k].start.order
  {
    if nests != [] {
      var tail := nests[1..];
      StartsAscend(tail, nests[0].start.order);
      assert forall k :: 1 <= k < |nests| ==> nests[k] == tail[k - 1];
      assert forall k :: 1 <= k < |nests| ==> StartOrders(nests)[k] == StartOrders(tail)[k - 1];
    }
  }

  /**
   Flat lists: the steps are the starts in order, and the k-th step carries an attachment, is marked failed, or is
   given logs and parameters exactly when it is the last step started before them. An order that equals
   that of a start, or one past 2^31-2 after the last start, is in nobody's window.
   */
  lemma FlatOwnership(ctx: Context, events: seq<Event>, k: nat)
    requires Increasing(events) && Flat(Nests(events)) && k < |Nests(events)|
    ensures var starts, steps := StartOrders(Nests(events)), Build(ctx, events).0;
            |steps| == |starts| &&
            (steps[k].failed <==> ctx.failureOrder > 0 && OwnedBy(starts, k, ctx.failureOrder)) &&
            (forall i :: 0 <= i < |ctx.entries| ==>
              (FromEntry(i) in steps[k].attachments <==> OwnedBy(starts, k, ctx.entries[i].order))) &&
            NoRepeats(steps[k].attachments) &&
            (forall text :: LogFile(text) in steps[k].attachments <==>
              var lines := OwnedValues(ctx.logs, starts, k, |ctx.logs|); lines != [] && text == Join(lines, "\n")) &&
            steps[k].parameters == OwnedValues(ctx.parameters, starts, k, |ctx.parameters|)
  {
    hide Owned, ValuesIn, HandOut, Nests, OwnedBy, Flat, Rising, KthWindow, KthLimit, Join;
    var nests := Nests(events);
    var starts, steps := StartOrders(nests), Build(ctx, events).0;
    var low := if events == [] then 0 else events[0].order - 1;
    NestsRise(events, low);
    StartsAscend(nests, low);
    FlatSteps(ctx, nests, low, {});
    assert OwnsWindow(ctx, steps[k], starts, k);
    var owned := Owned(ctx.entries, starts[k], KthLimit(starts, k), {}, |ctx.entries|);
    var lines := ValuesIn(ctx.logs, starts[k], KthLimit(starts, k), |ctx.logs|);
    WindowIsLastStarted(starts, k, ctx.failureOrder);
    forall i | 0 <= i < |ctx.entries|
      ensures FromEntry(i) in steps[k].attachments <==> OwnedBy(starts, k, ctx.entries[i].order)
    {
      OwnedWhen(ctx, starts, k, i);
      InAttachments(owned, lines, i);
    }
    OwnedAscending(ctx.entries, starts[k], KthLimit(starts, k), {}, |ctx.entries|);
    DistinctAttachments(owned, lines);
    ValuesAreOwned(ctx.logs, starts, k, |ctx.logs|);
    LogsAmong(owned, lines);
    ValuesAreOwned(ctx.parameters, starts, k, |ctx.parameters|);
  }

  lemma OwnedWhen(ctx: Context, starts: seq<int>, k: nat, i: nat)
    requires Ascending(starts) && k < |starts| && i < |ctx.entries|
    ensures i in Owned(ctx.entries, starts[k], KthLimit(starts, k), {}, |ctx.entries|)
       <==> OwnedBy(starts, k, ctx.entries[i].order)
  {
    WindowIsLastStarted(starts, k, ctx.entries[i].order);
  }

  lemma LogsAmong(owned: seq<nat>, lines: seq<string>)
    ensures forall text :: LogFile(text) in AsAttachments(owned) + LogAttachment(lines)
                      <==> lines != [] && text == Join(lines, "\n")
  {
    var atts := AsAttachments(owned) + LogAttachment(lines);
    assert lines != [] ==> atts[|owned|] == LogFile(Join(lines, "\n"));
  }

  /** Flat lists: each attachment lands in exactly one place, at result level exactly when nobody owns its order. */
  lemma FlatConservation(ctx: Context, events: seq<Event>, i: nat)
    requires Increasing(events) && Flat(Nests(events)) && i < |ctx.entries|
    ensures Places(ctx, events, i) == 1
    ensures i !in Build(ctx, events).1 <==>
            forall k :: 0 <= k < |Nests(events)| ==> !OwnedBy(StartOrders(Nests(events)), k, ctx.entries[i].order)
  {
    var nests, order := Nests(events), ctx.entries[i].order;
    var low := if events == [] then 0 else events[0].order - 1;
    hide Nests;
    ExactlyOnceIff(ctx, events, i);
    NestsRise(events, low);
    CarriersOf(ctx, nests, low, {}, i);
    StartsAscend(nests, low);
    FlatTaken(nests, order);
    WindowsAreOwned(StartOrders(nests), order);
  }

  lemma WindowsAreOwned(starts: seq<int>, order: int)
    requires Ascending(starts)
    ensures forall k :: 0 <= k < |starts| ==> (KthWindow(starts, k, order) <==> OwnedBy(starts, k, order))
  {
    hide KthWindow, OwnedBy, Ascending;
    forall k | 0 <= k < |starts| ensures KthWindow(starts, k, order) <==> OwnedBy(starts, k, order) {
      WindowIsLastStarted(starts, k, order);
    }
  }

  lemma {:induction false} FlatTaken(nests: seq<Nest>, order: int)
    requires Flat(nests)
    ensures Taken(nests, order) <==> exists k :: 0 <= k < |nests| && KthWindow(StartOrders(nests), k, order)
  {
    if nests != [] {
      var starts, tail := StartOrders(nests), nests[1..];
      FlatTaken(tail, order);
      assert starts[1..] == StartOrders(tail);
      forall k | 0 <= k < |tail| ensures KthWindow(starts, k + 1, order) <==> KthWindow(StartOrders(tail), k, order) {
        assert starts[k + 1] == StartOrders(tail)[k];
      }
      assert KthWindow(starts, 0, order) <==> Holds(nests, order);
      if k :| 0 <= k < |nests| && KthWindow(starts, k, order) {
        if k > 0 {
          assert KthWindow(StartOrders(tail), k - 1, order);
        }
      }
    }
  }

  // ---------------------------------------------------------------- nested trees can double-claim

  /**
   The window of the last child of a block never closes, and the call for a later block does not know the
   earlier claims. Two blocks with one marker each, then one attachment: both markers carry it.
   */
  lemma NestedDoubleClaim()
    ensures var events := [
              Event(ByStart, "first block", 1, 1, 0), Event(ByStart, "first child", 2, 2, 0), Event(ByEnd, "", 1, 3, 0),
              Event(ByStart, "second block", 3, 4, 0), Event(ByStart, "second child", 4, 5, 0), Event(ByEnd, "", 3, 6, 0)];
            Places(Context([Entry(7, 0, "a")], [], [], 0), events, 0) == 2
  {
    hide Places;
    TwoBlocksPlaces(
      Context([Entry(7, 0, "a")], [], [], 0),
      Event(ByStart, "first block", 1, 1, 0), Event(ByStart, "first child", 2, 2, 0), Event(ByEnd, "", 1, 3, 0),
      Event(ByStart, "second block", 3, 4, 0), Event(ByStart, "second child", 4, 5, 0), Event(ByEnd, "", 3, 6, 0));
  }

  lemma TwoBlocksPlaces(ctx: Context, s1: Event, m1: Event, e1: Event, s2: Event, m2: Event, e2: Event)
    requires s1.kind == m1.kind == s2.kind == m2.kind == ByStart && e1.kind == e2.kind == ByEnd
    requires s1.line == e1.line && s2.line == e2.line
    requires |ctx.entries| == 1 && m1.order < ctx.entries[0].order < MAX_ORDER && m2.order < ctx.entries[0].order
    ensures Places(ctx, [s1, m1, e1, s2, m2, e2], 0) == 2
  {
    hide Nests, HandOut;
    BlockOfOneMarker(s1, m1, e1, [s2, m2, e2]);
    BlockOfOneMarker(s2, m2, e2, []);
    assert [s1, m1, e1, s2, m2, e2] == [s1, m1, e1] + [s2, m2, e2] && [s2, m2, e2] == [s2, m2, e2] + [];
    NoNests();
    var first, second := Nest(s1, Some(e1), [Nest(m1, None, [])]), Nest(s2, Some(e2), [Nest(m2, None, [])]);
    assert Nests([s1, m1, e1, s2, m2, e2]) == [first, second];
    TwoBlocksClaim(ctx, s1, m1, e1, s2, m2, e2);
  }

  lemma NoNests()
    ensures Nests([]) == []
  {
  }

  lemma TwoBlocksClaim(ctx: Context, s1: Event, m1: Event, e1: Event, s2: Event, m2: Event, e2: Event)
    requires |ctx.entries| == 1 && m1.order < ctx.entries[0].order < MAX_ORDER && m2.order < ctx.entries[0].order
    ensures var out := HandOut(ctx, [Nest(s1, Some(e1), [Nest(m1, None, [])]), Nest(s2, Some(e2), [Nest(m2, None, [])])], {});
            Carriers(out.0, 0) == 2 && 0 in out.1
  {
    hide HandOut;
    var first, second := Nest(s1, Some(e1), [Nest(m1, None, [])]), Nest(s2, Some(e2), [Nest(m2, None, [])]);
    var inner1, next1 := CarriersHead(ctx, [first, second], {}, 0);
    assert [first, second][1..] == [second] && [second][1..] == [];
    var inner2, next2 := CarriersHead(ctx, [second], next1, 0);
    LoneMarker(ctx, m1);
    LoneMarker(ctx, m2);
    NothingToHandOut(ctx, next2, 0);
  }

  lemma BlockOfOneMarker(start: Event, marker: Event, end: Event, rest: seq<Event>)
    requires start.kind == marker.kind == ByStart && end.kind == ByEnd && start.line == end.line
    ensures Nests([start, marker, end] + rest) == [Nest(start, Some(end), [Nest(marker, None, [])])] + Nests(rest)
  {
    var events := [start, marker, end] + rest;
    var later := events[1..];
    assert later == [marker, end] + rest && later[1..] == [end] + rest;
    assert EndOn(later[1..], start.line) == Some(0);
    assert EndOn(later, start.line) == Some(1);
    assert later[..1] == [marker] && later[2..] == rest && later[1] == end;
    assert [marker][1..] == [] && EndOn([], marker.line) == None && Nests([]) == [];
    assert Nests([marker]) == [Nest(marker, None, [])] + Nests([]) == [Nest(marker, None, [])];
    assert Nests(events) == [Nest(start, Some(later[1]), Nests(later[..1]))] + Nests(later[2..]);
  }

  lemma LoneMarker(ctx: Context, start: Event)
    requires |ctx.entries| == 1 && start.order < ctx.entries[0].order < MAX_ORDER
    ensures var steps := HandOut(ctx, [Nest(start, None, [])], {});
            Carriers(steps.0, 0) == 1 && 0 in steps.1
  {
    var nests := [Nest(start, None, [])];
    var inner, next := CarriersHead(ctx, nests, {}, 0);
    assert nests[1..] == [] && inner == ([], {});
  }
}
