/**
 Which timelines the step builder parses back into the forest of By() calls that produced them.
 */
module AllureForest {
  import opened Wrappers
  import opened AllureSteps
  import opened AllureOwnership

  // ---------------------------------------------------------------- forests

  datatype Node =
    | Marker(order: int, line: int, name: string, time: nat)
    | Block(order: int, line: int, name: string, time: nat, body: seq<Node>, endOrder: int, endTime: nat)
    | Noise(order: int, line: int, name: string, time: nat)

  /** The timeline that running a forest of By() calls records. */
  function Flatten(forest: seq<Node>): seq<Event> {
    if forest == [] then [] else FlattenNode(forest[0]) + Flatten(forest[1..])
  }

  function StartOf(node: Node): Event {
    Event(if node.Noise? then OtherEvent else ByStart, node.name, node.line, node.order, node.time)
  }

  function EndOf(node: Node): Event
    requires node.Block?
  {
    Event(ByEnd, "", node.line, node.endOrder, node.endTime)
  }

  function OwnEnd(node: Node): Option<Event> {
    if node.Block? then Some(EndOf(node)) else None
  }

  function FlattenNode(node: Node): (events: seq<Event>)
    ensures |events| > 0
  {
    if node.Block? then [StartOf(node)] + Flatten(node.body) + [EndOf(node)] else [StartOf(node)]
  }

  /** The pairing that the By() calls meant. */
  function ForestNests(forest: seq<Node>): seq<Nest> {
    if forest == [] then []
    else if forest[0].Noise? then ForestNests(forest[1..])
    else
      var children := if forest[0].Block? then ForestNests(forest[0].body) else [];
      [Nest(StartOf(forest[0]), OwnEnd(forest[0]), children)] + ForestNests(forest[1..])
  }

  /** Their names, start times and nesting. */
  function ForestShape(forest: seq<Node>): seq<Shape> {
    NestShape(ForestNests(forest))
  }

  // ---------------------------------------------------------------- pairing, node by node

  lemma PairEqual<T>(a: T, x: seq<T>, b: T, y: seq<T>)
    ensures [a] + x == [b] + y <==> a == b && x == y
    ensures ([a] + x)[1..] == x
  {
    if [a] + x == [b] + y {
      assert ([a] + x)[0] == ([b] + y)[0] && ([a] + x)[1..] == ([b] + y)[1..];
    }
  }

  lemma {:induction false} FlattenSplit(a: seq<Node>, b: seq<Node>)
    ensures Flatten(a + b) == Flatten(a) + Flatten(b)
  {
    if a == [] {
      assert a + b == b;
    } else {
      assert (a + b)[1..] == a[1..] + b;
      FlattenSplit(a[1..], b);
    }
  }

  lemma FlattenSingle(node: Node)
    ensures Flatten([node]) == FlattenNode(node)
  {
    assert [node][1..] == [] && Flatten([]) == [];
  }

  /** The first node of a forest in its timeline. */
  lemma FlattenHead(forest: seq<Node>)
    requires forest != []
    ensures Flatten(forest) ==
            if forest[0].Block? then [StartOf(forest[0])] + Flatten(forest[0].body) + ([EndOf(forest[0])] + Flatten(forest[1..]))
            else [StartOf(forest[0])] + Flatten(forest[1..])
  {
    assert forest[0].Block? ==>
      FlattenNode(forest[0]) + Flatten(forest[1..])
      == [StartOf(forest[0])] + Flatten(forest[0].body) + ([EndOf(forest[0])] + Flatten(forest[1..]));
  }

  lemma NestsSkip(event: Event, rest: seq<Event>)
    requires event.kind != ByStart
    ensures Nests([event] + rest) == Nests(rest)
  {
    assert ([event] + rest)[1..] == rest;
  }

  lemma NestsOpen(start: Event, rest: seq<Event>)
    requires start.kind == ByStart && EndOn(rest, start.line).None?
    ensures Nests([start] + rest) == [Nest(start, None, [])] + Nests(rest)
  {
    assert ([start] + rest)[1..] == rest;
  }

  lemma NestsClosed(start: Event, inner: seq<Event>, end: Event, rest: seq<Event>)
    requires start.kind == ByStart && end.kind == ByEnd && end.line == start.line && EndOn(inner, start.line).None?
    ensures Nests([start] + inner + ([end] + rest)) == [Nest(start, Some(end), Nests(inner))] + Nests(rest)
  {
    EndOnMiddle(inner, end, rest, start.line);
    hide EndOn;
    var later := inner + ([end] + rest);
    assert ([start] + inner + ([end] + rest))[1..] == later;
    assert later[..|inner|] == inner && later[|inner|] == end && later[|inner| + 1..] == rest;
  }

  lemma EndOnMiddle(inner: seq<Event>, end: Event, rest: seq<Event>, line: int)
    requires end.kind == ByEnd && end.line == line && EndOn(inner, line).None?
    ensures EndOn(inner + ([end] + rest), line) == Some(|inner|)
  {
    EndOnLater(inner, [end] + rest, line);
  }

  /** A prefix without the end event changes nothing about where it is. */
  lemma {:induction false} EndOnLater(a: seq<Event>, b: seq<Event>, line: int)
    ensures EndOn(a + b, line) == if EndOn(a, line).Some? then EndOn(a, line)
                                  else match EndOn(b, line) case None => None case Some(k) => Some(|a| + k)
  {
    if a == [] {
      assert a + b == b;
    } else {
      assert (a + b)[1..] == a[1..] + b;
      EndOnLater(a[1..], b, line);
    }
  }

  // ---------------------------------------------------------------- exactly its own end

  /**
   No block has a descendant block on its own line, and no marker shares a line with an end event
   that comes later among its siblings and their descendants.
   */
  ghost predicate Unambiguous(forest: seq<Node>) {
    forest != [] ==>
      HeadUnambiguous(forest) && (forest[0].Block? ==> Unambiguous(forest[0].body)) && Unambiguous(forest[1..])
  }

  ghost predicate HeadUnambiguous(forest: seq<Node>)
    requires forest != []
  {
    match forest[0]
    case Marker(_, line, _, _) => EndOn(Flatten(forest[1..]), line).None?
    case Block(_, line, _, _, body, _, _) => EndOn(Flatten(body), line).None?
    case Noise(_, _, _, _) => true
  }

  lemma IncreasingParts(a: seq<Event>, b: seq<Event>)
    requires Increasing(a + b)
    ensures Increasing(a) && Increasing(b)
    ensures forall i, j :: 0 <= i < |a| && 0 <= j < |b| ==> a[i].order < b[j].order
  {
    var all := a + b;
    assert forall i :: 0 <= i < |a| ==> all[i] == a[i];
    assert forall i :: 0 <= i < |b| ==> all[|a| + i] == b[i];
  }

  lemma FirstEndDiffers(start: Event, inner: seq<Event>, rest: seq<Event>)
    requires start.kind == ByStart && EndOn(inner, start.line).Some?
    ensures var k := EndOn(inner, start.line).value;
            var nests := Nests([start] + inner + rest);
            nests == [Nest(start, Some(inner[k]), Nests(inner[..k]))] + Nests(inner[k + 1..] + rest)
  {
    var k := EndOn(inner, start.line).value;
    EndOnLater(inner, rest, start.line);
    var later := inner + rest;
    assert ([start] + inner + rest)[1..] == later;
    assert later[k] == inner[k] && later[..k] == inner[..k] && later[k + 1..] == inner[k + 1..] + rest;
  }

  lemma PartsIncrease(forest: seq<Node>)
    requires forest != [] && Increasing(Flatten(forest))
    ensures Increasing(Flatten(forest[1..]))
    ensures forest[0].Block? ==>
              Increasing(Flatten(forest[0].body)) &&
              forall i :: 0 <= i < |Flatten(forest[0].body)| ==> Flatten(forest[0].body)[i].order < forest[0].endOrder
  {
    hide Increasing, Flatten, FlattenNode;
    FlattenHead(forest);
    var start, later := StartOf(forest[0]), Flatten(forest[1..]);
    if forest[0].Block? {
      var body, end := Flatten(forest[0].body), EndOf(forest[0]);
      IncreasingParts([start] + body, [end] + later);
      IncreasingParts([start], body);
      IncreasingParts([end], later);
      forall i | 0 <= i < |body| ensures body[i].order < end.order {
        assert ([start] + body)[1 + i].order < ([end] + later)[0].order;
      }
    } else {
      IncreasingParts([start], later);
    }
  }

  /** The first step of a forest is paired with its own end exactly when its line is unambiguous. */
  lemma HeadPaired(forest: seq<Node>)
    requires forest != [] && !forest[0].Noise? && Increasing(Flatten(forest))
    ensures var node, nests := forest[0], Nests(Flatten(forest));
            if HeadUnambiguous(forest) then
              nests == [Nest(StartOf(node), OwnEnd(node), if node.Block? then Nests(Flatten(node.body)) else [])]
                       + Nests(Flatten(forest[1..]))
            else nests != [] && nests[0].end != OwnEnd(node)
  {
    hide Nests, Flatten, FlattenNode, Increasing, EndOn;
    var node, later := forest[0], Flatten(forest[1..]);
    var start := StartOf(node);
    FlattenHead(forest);
    PartsIncrease(forest);
    if node.Marker? {
      if HeadUnambiguous(forest) {
        NestsOpen(start, later);
      } else {
        FirstEndDiffers(start, later, []);
        assert [start] + later + [] == [start] + later;
      }
    } else {
      var body := Flatten(node.body);
      if HeadUnambiguous(forest) {
        NestsClosed(start, body, EndOf(node), later);
      } else {
        FirstEndDiffers(start, body, [EndOf(node)] + later);
      }
    }
  }

  /**
   For every timeline of a forest: each start is paired with the end event of its own call, and each marker with
   none, if and only if the line numbers are unambiguous.
   */
  lemma {:induction false} PairsExactlyIff(forest: seq<Node>)
    requires Increasing(Flatten(forest))
    ensures Nests(Flatten(forest)) == ForestNests(forest) <==> Unambiguous(forest)
  {
    hide Nests, Flatten, FlattenNode, Increasing, HeadUnambiguous;
    if forest == [] {
      EmptyForest();
    } else {
      var node, rest := forest[0], forest[1..];
      PartsIncrease(forest);
      PairsExactlyIff(rest);
      if node.Noise? {
        FlattenHead(forest);
        NestsSkip(StartOf(node), Flatten(rest));
        NoiseIsFine(forest);
      } else {
        HeadPaired(forest);
        if node.Block? {
          PairsExactlyIff(node.body);
        }
        var inner, own := if node.Block? then Nests(Flatten(node.body)) else [], if node.Block? then ForestNests(node.body) else [];
        PairEqual(Nest(StartOf(node), OwnEnd(node), inner), Nests(Flatten(rest)),
          Nest(StartOf(node), OwnEnd(node), own), ForestNests(rest));
      }
    }
  }

  lemma NoiseIsFine(forest: seq<Node>)
    requires forest != [] && forest[0].Noise?
    ensures HeadUnambiguous(forest)
  {
  }

  lemma EmptyForest()
    ensures Flatten([]) == [] && Nests([]) == []
  {
  }

  /**
   For every forest with unambiguous line numbers, and whatever is handed out: the steps have the names, start
   times, nesting and sibling order of the forest.
   */
  lemma RebuildForest(ctx: Context, forest: seq<Node>)
    requires Increasing(Flatten(forest)) && Unambiguous(forest)
    ensures StepsShape(Build(ctx, Flatten(forest)).0) == ForestShape(forest)
  {
    PairsExactlyIff(forest);
    HandOutShape(ctx, Nests(Flatten(forest)), {});
  }

  // ---------------------------------------------------------------- the same shape

  ghost predicate Stepless(forest: seq<Node>) {
    forall i :: 0 <= i < |forest| ==> forest[i].Noise?
  }

  /** The index of the last block or marker; -1 if there is none. */
  function LastStep(forest: seq<Node>): (k: int)
    ensures -1 <= k < |forest|
    ensures k >= 0 ==> !forest[k].Noise?
    ensures forall i :: k < i < |forest| ==> forest[i].Noise?
  {
    if forest == [] then -1
    else if !forest[|forest| - 1].Noise? then |forest| - 1
    else LastStep(forest[..|forest| - 1])
  }

  /** The first end on the line is that of the last step of the body: a block on that line without steps inside. */
  ghost predicate EndedByLastStep(body: seq<Node>, line: int) {
    var k := LastStep(body);
    k >= 0 && body[k].Block? && body[k].line == line && Stepless(body[k].body) && EndOn(Flatten(body[..k]), line).None?
  }

  /** The body up to there: that block loses its end event and so becomes a marker. */
  ghost function CutAtLastStep(body: seq<Node>): seq<Node>
    requires LastStep(body) >= 0
  {
    var k := LastStep(body);
    body[..k] + [Marker(body[k].order, body[k].line, body[k].name, body[k].time)]
  }

  lemma FlattenAt(forest: seq<Node>, k: nat)
    requires k < |forest|
    ensures Flatten(forest) == Flatten(forest[..k]) + FlattenNode(forest[k]) + Flatten(forest[k + 1..])
  {
    hide FlattenNode, Flatten;
    assert forest == forest[..k] + forest[k..];
    FlattenSplit(forest[..k], forest[k..]);
    FlattenDrop(forest, k);
    var a, b, c := Flatten(forest[..k]), FlattenNode(forest[k]), Flatten(forest[k + 1..]);
    assert a + (b + c) == a + b + c;
  }

  lemma FlattenDrop(forest: seq<Node>, k: nat)
    requires k < |forest|
    ensures Flatten(forest[k..]) == FlattenNode(forest[k]) + Flatten(forest[k + 1..])
  {
    hide FlattenNode;
    assert forest[k..][1..] == forest[k + 1..];
  }

  lemma CutParts(body: seq<Node>)
    requires LastStep(body) >= 0
    ensures var k := LastStep(body);
            Flatten(CutAtLastStep(body)) == Flatten(body[..k]) + [StartOf(body[k])] &&
            Flatten(body) == Flatten(body[..k]) + FlattenNode(body[k]) + Flatten(body[k + 1..])
  {
    hide Flatten, LastStep;
    var k := LastStep(body);
    FlattenAt(body, k);
    var marker := CutAtLastStep(body)[k];
    FlattenSplit(body[..k], [marker]);
    FlattenSingle(marker);
  }

  /**
   No marker shares a line with a later end event among its siblings and their descendants. A block may have a
   descendant block on its own line only as its last step, without steps inside: then the block closes
   there, which leaves no step outside.
   */
  ghost predicate Rebuildable(forest: seq<Node>)
    decreases |Flatten(forest)|
  {
    forest != [] ==>
      Rebuildable(forest[1..]) &&
      (FlattenHead(forest);
      match forest[0]
      case Noise(_, _, _, _) => true
      case Marker(_, line, _, _) => EndOn(Flatten(forest[1..]), line).None?
      case Block(_, line, _, _, body, _, _) =>
        if EndOn(Flatten(body), line).None? then Rebuildable(body)
        else EndedByLastStep(body, line) && (CutParts(body); Rebuildable(CutAtLastStep(body))))
  }

  lemma NoStarts(events: seq<Event>)
    ensures StartNames(events) == [] <==> Nests(events) == []
    ensures Nests(events) == [] <==> NestShape(Nests(events)) == []
  {
    NestNames(events);
  }

  /** What follows events without a start is parsed as if they were not there. */
  lemma {:induction false} Quiet(events: seq<Event>, rest: seq<Event>)
    requires StartNames(events) == []
    ensures Nests(events + rest) == Nests(rest)
  {
    if events == [] {
      assert events + rest == rest;
    } else {
      assert events + rest == [events[0]] + (events[1..] + rest);
      NestsSkip(events[0], events[1..] + rest);
      Quiet(events[1..], rest);
    }
  }

  lemma {:induction false} ForestNames(forest: seq<Node>)
    ensures Preorder(ForestShape(forest)) == StartNames(Flatten(forest))
  {
    hide FlattenNode;
    if forest != [] {
      var node, later := forest[0], Flatten(forest[1..]);
      FlattenHead(forest);
      ForestNames(forest[1..]);
      if node.Block? {
        ForestNames(node.body);
        StartNamesSplit([StartOf(node)] + Flatten(node.body), [EndOf(node)] + later);
        StartNamesSplit([StartOf(node)], Flatten(node.body));
        StartNamesSplit([EndOf(node)], later);
      } else {
        StartNamesSplit([StartOf(node)], later);
      }
      assert StartNames([StartOf(node)]) == if node.Noise? then [] else [node.name];
      if node.Block? {
        assert StartNames([EndOf(node)]) == [];
      }
      if !node.Noise? {
        assert ForestNests(forest)[1..] == ForestNests(forest[1..]);
        assert NestShape(ForestNests(forest))[1..] == NestShape(ForestNests(forest[1..]));
      }
    }
  }

  /** Every end event has a start before it. */
  lemma {:induction false} EndHasStart(forest: seq<Node>, k: nat)
    requires k < |Flatten(forest)| && Flatten(forest)[k].kind == ByEnd
    ensures StartNames(Flatten(forest)[..k]) != []
  {
    hide FlattenNode;
    var node, later := forest[0], Flatten(forest[1..]);
    FlattenHead(forest);
    var events := Flatten(forest);
    assert events[0] == StartOf(node);
    StartNamesSplit(events[..1], events[1..k]);
    assert events[..k] == events[..1] + events[1..k] && events[..1] == [StartOf(node)];
    if node.Noise? {
      EndHasStart(forest[1..], k - 1);
      assert events[1..k] == later[..k - 1];
    }
  }

  /** As many starts in a prefix as in the whole leave none behind it. */
  lemma NoneBehind(forest: seq<Node>, k: nat)
    requires k <= |Flatten(forest)| && NestShape(Nests(Flatten(forest)[..k])) == ForestShape(forest)
    ensures StartNames(Flatten(forest)[k..]) == []
  {
    var events := Flatten(forest);
    NestNames(events[..k]);
    ForestNames(forest);
    StartNamesSplit(events[..k], events[k..]);
    assert events == events[..k] + events[k..];
  }

  lemma {:induction false} SteplessTimeline(forest: seq<Node>, line: int)
    requires Stepless(forest)
    ensures ForestNests(forest) == [] && StartNames(Flatten(forest)) == []
    ensures forall i :: 0 <= i < |Flatten(forest)| ==> Flatten(forest)[i].kind == OtherEvent
  {
    if forest != [] {
      SteplessTimeline(forest[1..], line);
      FlattenHead(forest);
    }
  }

  lemma {:induction false} NoStepsShape(forest: seq<Node>)
    requires ForestShape(forest) == [] || StartNames(Flatten(forest)) == []
    ensures Stepless(forest)
  {
    ForestNames(forest);
    if forest != [] {
      if forest[0].Noise? {
        FlattenHead(forest);
        assert Flatten(forest)[1..] == Flatten(forest[1..]);
        NoStepsShape(forest[1..]);
      }
    }
  }

  // ---------------------------------------------------------------- a block that ends early

  lemma LastStepCons(node: Node, rest: seq<Node>)
    ensures LastStep([node] + rest) == if LastStep(rest) >= 0 then LastStep(rest) + 1 else if node.Noise? then -1 else 0
  {
    var all, k := [node] + rest, LastStep(rest);
    assert forall i :: 1 <= i < |all| ==> all[i] == rest[i - 1];
    var l := LastStep(all);
    assert k >= 0 ==> all[k + 1] == rest[k];
    assert l >= 1 ==> all[l] == rest[l - 1];
    assert all[0] == node;
  }

  lemma EndedLater(node: Node, rest: seq<Node>, line: int)
    requires EndedByLastStep(rest, line) && EndOn(FlattenNode(node), line).None?
    ensures EndedByLastStep([node] + rest, line)
  {
    hide FlattenNode, EndOn;
    var all, k := [node] + rest, LastStep(rest);
    LastStepCons(node, rest);
    assert all[k + 1] == rest[k] && all[..k + 1] == [node] + rest[..k];
    assert ([node] + rest[..k])[1..] == rest[..k];
    EndOnLater(FlattenNode(node), Flatten(rest[..k]), line);
  }

  /** Where that end event is, and what lies before and behind it. */
  lemma EndOfLastStep(body: seq<Node>, line: int)
    requires EndedByLastStep(body, line)
    ensures var k, events, end := LastStep(body), Flatten(body), EndOn(Flatten(body), line);
            end.Some? &&
            events[..end.value] == Flatten(body[..k]) + [StartOf(body[k])] + Flatten(body[k].body) &&
            events[end.value + 1..] == Flatten(body[k + 1..]) && Stepless(body[k + 1..])
  {
    hide Flatten, EndOn, LastStep;
    var k := LastStep(body);
    FlattenAt(body, k);
    SteplessTimeline(body[k].body, line);
    EndBehind(Flatten(body[..k]), StartOf(body[k]), Flatten(body[k].body), EndOf(body[k]), Flatten(body[k + 1..]), line);
  }

  lemma EndBehind(front: seq<Event>, start: Event, inner: seq<Event>, end: Event, later: seq<Event>, line: int)
    requires EndOn(front, line).None? && start.kind != ByEnd && end.kind == ByEnd && end.line == line
    requires forall i :: 0 <= i < |inner| ==> inner[i].kind != ByEnd
    ensures var events, k := front + ([start] + inner + [end]) + later, |front| + 1 + |inner|;
            EndOn(events, line) == Some(k) && events[..k] == front + [start] + inner && events[k + 1..] == later
  {
    hide EndOn;
    var before := front + [start] + inner;
    EndOnLater(front + [start], inner, line);
    EndOnLater(front, [start], line);
    NoEnds(inner, line);
    NoEnds([start], line);
    EndOnMiddle(before, end, later, line);
    assert front + ([start] + inner + [end]) + later == before + ([end] + later);
  }

  lemma NoEnds(events: seq<Event>, line: int)
    requires forall i :: 0 <= i < |events| ==> events[i].kind != ByEnd
    ensures EndOn(events, line).None?
  {
  }

  lemma NoEndAfterLastStep(body: seq<Node>, line: int, other: int)
    requires EndedByLastStep(body, line) && EndOn(Flatten(body), other).Some?
    ensures EndOn(Flatten(body), line).Some? && EndOn(Flatten(body), other).value <= EndOn(Flatten(body), line).value
  {
    hide Flatten, EndOn;
    EndOfLastStep(body, line);
    var events, k, e := Flatten(body), EndOn(Flatten(body), other).value, EndOn(Flatten(body), line).value;
    SteplessTimeline(body[LastStep(body) + 1..], line);
    forall i | e < i < |events| ensures events[i].kind == OtherEvent {
      assert events[i] == events[e + 1..][i - e - 1];
    }
  }

  /** The events up to the first end on a line already have the shape of the whole forest. */
  ghost predicate ClosesEarly(forest: seq<Node>, line: int) {
    EndOn(Flatten(forest), line).Some? &&
    NestShape(Nests(Flatten(forest)[..EndOn(Flatten(forest), line).value])) == ForestShape(forest)
  }

  lemma EarlyNoise(forest: seq<Node>, line: int)
    requires forest != [] && forest[0].Noise? && ClosesEarly(forest, line)
    ensures ClosesEarly(forest[1..], line) && EndOn(FlattenNode(forest[0]), line).None?
  {
    hide Nests, Flatten, EndOn;
    var start, later := StartOf(forest[0]), Flatten(forest[1..]);
    FlattenHead(forest);
    NoEnds([start], line);
    EndOnLater([start], later, line);
    var k := EndOn(later, line).value;
    assert Flatten(forest)[..k + 1] == [start] + later[..k];
    NestsSkip(start, later[..k]);
  }

  lemma ShapeCons(nest: Nest, nests: seq<Nest>)
    ensures NestShape([nest] + nests)
         == [Shape(nest.start.message, Milliseconds(nest.start.time), NestShape(nest.children))] + NestShape(nests)
  {
    assert ([nest] + nests)[1..] == nests;
  }

  /** The shape of a forest, from its first step. */
  lemma ForestShapeCons(forest: seq<Node>)
    requires forest != [] && !forest[0].Noise?
    ensures ForestShape(forest)
         == [Shape(forest[0].name, Milliseconds(forest[0].time), if forest[0].Block? then ForestShape(forest[0].body) else [])]
            + ForestShape(forest[1..])
  {
    var children := if forest[0].Block? then ForestNests(forest[0].body) else [];
    ShapeCons(Nest(StartOf(forest[0]), OwnEnd(forest[0]), children), ForestNests(forest[1..]));
  }

  /** A list with the shape of a forest, from its first step. */
  lemma SameShape(nest: Nest, nests: seq<Nest>, forest: seq<Node>)
    requires forest != [] && !forest[0].Noise? && nest.start == StartOf(forest[0])
    ensures NestShape([nest] + nests) == ForestShape(forest) <==>
            NestShape(nest.children) == (if forest[0].Block? then ForestShape(forest[0].body) else []) &&
            NestShape(nests) == ForestShape(forest[1..])
  {
    hide ForestShape;
    var own := if forest[0].Block? then ForestShape(forest[0].body) else [];
    var name, time := forest[0].name, Milliseconds(forest[0].time);
    ShapeCons(nest, nests);
    ForestShapeCons(forest);
    PairEqual(Shape(name, time, NestShape(nest.children)), NestShape(nests), Shape(name, time, own), ForestShape(forest[1..]));
  }

  lemma EarlyMarker(forest: seq<Node>, line: int)
    requires forest != [] && forest[0].Marker? && ClosesEarly(forest, line)
    ensures ClosesEarly(forest[1..], line) && EndOn(FlattenNode(forest[0]), line).None?
  {
    hide Nests, Flatten, EndOn, NestShape, ForestShape;
    var start, later := StartOf(forest[0]), Flatten(forest[1..]);
    FlattenHead(forest);
    NoEnds([start], line);
    EndOnLater([start], later, line);
    var k := EndOn(later, line).value;
    assert Flatten(forest)[..k + 1] == [start] + later[..k];
    if EndOn(later[..k], start.line).Some? {
      MarkerStaysOpen(forest, k);
    } else {
      NestsOpen(start, later[..k]);
      SameShape(Nest(start, None, []), Nests(later[..k]), forest);
    }
  }

  /** A marker that finds an end gets children. */
  lemma MarkerStaysOpen(forest: seq<Node>, n: nat)
    requires forest != [] && forest[0].Marker? && n <= |Flatten(forest[1..])|
    requires EndOn(Flatten(forest[1..])[..n], forest[0].line).Some?
    ensures NestShape(Nests([StartOf(forest[0])] + Flatten(forest[1..])[..n])) != ForestShape(forest)
  {
    hide Nests, Flatten, EndOn, ForestShape;
    var start, later := StartOf(forest[0]), Flatten(forest[1..]);
    var k := EndOn(later[..n], start.line).value;
    FirstEndDiffers(start, later[..n], []);
    assert [start] + later[..n] + [] == [start] + later[..n];
    assert later[..n][..k] == later[..k];
    SameShape(Nest(start, Some(later[k]), Nests(later[..k])), Nests(later[..n][k + 1..] + []), forest);
    EndHasStart(forest[1..], k);
    NoStarts(later[..k]);
  }

  /** The first end lies inside the first block: then the block itself closes early, before that. */
  lemma EarlyInside(forest: seq<Node>, line: int)
    requires forest != [] && forest[0].Block? && EndOn(Flatten(forest[0].body), line).Some? && ClosesEarly(forest, line)
    ensures ClosesEarly(forest[0].body, forest[0].line)
    ensures EndOn(Flatten(forest[0].body), forest[0].line).value < EndOn(Flatten(forest[0].body), line).value
  {
    hide Nests, Flatten, EndOn, NestShape, ForestShape;
    var node := forest[0];
    var start, inner, later := StartOf(node), Flatten(node.body), [EndOf(node)] + Flatten(forest[1..]);
    FlattenHead(forest);
    var n := EndOn(inner, line).value;
    EndInside(start, inner, later, line, n);
    var prefix := inner[..n];
    NoneBehind(forest, n + 1);
    EndHasStart(node.body, n);
    if EndOn(prefix, node.line).None? {
      NestsOpen(start, prefix);
      SameShape(Nest(start, None, []), Nests(prefix), forest);
      ForestBehind(forest, n + 1);
      NoStarts(prefix);
    } else {
      var k := EndOn(prefix, node.line).value;
      EndOnPrefix(inner, n, node.line);
      FirstEndDiffers(start, prefix, []);
      assert [start] + prefix + [] == [start] + prefix;
      assert prefix[..k] == inner[..k];
      SameShape(Nest(start, Some(prefix[k]), Nests(inner[..k])), Nests(prefix[k + 1..] + []), forest);
    }
  }

  lemma EndInside(start: Event, inner: seq<Event>, later: seq<Event>, line: int, n: nat)
    requires start.kind == ByStart && EndOn(inner, line) == Some(n)
    ensures EndOn([start] + inner + later, line) == Some(n + 1)
    ensures n < |inner| && ([start] + inner + later)[..n + 1] == [start] + inner[..n]
  {
    assert EndOn([start], line).None? by { NoEnds([start], line); }
    hide EndOn;
    EndOnLater([start], inner, line);
    EndOnLater([start] + inner, later, line);
    TakeInside(start, inner, later, n);
  }

  lemma TakeInside(start: Event, inner: seq<Event>, later: seq<Event>, n: nat)
    requires n <= |inner|
    ensures ([start] + inner + later)[..n + 1] == [start] + inner[..n]
  {
    assert ([start] + inner + later)[..n + 1] == ([start] + inner)[..n + 1];
  }

  lemma EndOnPrefix(events: seq<Event>, n: nat, line: int)
    requires n <= |events| && EndOn(events[..n], line).Some?
    ensures EndOn(events, line) == EndOn(events[..n], line)
  {
    assert events == events[..n] + events[n..];
    EndOnLater(events[..n], events[n..], line);
  }

  /** Without a start behind an index inside the first block, the block is the last step of the forest. */
  lemma ForestBehind(forest: seq<Node>, k: nat)
    requires forest != [] && forest[0].Block? && 0 < k < |FlattenNode(forest[0])|
    requires |FlattenNode(forest[0])| <= |Flatten(forest)| && StartNames(Flatten(forest)[k..]) == []
    ensures Stepless(forest[1..]) && ForestShape(forest[1..]) == []
  {
    hide Nests, EndOn, NestShape, FlattenNode;
    var head, later := FlattenNode(forest[0]), Flatten(forest[1..]);
    assert Flatten(forest) == head + later;
    assert Flatten(forest)[k..] == head[k..] + later;
    StartNamesSplit(head[k..], later);
    NoStepsShape(forest[1..]);
    SteplessTimeline(forest[1..], 0);
    assert NestShape([]) == [] by { NoStarts([]); }
  }

  /** The first end is that of the first block: then it has no steps inside, and none follow. */
  lemma EarlyHere(forest: seq<Node>, line: int)
    requires forest != [] && forest[0].Block? && forest[0].line == line && EndOn(Flatten(forest[0].body), line).None?
    requires ClosesEarly(forest, line)
    ensures EndedByLastStep(forest, line)
  {
    hide Nests, Flatten, EndOn, NestShape, ForestShape;
    var node := forest[0];
    var start, inner, end, later := StartOf(node), Flatten(node.body), EndOf(node), Flatten(forest[1..]);
    FlattenHead(forest);
    NoEnds([start], line);
    EndOnLater([start], inner, line);
    EndOnMiddle([start] + inner, end, later, line);
    assert ([start] + inner + ([end] + later))[..|inner| + 1] == [start] + inner;
    NestsOpen(start, inner);
    SameShape(Nest(start, None, []), Nests(inner), forest);
    NoShape();
    NoStepsShape(node.body);
    SteplessTimeline(node.body, line);
    NoStarts(inner);
    NoStepsShape(forest[1..]);
    LastStepCons(node, forest[1..]);
    assert forest == [node] + forest[1..] && forest[..0] == [];
    EmptyForest();
    NoEnds([], line);
  }

  lemma NoShape()
    ensures NestShape([]) == []
  {
  }

  /** The first end lies behind the first block: then the same holds for the other nodes. */
  lemma EarlyLater(forest: seq<Node>, line: int)
    requires forest != [] && forest[0].Block? && forest[0].line != line && EndOn(Flatten(forest[0].body), line).None?
    requires ClosesEarly(forest, line)
    ensures ClosesEarly(forest[1..], line) && EndOn(FlattenNode(forest[0]), line).None?
  {
    hide Nests, Flatten, EndOn, NestShape, ForestShape;
    var node := forest[0];
    var start, inner, end, later := StartOf(node), Flatten(node.body), EndOf(node), Flatten(forest[1..]);
    FlattenHead(forest);
    NothingInBlock(node, line);
    var head := FlattenNode(node);
    assert Flatten(forest) == head + later;
    EndOnLater(head, later, line);
    var k := EndOn(later, line).value;
    assert Flatten(forest)[..|head| + k] == [start] + inner + ([end] + later[..k]);
    if EndOn(inner, node.line).None? {
      NestsClosed(start, inner, end, later[..k]);
      SameShape(Nest(start, Some(end), Nests(inner)), Nests(later[..k]), forest);
    } else {
      var q := EndOn(inner, node.line).value;
      FirstEndDiffers(start, inner, [end] + later[..k]);
      SameShape(Nest(start, Some(inner[q]), Nests(inner[..q])), Nests(inner[q + 1..] + ([end] + later[..k])), forest);
      NoneBehind(node.body, q);
      QuietTail(inner, q, end, later[..k]);
    }
  }

  lemma NothingInBlock(node: Node, line: int)
    requires node.Block? && node.line != line && EndOn(Flatten(node.body), line).None?
    ensures EndOn(FlattenNode(node), line).None?
  {
    var start, body, end := [StartOf(node)], Flatten(node.body), [EndOf(node)];
    EndOnLater(start + body, end, line);
    EndOnLater(start, body, line);
  }

  /** The rest of a body without starts, and the block's own end, add nothing to what follows. */
  lemma QuietTail(inner: seq<Event>, k: nat, end: Event, later: seq<Event>)
    requires k < |inner| && StartNames(inner[k..]) == [] && end.kind != ByStart
    ensures Nests(inner[k + 1..] + ([end] + later)) == Nests(later)
  {
    hide Nests;
    assert inner[k..][1..] == inner[k + 1..];
    Quiet(inner[k + 1..], [end] + later);
    NestsSkip(end, later);
  }

  /**
   If a forest closes early, the end that closes it is the one of its last step, which has no steps inside.
   */
  lemma {:induction false} EarlyEnd(forest: seq<Node>, line: int)
    requires ClosesEarly(forest, line)
    ensures EndedByLastStep(forest, line)
    decreases forest
  {
    hide Nests, Flatten, FlattenNode, EndOn, EndedByLastStep, ClosesEarly;
    NotEmpty(forest, line);
    var node, rest := forest[0], forest[1..];
    assert forest == [node] + rest;
    if node.Block? && EndOn(Flatten(node.body), line).Some? {
      EarlyInside(forest, line);
      EarlyEnd(node.body, node.line);
      NoEndAfterLastStep(node.body, node.line, line);
    } else if node.Block? && node.line == line {
      EarlyHere(forest, line);
    } else {
      if node.Noise? {
        EarlyNoise(forest, line);
      } else if node.Marker? {
        EarlyMarker(forest, line);
      } else {
        EarlyLater(forest, line);
      }
      EarlyEnd(rest, line);
      EndedLater(node, rest, line);
    }
  }

  lemma NotEmpty(forest: seq<Node>, line: int)
    requires ClosesEarly(forest, line)
    ensures forest != []
  {
  }

  // ---------------------------------------------------------------- exactly when the shape comes back

  lemma {:induction false} NestsTrailing(events: seq<Event>, noise: seq<Event>)
    requires forall i :: 0 <= i < |noise| ==> noise[i].kind == OtherEvent
    ensures Nests(events + noise) == Nests(events)
    decreases |events|
  {
    hide EndOn;
    if events == [] {
      NoNoiseNests(noise);
      assert events + noise == noise;
    } else {
      var start, rest := events[0], events[1..];
      assert events + noise == [start] + (rest + noise) && events == [start] + rest;
      if start.kind != ByStart {
        NestsTrailing(rest, noise);
        NestsSkip(start, rest + noise);
      } else {
        EndOnLater(rest, noise, start.line);
        NoEnds(noise, start.line);
        if EndOn(rest, start.line).None? {
          NestsTrailing(rest, noise);
          NestsOpen(start, rest + noise);
        } else {
          var k := EndOn(rest, start.line).value;
          NestsTrailing(rest[k + 1..], noise);
          FirstEndDiffers(start, rest, noise);
          FirstEndDiffers(start, rest, []);
          assert [start] + rest + [] == [start] + rest && rest[k + 1..] + [] == rest[k + 1..];
          assert [start] + rest + noise == [start] + (rest + noise);
        }
      }
    }
  }

  lemma {:induction false} NoNoiseNests(noise: seq<Event>)
    requires forall i :: 0 <= i < |noise| ==> noise[i].kind == OtherEvent
    ensures Nests(noise) == []
  {
    if noise != [] {
      NoNoiseNests(noise[1..]);
    }
  }

  lemma {:induction false} ForestShapeSplit(a: seq<Node>, b: seq<Node>)
    ensures ForestShape(a + b) == ForestShape(a) + ForestShape(b)
  {
    hide ForestShape;
    if a == [] {
      assert a + b == b;
      NoForestShape();
    } else {
      assert (a + b)[1..] == a[1..] + b;
      ForestShapeSplit(a[1..], b);
      if a[0].Noise? {
        NoiseShape(a);
        NoiseShape(a + b);
      } else {
        ForestShapeCons(a);
        ForestShapeCons(a + b);
      }
    }
  }

  lemma NoForestShape()
    ensures ForestShape([]) == []
  {
  }

  lemma NoiseShape(forest: seq<Node>)
    requires forest != [] && forest[0].Noise?
    ensures ForestShape(forest) == ForestShape(forest[1..])
  {
  }

  lemma CutSameShape(body: seq<Node>)
    requires LastStep(body) >= 0 && body[LastStep(body)].Block? && Stepless(body[LastStep(body)].body)
    ensures ForestShape(CutAtLastStep(body)) == ForestShape(body)
  {
    hide NestShape, ForestShape, LastStep;
    var k := LastStep(body);
    var last, marker := body[k], CutAtLastStep(body)[k];
    assert body == body[..k] + ([last] + body[k + 1..]);
    ForestShapeSplit(body[..k], [last] + body[k + 1..]);
    ForestShapeSplit([last], body[k + 1..]);
    ForestShapeSplit(body[..k], [marker]);
    SteplessShape(body[k + 1..]);
    SteplessShape(last.body);
    ForestShapeCons([last]);
    ForestShapeCons([marker]);
    assert [last][1..] == [marker][1..] == [];
  }

  /** The cut forest has the shape of the whole, and its timeline is parsed like the events up to the early end. */
  lemma CutShape(body: seq<Node>, line: int)
    requires EndedByLastStep(body, line)
    ensures ForestShape(CutAtLastStep(body)) == ForestShape(body)
    ensures EndOn(Flatten(body), line).Some?
    ensures Nests(Flatten(body)[..EndOn(Flatten(body), line).value]) == Nests(Flatten(CutAtLastStep(body)))
  {
    hide Nests, Flatten, FlattenNode, EndOn, NestShape, ForestShape, LastStep, CutAtLastStep;
    var k := LastStep(body);
    CutParts(body);
    EndOfLastStep(body, line);
    SteplessTimeline(body[k].body, line);
    NestsTrailing(Flatten(body[..k]) + [StartOf(body[k])], Flatten(body[k].body));
    CutSameShape(body);
  }

  lemma SteplessShape(forest: seq<Node>)
    requires Stepless(forest)
    ensures ForestShape(forest) == []
  {
    SteplessTimeline(forest, 0);
  }

  /** A block that closes early. */
  lemma EarlyBlock(forest: seq<Node>)
    requires forest != [] && forest[0].Block? && EndOn(Flatten(forest[0].body), forest[0].line).Some?
    ensures NestShape(Nests(Flatten(forest))) == ForestShape(forest) <==>
            ClosesEarly(forest[0].body, forest[0].line) && NestShape(Nests(Flatten(forest[1..]))) == ForestShape(forest[1..])
  {
    hide Nests, Flatten, EndOn, NestShape, ForestShape;
    var node := forest[0];
    var start, inner, end, later := StartOf(node), Flatten(node.body), EndOf(node), Flatten(forest[1..]);
    FlattenHead(forest);
    var k := EndOn(inner, node.line).value;
    FirstEndDiffers(start, inner, [end] + later);
    SameShape(Nest(start, Some(inner[k]), Nests(inner[..k])), Nests(inner[k + 1..] + ([end] + later)), forest);
    if ClosesEarly(node.body, node.line) {
      NoneBehind(node.body, k);
      QuietTail(inner, k, end, later);
    }
  }

  lemma {:induction false} SameShapeIff(forest: seq<Node>)
    ensures NestShape(Nests(Flatten(forest))) == ForestShape(forest) <==> Rebuildable(forest)
    decreases |Flatten(forest)|
  {
    hide Nests, FlattenNode, EndOn, NestShape, ForestShape, ClosesEarly, EndedByLastStep, CutAtLastStep;
    if forest == [] {
      EmptyForest();
      NoShape();
      NoForestShape();
    } else {
      var node, rest := forest[0], forest[1..];
      var start, later := StartOf(node), Flatten(rest);
      FlattenHead(forest);
      SameShapeIff(rest);
      if node.Noise? {
        NestsSkip(start, later);
        NoiseShape(forest);
      } else if node.Marker? {
        if EndOn(later, node.line).None? {
          NestsOpen(start, later);
          SameShape(Nest(start, None, []), Nests(later), forest);
          NoShape();
        } else {
          assert later[..|later|] == later;
          MarkerStaysOpen(forest, |later|);
        }
      } else if EndOn(Flatten(node.body), node.line).None? {
        SameShapeIff(node.body);
        NestsClosed(start, Flatten(node.body), EndOf(node), later);
        SameShape(Nest(start, Some(EndOf(node)), Nests(Flatten(node.body))), Nests(later), forest);
      } else {
        EarlyBlock(forest);
        CutIff(node.body, node.line);
        if EndedByLastStep(node.body, node.line) {
          CutShorter(node.body, node.line);
          SameShapeIff(CutAtLastStep(node.body));
        }
      }
    }
  }

  lemma CutShorter(body: seq<Node>, line: int)
    requires EndedByLastStep(body, line)
    ensures LastStep(body) >= 0 && |Flatten(CutAtLastStep(body))| <= |Flatten(body)|
  {
    CutParts(body);
  }

  /** Closing early is being ended by the last step, with a cut that keeps its shape. */
  lemma CutIff(body: seq<Node>, line: int)
    requires EndOn(Flatten(body), line).Some?
    ensures ClosesEarly(body, line) <==>
            EndedByLastStep(body, line) && NestShape(Nests(Flatten(CutAtLastStep(body)))) == ForestShape(CutAtLastStep(body))
  {
    hide Nests, Flatten, EndOn, NestShape, ForestShape, CutAtLastStep;
    if ClosesEarly(body, line) {
      EarlyEnd(body, line);
    }
    if EndedByLastStep(body, line) {
      CutShape(body, line);
    }
  }

  /**
   For every forest, whatever is handed out and whenever things happen: the steps have the names, start times,
   nesting and sibling order of the forest if and only if the forest is rebuildable.
   */
  lemma RebuildsExactlyIff(ctx: Context, forest: seq<Node>)
    requires Increasing(Flatten(forest))
    ensures StepsShape(Build(ctx, Flatten(forest)).0) == ForestShape(forest) <==> Rebuildable(forest)
  {
    hide Rebuildable, NestShape, ForestShape;
    SameShapeIff(forest);
    HandOutShape(ctx, Nests(Flatten(forest)), {});
  }

  /** A child on its block's line, with nothing after it: the ends are swapped, the steps are the same. */
  lemma SwappedEndsRebuild()
    ensures var forest := [Block(1, 7, "outer", 0, [Block(2, 7, "inner", 0, [], 3, 0)], 4, 0)];
            !Unambiguous(forest) && Rebuildable(forest)
  {
    var inner := Block(2, 7, "inner", 0, [], 3, 0);
    var outer := Block(1, 7, "outer", 0, [inner], 4, 0);
    hide EndOn, Rebuildable;
    FlattenSingle(inner);
    InnerEnd(Event(ByStart, "inner", 7, 2, 0), Event(ByEnd, "", 7, 3, 0));
    assert FlattenNode(inner) == [Event(ByStart, "inner", 7, 2, 0), Event(ByEnd, "", 7, 3, 0)];
    assert [inner][..0] == [] && LastStep([inner]) == 0;
    NoEnds([], 7);
    var cut := CutAtLastStep([inner]);
    assert cut == [Marker(2, 7, "inner", 0)];
    RebuildableMarker(cut[0]);
    RebuildableBlock(outer);
  }

  lemma InnerEnd(start: Event, end: Event)
    requires start.kind == ByStart && end.kind == ByEnd
    ensures EndOn([start, end], end.line) == Some(1)
  {
    assert [start, end][1] == end;
  }

  lemma RebuildableMarker(marker: Node)
    requires marker.Marker?
    ensures Rebuildable([marker])
  {
    assert [marker][1..] == [] && Flatten([]) == [];
    NoEnds([], marker.line);
  }

  lemma RebuildableBlock(block: Node)
    requires block.Block? && EndOn(Flatten(block.body), block.line).Some?
    requires EndedByLastStep(block.body, block.line) && Rebuildable(CutAtLastStep(block.body))
    ensures Rebuildable([block])
  {
    assert [block][1..] == [];
  }

  /** With a marker after that child, the outer block ends with the inner one and the marker leaves it. */
  lemma SharedLineMisplaces(ctx: Context)
    ensures var forest := [Block(1, 7, "outer", 0, [Block(2, 7, "inner", 0, [], 3, 0), Marker(4, 8, "late", 0)], 5, 0)];
            Increasing(Flatten(forest)) &&
            StepsShape(Build(ctx, Flatten(forest)).0)
            == [Shape("outer", 0, [Shape("inner", 0, [])]), Shape("late", 0, [])]
  {
    hide Build, Nests, NestShape, Flatten, StepsShape, EndOn;
    var inner, late := Block(2, 7, "inner", 0, [], 3, 0), Marker(4, 8, "late", 0);
    var outer := Block(1, 7, "outer", 0, [inner, late], 5, 0);
    SharedTimeline(outer, inner, late);
    OuterEndsWithInner(StartOf(outer), StartOf(inner), EndOf(inner), StartOf(late), EndOf(outer));
    BuildShape(ctx, Flatten([outer]));
  }

  lemma BuildShape(ctx: Context, events: seq<Event>)
    ensures StepsShape(Build(ctx, events).0) == NestShape(Nests(events))
  {
    HandOutShape(ctx, Nests(events), {});
  }

  lemma SharedTimeline(outer: Node, inner: Node, late: Node)
    requires outer.Block? && inner.Block? && late.Marker? && outer.body == [inner, late] && inner.body == []
    ensures Flatten([outer]) == [StartOf(outer), StartOf(inner), EndOf(inner), StartOf(late), EndOf(outer)]
  {
    FlattenSingle(outer);
    FlattenSingle(inner);
    FlattenSingle(late);
    FlattenSplit([inner], [late]);
    assert [inner, late] == [inner] + [late];
  }

  lemma OuterEndsWithInner(outer: Event, inner: Event, innerEnd: Event, late: Event, outerEnd: Event)
    requires outer.kind == inner.kind == late.kind == ByStart && innerEnd.kind == outerEnd.kind == ByEnd
    requires outer.line == inner.line == innerEnd.line == outerEnd.line != late.line
    ensures NestShape(Nests([outer, inner, innerEnd, late, outerEnd]))
         == [Shape(outer.message, Milliseconds(outer.time), [Shape(inner.message, Milliseconds(inner.time), [])]),
             Shape(late.message, Milliseconds(late.time), [])]
  {
    BlockOfOneMarker(outer, inner, innerEnd, [late, outerEnd]);
    assert [outer, inner, innerEnd, late, outerEnd] == [outer, inner, innerEnd] + [late, outerEnd];
    assert [outerEnd][1..] == [] && Nests([outerEnd]) == [];
    assert EndOn([outerEnd], late.line).None?;
    NestsOpen(late, [outerEnd]);
    assert [late] + [outerEnd] == [late, outerEnd];
    hide Nests;
    var kid, tail := Nest(inner, None, []), [Nest(late, None, [])];
    assert Nests([late, outerEnd]) == tail + [] == tail;
    ShapeCons(Nest(outer, Some(innerEnd), [kid]), tail);
    ShapeCons(kid, []);
    ShapeCons(tail[0], []);
    NoShape();
    assert [kid] + [] == [kid] && tail == [tail[0]] + [];
    assert NestShape([kid]) == [Shape(inner.message, Milliseconds(inner.time), [])];
    assert NestShape(tail) == [Shape(late.message, Milliseconds(late.time), [])];
  }

  // ---------------------------------------------------------------- exactly one place, for forests

  /** Some step of a list was started before an order; what is inside it started later still. */
  ghost predicate StepBefore(forest: seq<Node>, order: int) {
    exists j :: 0 <= j < |forest| && !forest[j].Noise? && forest[j].order < order
  }

  /** At no depth do two sibling blocks both contain a step that started before the order. */
  ghost predicate OneBusyBlock(forest: seq<Node>, order: int) {
    && (forall j, k :: 0 <= j < k < |forest| && forest[j].Block? && forest[k].Block? ==>
          !(StepBefore(forest[j].body, order) && StepBefore(forest[k].body, order)))
    && forall j :: 0 <= j < |forest| && forest[j].Block? ==> OneBusyBlock(forest[j].body, order)
  }

  ghost predicate SomeBusyBlock(forest: seq<Node>, order: int) {
    exists j :: 0 <= j < |forest| && forest[j].Block? && StepBefore(forest[j].body, order)
  }

  lemma OneBusyHead(forest: seq<Node>, order: int)
    requires forest != []
    ensures var busy := forest[0].Block? && StepBefore(forest[0].body, order);
            (OneBusyBlock(forest, order) <==>
              (forest[0].Block? ==> OneBusyBlock(forest[0].body, order)) && OneBusyBlock(forest[1..], order) &&
              !(busy && SomeBusyBlock(forest[1..], order))) &&
            (SomeBusyBlock(forest, order) <==> busy || SomeBusyBlock(forest[1..], order))
    ensures StepBefore(forest, order) <==> (!forest[0].Noise? && forest[0].order < order) || StepBefore(forest[1..], order)
  {
    var rest := forest[1..];
    assert forall j :: 0 <= j < |rest| ==> rest[j] == forest[j + 1];
    assert forall j :: 1 <= j < |forest| ==> forest[j] == rest[j - 1];
  }

  lemma {:induction false} TakenIsStepBefore(forest: seq<Node>, low: int, order: int)
    requires Rising(ForestNests(forest), low) && Unused(ForestNests(forest), order) && order < MAX_ORDER
    ensures Taken(ForestNests(forest), order) <==> StepBefore(forest, order)
  {
    hide Taken, StepBefore;
    if forest != [] {
      OneBusyHead(forest, order);
      if forest[0].Noise? {
        TakenIsStepBefore(forest[1..], low, order);
      } else {
        var nests, start := ForestNests(forest), forest[0].order;
        assert nests[1..] == ForestNests(forest[1..]);
        TakenIsStepBefore(forest[1..], start, order);
        TakenIsStarted(nests, low, order);
        if start >= order {
          NotTakenYet(nests[1..], start, order);
        }
      }
    } else {
      assert !StepBefore(forest, order) by { NothingBefore(order); }
      TakenIsStarted(ForestNests(forest), low, order);
    }
  }

  lemma NothingBefore(order: int)
    ensures !StepBefore([], order)
  {
  }

  lemma {:induction false} SeparateIsOneBusy(forest: seq<Node>, low: int, order: int)
    requires Rising(ForestNests(forest), low) && Unused(ForestNests(forest), order) && order < MAX_ORDER
    ensures Separate(ForestNests(forest), order) <==> OneBusyBlock(forest, order)
    ensures Busy(ForestNests(forest), order) <==> SomeBusyBlock(forest, order)
  {
    hide Taken, StepBefore;
    if forest != [] {
      hide Separate, OneBusyBlock, Busy, SomeBusyBlock;
      OneBusyHead(forest, order);
      if forest[0].Noise? {
        SeparateIsOneBusy(forest[1..], low, order);
      } else {
        var nests, start := ForestNests(forest), forest[0].order;
        assert nests[1..] == ForestNests(forest[1..]);
        SeparateHead(nests, order);
        SeparateIsOneBusy(forest[1..], start, order);
        if forest[0].Block? {
          SeparateIsOneBusy(forest[0].body, start, order);
          TakenIsStepBefore(forest[0].body, start, order);
        } else {
          NothingInside(order);
        }
      }
    }
  }

  lemma NothingInside(order: int)
    ensures Separate([], order) && !Taken([], order)
  {
  }

  /**
   For every unambiguous forest: an attachment with an order of its own lands in exactly one place if and only
   if at no depth two sibling blocks both contain a step that started before it.
   */
  lemma ForestExactlyOnceIff(ctx: Context, forest: seq<Node>, i: nat)
    requires Increasing(Flatten(forest)) && Unambiguous(forest) && i < |ctx.entries|
    requires ctx.entries[i].order < MAX_ORDER
    requires forall e :: e in Flatten(forest) ==> e.order != ctx.entries[i].order
    ensures Places(ctx, Flatten(forest), i) == 1 <==> OneBusyBlock(forest, ctx.entries[i].order)
  {
    hide Places, Nests, Separate, Rising, Unused, OneBusyBlock, Flatten;
    var events, order := Flatten(forest), ctx.entries[i].order;
    var low := if events == [] then 0 else events[0].order - 1;
    ExactlyOnceIff(ctx, events, i);
    PairsExactlyIff(forest);
    NestsRise(events, low);
    NestsUnused(events, order);
    SeparateIsOneBusy(forest, low, order);
  }
}
