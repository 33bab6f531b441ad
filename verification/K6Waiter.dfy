/**
 The waiter for a k6 TestRun: Get, Watch, Get again, then read events until a terminal stage.
 It is a state machine of the waiter, the watch connection and the TestRun object, in which
 the object changes, the connection closes, the deadline expires and requests fail at any time.
 */
module K6Waiter {
  import opened Wrappers

  type Stage = string

  predicate IsTerminal(stage: Stage) {
    stage == "finished" || stage == "error"
  }

  datatype EventKind = Added | Modified | Deleted | OtherKind

  /** A watch event; `stage` is None when its object is not a TestRun, as in an error event. */
  datatype Event = Event(kind: EventKind, stage: Option<Stage>)

  /** Events not yet received; a closed connection delivers these and then reports its end. */
  datatype Watch = Watch(queue: seq<Event>, closed: bool)

  datatype Outcome = Success | StageFailed(stage: Stage) | WatchFailed | TimedOut(read: Option<Stage>)

  datatype Control = FirstGet | StartWatch | Recheck | Select | FinalGet | Done(outcome: Outcome)

  /**
   `run` is the stage of the TestRun, None while it does not exist. `seen` collects every stage it
   ever had. `rechecked` says that the Get after the current Watch succeeded, `told` that an event of the
   object itself entered the current Watch: a change while it was open, or the replay at its start.
   */
  datatype State = State(
    run: Option<Stage>, seen: set<Stage>, watch: Option<Watch>, rechecked: bool, told: bool, expired: bool, control: Control)

  datatype Action =
    | Change(to: Option<Stage>)                 // the operator updates, creates or deletes the TestRun
    | Deliver(stage: Option<Stage>)             // the connection carries an event of another kind
    | Close                                     // the server or a proxy closes the connection
    | Expire                                    // the waiter's deadline passes
    | Get(ok: bool)                             // the waiter's read, in any of its three places
    | Open(ok: bool, replay: bool)              // the waiter's Watch; replay: the current object comes first
    | Receive                                   // the waiter takes the oldest event
    | Restart                                   // the waiter sees the end of the connection
    | GiveUp                                    // the waiter sees its deadline

  function Observed(run: Option<Stage>): set<Stage> {
    if run.Some? then {run.value} else {}
  }

  function Init(run: Option<Stage>): State {
    State(run, Observed(run), None, false, false, false, FirstGet)
  }

  function ChangeEvent(from: Option<Stage>, to: Option<Stage>): Event
    requires from.Some? || to.Some?
  {
    if to.None? then Event(Deleted, from) else Event(if from.None? then Added else Modified, to)
  }

  function Enqueue(watch: Option<Watch>, event: Event): Option<Watch> {
    if watch.Some? && !watch.value.closed then Some(Watch(watch.value.queue + [event], false)) else watch
  }

  function Report(stage: Stage): Outcome {
    if stage == "finished" then Success else StageFailed(stage)
  }

  /** Where the waiter goes after a Get that read `read`, or that failed. */
  function AfterGet(s: State, read: Option<Stage>): State {
    if read.Some? && IsTerminal(read.value) then s.(control := Done(Report(read.value)))
    else
      match s.control
      case FirstGet => s.(control := StartWatch)
      case Recheck => s.(control := Select, rechecked := read.Some?)
      case _ => s.(control := Done(TimedOut(read)))
  }

  function AfterReceive(s: State, event: Event, watch: Watch): State {
    if (event.kind == Modified || event.kind == Added) && event.stage.Some? && IsTerminal(event.stage.value) then
      s.(watch := Some(watch), control := Done(Report(event.stage.value)))
    else s.(watch := Some(watch))
  }

  /** One step; None when the action cannot happen in this state. */
  function Apply(s: State, a: Action): Option<State> {
    match a
    case Change(to) =>
      if s.run.None? && to.None? then None
      else
        Some(s.(run := to, seen := s.seen + Observed(to), watch := Enqueue(s.watch, ChangeEvent(s.run, to)),
                told := s.told || (s.watch.Some? && !s.watch.value.closed)))
    case Deliver(stage) => Some(s.(watch := Enqueue(s.watch, Event(OtherKind, stage))))
    case Close => if s.watch.None? then None else Some(s.(watch := Some(s.watch.value.(closed := true))))
    case Expire => Some(s.(expired := true))
    case Get(ok) =>
      if !(s.control.FirstGet? || s.control.Recheck? || s.control.FinalGet?) || (ok && s.run.None?) then None
      else Some(AfterGet(s, if ok then s.run else None))
    case Open(ok, replay) =>
      if !s.control.StartWatch? then None
      else if !ok then Some(s.(control := Done(WatchFailed)))
      else
        var first := if replay && s.run.Some? then [Event(Added, s.run)] else [];
        Some(s.(watch := Some(Watch(first, false)), rechecked := false, told := first != [], control := Recheck))
    case Receive =>
      if !s.control.Select? || s.watch.None? || s.watch.value.queue == [] then None
      else
        var queue := s.watch.value.queue;
        Some(AfterReceive(s, queue[0], s.watch.value.(queue := queue[1..])))
    case Restart =>
      if !s.control.Select? || s.watch.None? || s.watch.value.queue != [] || !s.watch.value.closed then None
      else Some(s.(watch := None, control := StartWatch))
    case GiveUp => if s.control.Select? && s.expired then Some(s.(control := FinalGet)) else None
  }

  /** The state after a sequence of actions; None if one of them could not happen. */
  function Execute(s: State, actions: seq<Action>): Option<State>
    decreases actions
  {
    if actions == [] then Some(s)
    else
      var next :- Apply(s, actions[0]);
      Execute(next, actions[1..])
  }

  // ---------------------------------------------------------------- invariant

  predicate IsObjectEvent(e: Event) {
    e.kind != OtherKind
  }

  function LastObject(queue: seq<Event>): Option<Event> {
    if queue == [] then None
    else
      var last := queue[|queue| - 1];
      if IsObjectEvent(last) then Some(last) else LastObject(queue[..|queue| - 1])
  }

  predicate IsTerminalEvent(e: Event) {
    (e.kind == Added || e.kind == Modified) && e.stage.Some? && IsTerminal(e.stage.value)
  }

  predicate Blocked(s: State) {
    s.control.Select? && s.watch.Some?
  }

  predicate Terminal(run: Option<Stage>) {
    run.Some? && IsTerminal(run.value)
  }

  /**
   In an open watch that was told of the object, the newest object event still queued tells its current stage
   if that is terminal; in one that was not told, there is no object event.
   */
  ghost predicate QueueTells(s: State) {
    s.watch.Some? && !s.watch.value.closed && !s.control.Done? ==>
      var last := LastObject(s.watch.value.queue);
      (s.told && Terminal(s.run) ==>
        last.Some? && (last.value.kind == Added || last.value.kind == Modified) && last.value.stage == s.run) &&
      (!s.told ==> last.None?)
  }

  /** An open watch that was rechecked and not told of the object belongs to a TestRun that is not terminal. */
  ghost predicate RecheckTells(s: State) {
    s.watch.Some? && !s.watch.value.closed && s.control.Select? && s.rechecked && !s.told ==> !Terminal(s.run)
  }

  /** Every stage the waiter can learn of is one the TestRun has had. */
  ghost predicate OnlySeen(s: State) {
    && Observed(s.run) <= s.seen
    && (s.watch.Some? ==> forall i :: 0 <= i < |s.watch.value.queue| ==> Genuine(s, s.watch.value.queue[i]))
  }

  ghost predicate Genuine(s: State, e: Event) {
    (e.kind == Added || e.kind == Modified) && e.stage.Some? ==> e.stage.value in s.seen
  }

  ghost predicate OutcomeJustified(s: State) {
    s.control.Done? ==>
      match s.control.outcome
      case Success => "finished" in s.seen
      case StageFailed(stage) => stage == "error" && stage in s.seen
      case WatchFailed => true
      case TimedOut(read) =>
        s.expired && read != Some("finished") && read != Some("error") && (read.Some? ==> read.value in s.seen)
  }

  ghost predicate Inv(s: State) {
    && QueueTells(s)
    && RecheckTells(s)
    && OnlySeen(s)
    && OutcomeJustified(s)
    && (s.control.Select? || s.control.Recheck? ==> s.watch.Some?)
    && (s.control.FinalGet? ==> s.expired)
  }

  lemma LastObjectSnoc(queue: seq<Event>, e: Event)
    ensures LastObject(queue + [e]) == if IsObjectEvent(e) then Some(e) else LastObject(queue)
  {
    assert (queue + [e])[..|queue|] == queue;
  }

  lemma {:induction false} LastObjectTail(queue: seq<Event>)
    requires |queue| > 0
    ensures LastObject(queue) ==
            if LastObject(queue[1..]).Some? then LastObject(queue[1..])
            else if IsObjectEvent(queue[0]) then Some(queue[0]) else None
    decreases |queue|
  {
    var n := |queue|;
    if n > 1 && !IsObjectEvent(queue[n - 1]) {
      assert queue[1..][..n - 2] == queue[..n - 1][1..];
      LastObjectTail(queue[..n - 1]);
    }
  }

  lemma QueueTellsStep(s: State, a: Action)
    requires QueueTells(s) && RecheckTells(s) && Apply(s, a).Some?
    requires s.control.Select? || s.control.Recheck? ==> s.watch.Some?
    ensures QueueTells(Apply(s, a).value) && RecheckTells(Apply(s, a).value)
  {
    hide IsTerminal;
    match a
    case Change(to) =>
      if s.watch.Some? {
        LastObjectSnoc(s.watch.value.queue, ChangeEvent(s.run, to));
      }
    case Deliver(stage) =>
      if s.watch.Some? {
        LastObjectSnoc(s.watch.value.queue, Event(OtherKind, stage));
      }
    case Receive => LastObjectTail(s.watch.value.queue);
    case _ =>
  }

  lemma OnlySeenStep(s: State, a: Action)
    requires OnlySeen(s) && Apply(s, a).Some?
    ensures OnlySeen(Apply(s, a).value)
  {
    hide IsTerminal;
  }

  lemma OutcomeStep(s: State, a: Action)
    requires OnlySeen(s) && OutcomeJustified(s) && (s.control.FinalGet? ==> s.expired) && Apply(s, a).Some?
    ensures OutcomeJustified(Apply(s, a).value)
  {
    if a.Receive? {
      assert Genuine(s, s.watch.value.queue[0]);
    }
  }

  lemma InvStep(s: State, a: Action)
    requires Inv(s) && Apply(s, a).Some?
    ensures Inv(Apply(s, a).value)
  {
    QueueTellsStep(s, a);
    OnlySeenStep(s, a);
    OutcomeStep(s, a);
    hide QueueTells, RecheckTells, OnlySeen, OutcomeJustified, IsTerminal;
  }

  lemma {:induction false} InvRun(s: State, actions: seq<Action>)
    requires Inv(s) && Execute(s, actions).Some?
    ensures Inv(Execute(s, actions).value)
    decreases actions
  {
    hide Apply, Inv;
    if actions != [] {
      InvStep(s, actions[0]);
      InvRun(Apply(s, actions[0]).value, actions[1..]);
    }
  }

  lemma InvInit(run: Option<Stage>)
    ensures Inv(Init(run))
  {
  }

  // ---------------------------------------------------------------- main results

  /** An event queued in the watch announces one of the stages that end a TestRun. */
  ghost predicate TerminalQueued(watch: Watch) {
    exists i :: 0 <= i < |watch.queue| && (watch.queue[i].kind == Added || watch.queue[i].kind == Modified) &&
      (watch.queue[i].stage == Some("finished") || watch.queue[i].stage == Some("error"))
  }

  lemma {:induction false} LastObjectQueued(queue: seq<Event>)
    ensures LastObject(queue).Some? ==> exists i :: 0 <= i < |queue| && queue[i] == LastObject(queue).value
  {
    if queue != [] && !IsObjectEvent(queue[|queue| - 1]) {
      LastObjectQueued(queue[..|queue| - 1]);
    }
  }

  lemma {:induction false} NoLastObject(queue: seq<Event>)
    requires LastObject(queue).None?
    ensures forall i :: 0 <= i < |queue| ==> !IsTerminalEvent(queue[i])
  {
    if queue != [] {
      NoLastObject(queue[..|queue| - 1]);
    }
  }

  /**
   In every reachable state where the waiter is blocked on an open watch and the TestRun is finished or
   failed, an event that announces an end is queued if and only if the watch was told of the object, and a
   successful Get after the Watch makes sure of that.
   */
  lemma AnnouncedIff(run: Option<Stage>, actions: seq<Action>)
    requires Execute(Init(run), actions).Some?
    requires var s := Execute(Init(run), actions).value;
             Blocked(s) && !s.watch.value.closed && (s.run == Some("finished") || s.run == Some("error"))
    ensures var s := Execute(Init(run), actions).value;
            (TerminalQueued(s.watch.value) <==> s.told) && (s.rechecked ==> s.told)
  {
    InvInit(run);
    InvRun(Init(run), actions);
    var s := Execute(Init(run), actions).value;
    if s.told {
      LastObjectQueued(s.watch.value.queue);
    } else {
      NoLastObject(s.watch.value.queue);
    }
  }

  // ---------------------------------------------------------------- what every read decides

  /**
   Each Get, in any of its three places: a stage that ends the TestRun is reported, and nothing else ends the
   wait but the last Get.
   */
  lemma GetDecides(s: State, ok: bool)
    requires s.control.FirstGet? || s.control.Recheck? || s.control.FinalGet?
    ensures Apply(s, Get(ok)).Some? <==> !ok || s.run.Some?
    ensures ok && s.run.Some? ==>
              (s.run == Some("finished") <==> Apply(s, Get(ok)).value.control == Done(Success)) &&
              (s.run == Some("error") <==> Apply(s, Get(ok)).value.control == Done(StageFailed("error")))
    ensures !ok || (s.run.Some? && s.run != Some("finished") && s.run != Some("error")) ==>
              var t := Apply(s, Get(ok)).value;
              match s.control
              case FirstGet => t.control == StartWatch
              case Recheck => t.control == Select && t.watch == s.watch
              case _ => t.control == Done(TimedOut(if ok then s.run else None))
  {
  }

  /**
   Each event the waiter takes: an Added or Modified event with such a stage is reported, all others are
   dropped.
   */
  lemma ReceiveDecides(s: State)
    requires Blocked(s) && s.watch.value.queue != []
    ensures Apply(s, Receive).Some?
    ensures var e, t := s.watch.value.queue[0], Apply(s, Receive).value;
            t.watch == Some(s.watch.value.(queue := s.watch.value.queue[1..])) &&
            if (e.kind == Added || e.kind == Modified) && e.stage == Some("finished") then t.control == Done(Success)
            else if (e.kind == Added || e.kind == Modified) && e.stage == Some("error") then t.control == Done(StageFailed("error"))
            else t.control == Select
  {
  }

  /** What the waiter can do in every reachable state in which it neither reads nor is done. */
  lemma NeverStuck(run: Option<Stage>, actions: seq<Action>, replay: bool)
    requires Execute(Init(run), actions).Some?
    ensures var s := Execute(Init(run), actions).value;
            match s.control
            case StartWatch =>
              Apply(s, Open(true, replay)).Some? && Apply(s, Open(true, replay)).value.control == Recheck &&
              Apply(s, Open(false, replay)).Some? && Apply(s, Open(false, replay)).value.control == Done(WatchFailed)
            case Select =>
              Blocked(s) &&
              (Apply(s, Restart).Some? <==> s.watch.value.closed && s.watch.value.queue == []) &&
              (Apply(s, Restart).Some? ==> Apply(s, Restart).value.control == StartWatch) &&
              (Apply(s, GiveUp).Some? <==> s.expired) &&
              (Apply(s, GiveUp).Some? ==> Apply(s, GiveUp).value.control == FinalGet)
            case _ => true
  {
    InvInit(run);
    InvRun(Init(run), actions);
  }

  /** The results of the Gets after the last Open in a list of actions; None if there was no Open. */
  function GetsSinceOpen(actions: seq<Action>): Option<seq<bool>> {
    if actions == [] then None
    else
      var before := GetsSinceOpen(actions[..|actions| - 1]);
      match actions[|actions| - 1]
      case Open(_, _) => Some([])
      case Get(ok) => if before.Some? then Some(before.value + [ok]) else None
      case _ => before
  }

  ghost predicate ReadSinceOpen(s: State, gets: Option<seq<bool>>) {
    && (s.control.Recheck? ==> gets == Some([]))
    && (s.control.Select? ==> gets == Some([s.rechecked]))
  }

  lemma {:induction false} ReadRun(s: State, done: seq<Action>, actions: seq<Action>)
    requires ReadSinceOpen(s, GetsSinceOpen(done)) && Execute(s, actions).Some?
    ensures ReadSinceOpen(Execute(s, actions).value, GetsSinceOpen(done + actions))
    decreases actions
  {
    if actions == [] {
      assert done + actions == done;
    } else {
      ReadStep(s, done, actions[0]);
      hide Apply, ReadSinceOpen;
      ReadRun(Apply(s, actions[0]).value, done + [actions[0]], actions[1..]);
      assert done + [actions[0]] + actions[1..] == done + actions;
    }
  }

  lemma ReadStep(s: State, done: seq<Action>, a: Action)
    requires ReadSinceOpen(s, GetsSinceOpen(done)) && Apply(s, a).Some?
    ensures ReadSinceOpen(Apply(s, a).value, GetsSinceOpen(done + [a]))
  {
    hide IsTerminal;
    assert (done + [a])[..|done|] == done;
    if a.Get? {
      assert [] + [a.ok] == [a.ok];
    }
  }

  /**
   No run blocks on a watch without exactly one Get after it was opened, and `rechecked` says whether that Get
   succeeded, as the list of actions has it.
   */
  lemma RecheckedIsThatGet(run: Option<Stage>, actions: seq<Action>)
    requires Execute(Init(run), actions).Some?
    ensures var s := Execute(Init(run), actions).value;
            s.control.Select? ==> GetsSinceOpen(actions) == Some([s.rechecked])
  {
    ReadRun(Init(run), [], actions);
    assert [] + actions == actions;
  }

  /**
   No lost terminal stage: in every reachable state where the waiter is blocked and its Get after the
   current Watch succeeded, a finished or failed TestRun implies a queued event that says so or a closed watch.
   */
  lemma NoLostTerminalStage(run: Option<Stage>, actions: seq<Action>)
    requires Execute(Init(run), actions).Some?
    ensures var s := Execute(Init(run), actions).value;
            s.control.Select? && GetsSinceOpen(actions) == Some([true]) && (s.run == Some("finished") || s.run == Some("error")) ==>
              s.watch.Some? && (s.watch.value.closed || TerminalQueued(s.watch.value))
  {
    var s := Execute(Init(run), actions).value;
    NeverStuck(run, actions, false);
    RecheckedIsThatGet(run, actions);
    if s.control.Select? && GetsSinceOpen(actions) == Some([true]) {
      assert [s.rechecked][0] == [true][0];
    }
    if Blocked(s) && !s.watch.value.closed && (s.run == Some("finished") || s.run == Some("error")) {
      AnnouncedIff(run, actions);
    }
  }

  // ---------------------------------------------------------------- outcomes

  /** The TestRun had that stage at the start or was given it by a change. */
  ghost predicate Had(run: Option<Stage>, actions: seq<Action>, stage: Stage) {
    run == Some(stage) || Change(Some(stage)) in actions
  }

  lemma {:induction false} SeenRun(s: State, actions: seq<Action>)
    requires Execute(s, actions).Some?
    ensures forall stage :: stage in Execute(s, actions).value.seen ==> stage in s.seen || Change(Some(stage)) in actions
    ensures Execute(s, actions).value.expired ==> s.expired || Expire in actions
    decreases actions
  {
    if actions != [] {
      SeenStep(s, actions[0]);
      hide Apply;
      SeenRun(Apply(s, actions[0]).value, actions[1..]);
      assert actions == [actions[0]] + actions[1..];
    }
  }

  lemma SeenStep(s: State, a: Action)
    requires Apply(s, a).Some?
    ensures forall stage :: stage in Apply(s, a).value.seen ==> stage in s.seen || a == Change(Some(stage))
    ensures Apply(s, a).value.expired ==> s.expired || a == Expire
  {
    hide IsTerminal;
  }

  /**
   In every run: success only if the TestRun really had the stage "finished", a stage failure only for "error"
   and if it had that, a timeout only past the deadline and when the final Get failed or read another stage.
   */
  lemma OutcomesSound(run: Option<Stage>, actions: seq<Action>)
    requires Execute(Init(run), actions).Some?
    ensures var s := Execute(Init(run), actions).value;
            s.control.Done? ==>
              var outcome := s.control.outcome;
              (outcome.Success? ==> Had(run, actions, "finished")) &&
              (outcome.StageFailed? ==> outcome.stage == "error" && Had(run, actions, "error")) &&
              (outcome.TimedOut? ==>
                Expire in actions && outcome.read != Some("finished") && outcome.read != Some("error") &&
                (outcome.read.Some? ==> Had(run, actions, outcome.read.value)))
  {
    InvInit(run);
    InvRun(Init(run), actions);
    SeenRun(Init(run), actions);
  }

  // ---------------------------------------------------------------- under the operator's lifecycle

  /** The operator never changes a TestRun that is finished or has failed. */
  ghost predicate Lifecycle(s: State, actions: seq<Action>)
    decreases actions
  {
    actions != [] && Apply(s, actions[0]).Some? ==>
      (actions[0].Change? && (s.run == Some("finished") || s.run == Some("error")) ==> actions[0].to == s.run) &&
      Lifecycle(Apply(s, actions[0]).value, actions[1..])
  }

  ghost predicate TerminalIsFinal(s: State) {
    forall stage :: stage in s.seen && IsTerminal(stage) ==> s.run == Some(stage)
  }

  lemma FinalStep(s: State, a: Action)
    requires TerminalIsFinal(s) && Observed(s.run) <= s.seen && Apply(s, a).Some?
    requires a.Change? && s.run.Some? && IsTerminal(s.run.value) ==> a.to == s.run
    ensures TerminalIsFinal(Apply(s, a).value) && Observed(Apply(s, a).value.run) <= Apply(s, a).value.seen
  {
    hide IsTerminal;
  }

  lemma {:induction false} FinalRun(s: State, actions: seq<Action>)
    requires TerminalIsFinal(s) && Observed(s.run) <= s.seen && Lifecycle(s, actions) && Execute(s, actions).Some?
    ensures TerminalIsFinal(Execute(s, actions).value)
    decreases actions
  {
    hide Apply, TerminalIsFinal, Observed;
    if actions != [] {
      FinalStep(s, actions[0]);
      FinalRun(Apply(s, actions[0]).value, actions[1..]);
    }
  }

  /** Then the reported outcome is the stage the TestRun has, in this and every later state. */
  lemma OutcomeAgrees(run: Option<Stage>, actions: seq<Action>)
    requires Execute(Init(run), actions).Some? && Lifecycle(Init(run), actions)
    ensures var s := Execute(Init(run), actions).value;
            s.control.Done? ==>
              (s.control.outcome.Success? ==> s.run == Some("finished")) &&
              (s.control.outcome.StageFailed? ==> s.run == Some("error"))
  {
    InvInit(run);
    InvRun(Init(run), actions);
    FinalRun(Init(run), actions);
  }

  /** n consecutive receives. */
  function Receives(n: nat): seq<Action> {
    seq(n, i => Receive)
  }

  /** Receiving goes on as long as no terminal event came up, and reports the first that does. */
  lemma {:induction false} ReceiveUntilTerminal(s: State, i: nat) returns (n: nat)
    requires Blocked(s) && i < |s.watch.value.queue| && IsTerminalEvent(s.watch.value.queue[i])
    ensures 1 <= n <= i + 1
    ensures Execute(s, Receives(n)).Some?
    ensures var t, e := Execute(s, Receives(n)).value, s.watch.value.queue[n - 1];
            IsTerminalEvent(e) && t.control == Done(Report(e.stage.value)) && t.run == s.run && t.seen == s.seen
    decreases i
  {
    var queue := s.watch.value.queue;
    var t := Apply(s, Receive).value;
    if IsTerminalEvent(queue[0]) {
      n := 1;
      assert Receives(1)[1..] == [];
      assert Execute(t, []) == Some(t);
    } else {
      var m := ReceiveUntilTerminal(t, i - 1);
      n := m + 1;
      assert Receives(n)[1..] == Receives(m);
    }
  }

  /**
   A blocked waiter whose TestRun is terminal reports that stage after reading at most the events
   already queued, if it rechecked or its watch was told, unless the watch was closed.
   */
  lemma BoundedReport(run: Option<Stage>, actions: seq<Action>) returns (n: nat)
    requires Execute(Init(run), actions).Some? && Lifecycle(Init(run), actions)
    requires var s := Execute(Init(run), actions).value;
             Blocked(s) && (s.rechecked || s.told) && !s.watch.value.closed &&
             (s.run == Some("finished") || s.run == Some("error"))
    ensures var s := Execute(Init(run), actions).value;
            n <= |s.watch.value.queue| && Execute(s, Receives(n)).Some? &&
            Execute(s, Receives(n)).value.control == Done(if s.run == Some("finished") then Success else StageFailed("error"))
  {
    var s := Execute(Init(run), actions).value;
    AnnouncedIff(run, actions);
    InvInit(run);
    InvRun(Init(run), actions);
    FinalRun(Init(run), actions);
    var i :| 0 <= i < |s.watch.value.queue| && IsTerminalEvent(s.watch.value.queue[i]);
    n := ReceiveUntilTerminal(s, i);
    assert Genuine(s, s.watch.value.queue[n - 1]);
  }

  /**
   The second Get is needed: when it fails, a stage reached between the first Get and a Watch that does
   not replay the object is not announced, and only the Get at the deadline can find it.
   */
  lemma LostWithoutRecheck() returns (actions: seq<Action>)
    ensures Execute(Init(None), actions).Some?
    ensures var s := Execute(Init(None), actions).value;
            Blocked(s) && !s.rechecked && !s.told && s.run == Some("finished") && s.watch.value == Watch([], false)
  {
    actions := [Get(false), Change(Some("finished")), Open(true, false), Get(false)];
    var s1 := Apply(Init(None), actions[0]).value;
    var s2 := Apply(s1, actions[1]).value;
    var s3 := Apply(s2, actions[2]).value;
    var s4 := Apply(s3, actions[3]).value;
    assert actions[1..][1..][1..][1..] == [];
    assert Execute(s4, []) == Some(s4);
    assert Execute(s3, actions[1..][1..][1..]) == Some(s4);
    assert Execute(s2, actions[1..][1..]) == Some(s4);
    assert Execute(s1, actions[1..]) == Some(s4);
  }
}
