/**
 One object of an API server under optimistic concurrency control: every write bumps the resource version,
 and a write that names an old version is refused as a conflict.
 */
module ApiServer {
  import opened Wrappers

  datatype Object<S> = Object(spec: S, version: nat)

  function Write<S>(server: Object<S>, spec: S, version: nat): Option<Object<S>> {
    if version == server.version then Some(Object(spec, server.version + 1)) else None
  }

  /** A write by somebody else that leaves the spec alone, such as a status update of the operator. */
  function Touch<S>(server: Object<S>): Object<S> {
    server.(version := server.version + 1)
  }

  /** What a client read earlier: an older version, or the very object. */
  ghost predicate ReadEarlier<S>(base: Object<S>, server: Object<S>) {
    base.version < server.version || base == server
  }

  /** The server as its clients use it. */
  class Server<S> {
    var stored: Object<S>

    constructor (spec: S, version: nat)
      ensures stored == Object(spec, version)
    {
      stored := Object(spec, version);
    }

    method Get() returns (copy: Object<S>)
      ensures copy == stored
    {
      copy := stored;
    }

    /** Writes a copy back; false for a conflict. */
    method Update(copy: Object<S>) returns (ok: bool)
      modifies this
      ensures ok <==> copy.version == old(stored.version)
      ensures stored == if ok then Object(copy.spec, old(stored.version) + 1) else old(stored)
    {
      var written := Write(stored, copy.spec, copy.version);
      if written.Some? {
        stored := written.value;
      }
      ok := written.Some?;
    }
  }

  /** What comes of a write: its answer, an answer that is lost on the way back, or a refusal for another reason. */
  datatype Answer = Answered | Lost | Refused

  function Count(xs: seq<nat>, x: nat): nat {
    if xs == [] then 0 else Count(xs[..|xs| - 1], x) + if xs[|xs| - 1] == x then 1 else 0
  }

  lemma CountSnoc(xs: seq<nat>, y: nat, x: nat)
    ensures Count(xs + [y], x) == Count(xs, x) + if x == y then 1 else 0
  {
    assert (xs + [y])[..|xs|] == xs;
  }

  lemma {:induction false} CountZero(xs: seq<nat>, x: nat)
    ensures Count(xs, x) == 0 <==> x !in xs
  {
    if xs != [] {
      CountZero(xs[..|xs| - 1], x);
      assert xs == xs[..|xs| - 1] + [xs[|xs| - 1]];
    }
  }

  function Members(xs: seq<nat>): set<nat> {
    set y | y in xs
  }

  /** Distinct numbers below n, x not among them: at most n - 1 of them. */
  lemma {:induction false} CountBound(xs: seq<nat>, n: nat, x: nat)
    requires x < n && x !in xs
    requires forall i :: 0 <= i < |xs| ==> xs[i] < n && Count(xs, xs[i]) <= 1
    ensures |xs| < n
  {
    var used := Members(xs);
    UniqueSize(xs);
    assert x !in used;
    assert |used + {x}| == |used| + 1;
    SubsetSize(used + {x}, n);
  }

  lemma {:induction false} UniqueSize(xs: seq<nat>)
    requires forall i :: 0 <= i < |xs| ==> Count(xs, xs[i]) <= 1
    ensures |Members(xs)| == |xs|
  {
    if xs != [] {
      var front, last := xs[..|xs| - 1], xs[|xs| - 1];
      forall i | 0 <= i < |front| ensures Count(front, front[i]) <= 1 {
        assert xs[i] == front[i];
      }
      UniqueSize(front);
      CountZero(front, last);
      assert Count(xs, xs[|xs| - 1]) <= 1;
      assert Count(xs, last) == Count(front, last) + 1;
      assert last !in Members(front);
      assert xs == front + [last];
      assert Members(xs) == Members(front) + {last};
    }
  }

  lemma {:induction false} SubsetSize(s: set<nat>, n: nat)
    requires forall y :: y in s ==> y < n
    ensures |s| <= n
  {
    if n > 0 {
      SubsetSize(s - {n - 1}, n - 1);
    } else {
      assert s == {};
    }
  }
}

/**
 updateVMClusterSpec: any number of callers, each reading the VMCluster, applying its mutation and
 writing it back, retrying on conflict a bounded number of times.
 */
module VmClusterUpdate {
  import opened Wrappers
  import opened ApiServer

  /** Ready: about to start an attempt. Aborted: the caller's context was cancelled, it returns silently. */
  datatype Control<S> = Ready | Fetched(base: Object<S>) | Succeeded | GaveUp | Failed | Aborted

  datatype Client<S> = Client(control: Control<S>, conflicts: nat, cancelled: bool)

  /** One mutation per caller; RetryOnConflict makes at most `attempts` tries. */
  datatype Config<!S> = Config(mutations: seq<S -> S>, attempts: nat)

  datatype State<S> = State(server: Object<S>, clients: seq<Client<S>>, commits: seq<nat>, touches: nat)

  datatype Action =
    | Get(client: nat, ok: bool)
    | Update(client: nat, acknowledged: bool)   // a write whose answer may be lost on the way back
    | UpdateError(client: nat)                  // refused for another reason, or never arrived
    | Cancel(client: nat)
    | Notice(client: nat)                       // the caller sees its cancelled context
    | TouchStatus

  function SetControl<S>(s: State<S>, c: nat, control: Control<S>): State<S>
    requires c < |s.clients|
  {
    s.(clients := s.clients[c := s.clients[c].(control := control)])
  }

  function Apply<S>(cfg: Config<S>, s: State<S>, a: Action): Option<State<S>>
    requires |s.clients| == |cfg.mutations|
  {
    if a.TouchStatus? then Some(s.(server := Touch(s.server), touches := s.touches + 1))
    else if a.client >= |s.clients| then None
    else
      var c, client := a.client, s.clients[a.client];
      match a
      case Cancel(_) => Some(s.(clients := s.clients[c := client.(cancelled := true)]))
      case Notice(_) => if client.control.Ready? && client.cancelled then Some(SetControl(s, c, Aborted)) else None
      case Get(_, ok) =>
        if !client.control.Ready? || client.cancelled then None
        else Some(SetControl(s, c, if ok then Fetched(s.server) else Failed))
      case UpdateError(_) => if client.control.Fetched? then Some(SetControl(s, c, Failed)) else None
      case Update(_, acknowledged) =>
        if !client.control.Fetched? then None
        else
          var base := client.control.base;
          var server := Write(s.server, cfg.mutations[c](base.spec), base.version);
          if server.Some? then
            Some(SetControl(s, c, if acknowledged then Succeeded else Failed).(server := server.value, commits := s.commits + [c]))
          else
            var n := client.conflicts + 1;
            Some(s.(clients := s.clients[c := client.(conflicts := n, control := if n < cfg.attempts then Ready else GaveUp)]))
  }

  function Execute<S>(cfg: Config<S>, s: State<S>, actions: seq<Action>): Option<State<S>>
    requires |s.clients| == |cfg.mutations|
    decreases actions
  {
    if actions == [] then Some(s)
    else
      var next :- Apply(cfg, s, actions[0]);
      Execute(cfg, next, actions[1..])
  }

  function Init<S>(cfg: Config<S>, spec: S, version: nat): State<S> {
    State(Object(spec, version), seq(|cfg.mutations|, i => Client(Ready, 0, false)), [], 0)
  }

  /** The mutations of a list of callers, applied one after the other. */
  function Fold<S>(cfg: Config<S>, callers: seq<nat>, spec: S): S
    requires forall i :: 0 <= i < |callers| ==> callers[i] < |cfg.mutations|
  {
    if callers == [] then spec
    else cfg.mutations[callers[|callers| - 1]](Fold(cfg, callers[..|callers| - 1], spec))
  }

  // ---------------------------------------------------------------- invariant

  ghost predicate ClientInv<S>(cfg: Config<S>, init: Object<S>, s: State<S>, c: nat)
    requires c < |s.clients|
  {
    var client := s.clients[c];
    && client.conflicts <= |s.commits| + s.touches
    && (client.control.GaveUp? <==> client.conflicts >= cfg.attempts)
    && match client.control
       case Fetched(base) =>
         Count(s.commits, c) == 0 && ReadEarlier(base, s.server) && init.version + client.conflicts <= base.version
       case Succeeded => Count(s.commits, c) == 1
       case Failed => Count(s.commits, c) <= 1
       case _ => Count(s.commits, c) == 0
  }

  ghost predicate Inv<S>(cfg: Config<S>, init: Object<S>, s: State<S>) {
    && |s.clients| == |cfg.mutations|
    && (forall i :: 0 <= i < |s.commits| ==> s.commits[i] < |s.clients|)
    && s.server.spec == Fold(cfg, s.commits, init.spec)
    && s.server.version == init.version + |s.commits| + s.touches
    && forall c :: 0 <= c < |s.clients| ==> ClientInv(cfg, init, s, c)
  }

  lemma InvInit<S>(cfg: Config<S>, spec: S, version: nat)
    requires cfg.attempts > 0
    ensures Inv(cfg, Object(spec, version), Init(cfg, spec, version))
  {
  }

  lemma ClientStep<S>(cfg: Config<S>, init: Object<S>, s: State<S>, a: Action, c: nat)
    requires cfg.attempts > 0 && Inv(cfg, init, s) && Apply(cfg, s, a).Some? && c < |s.clients|
    ensures |Apply(cfg, s, a).value.clients| == |s.clients|
    ensures ClientInv(cfg, init, Apply(cfg, s, a).value, c)
  {
    hide Fold;
    assert ClientInv(cfg, init, s, c);
    if a.Update? && a.client < |s.clients| {
      CountSnoc(s.commits, a.client, c);
    }
  }

  lemma ServerStep<S>(cfg: Config<S>, init: Object<S>, s: State<S>, a: Action)
    requires Inv(cfg, init, s) && Apply(cfg, s, a).Some?
    ensures var t := Apply(cfg, s, a).value;
            (forall i :: 0 <= i < |t.commits| ==> t.commits[i] < |t.clients| == |cfg.mutations|) &&
            t.server.spec == Fold(cfg, t.commits, init.spec) &&
            t.server.version == init.version + |t.commits| + t.touches
  {
    if a.Update? && a.client < |s.clients| {
      assert ClientInv(cfg, init, s, a.client);
      assert (s.commits + [a.client])[..|s.commits|] == s.commits;
    }
  }

  lemma InvStep<S>(cfg: Config<S>, init: Object<S>, s: State<S>, a: Action)
    requires cfg.attempts > 0 && Inv(cfg, init, s) && Apply(cfg, s, a).Some?
    ensures |Apply(cfg, s, a).value.clients| == |s.clients| && Inv(cfg, init, Apply(cfg, s, a).value)
  {
    hide ClientInv, Fold;
    ServerStep(cfg, init, s, a);
    forall c | 0 <= c < |s.clients| ensures |Apply(cfg, s, a).value.clients| == |s.clients| && ClientInv(cfg, init, Apply(cfg, s, a).value, c) {
      ClientStep(cfg, init, s, a, c);
    }
  }

  lemma {:induction false} InvRun<S>(cfg: Config<S>, init: Object<S>, s: State<S>, actions: seq<Action>)
    requires cfg.attempts > 0 && Inv(cfg, init, s) && Execute(cfg, s, actions).Some?
    ensures Inv(cfg, init, Execute(cfg, s, actions).value)
    decreases actions
  {
    hide Apply, ClientInv, Fold;
    if actions != [] {
      InvStep(cfg, init, s, actions[0]);
      InvRun(cfg, init, Apply(cfg, s, actions[0]).value, actions[1..]);
    }
  }

  // ---------------------------------------------------------------- main results

  /**
   For any number of callers and any interleaving: the stored spec is the committed mutations folded over the
   initial spec in commit order; a caller that succeeded committed exactly once, one that gave up on
   conflicts, aborted or is still trying never did, and no caller commits twice.
   */
  lemma CommitsFold<S>(cfg: Config<S>, spec: S, version: nat, actions: seq<Action>)
    requires cfg.attempts > 0 && Execute(cfg, Init(cfg, spec, version), actions).Some?
    ensures var s := Execute(cfg, Init(cfg, spec, version), actions).value;
            (forall i :: 0 <= i < |s.commits| ==> s.commits[i] < |cfg.mutations|) &&
            s.server.spec == Fold(cfg, s.commits, spec) &&
            forall c :: 0 <= c < |s.clients| ==>
              (s.clients[c].control.Succeeded? ==> Count(s.commits, c) == 1) &&
              (s.clients[c].control.Failed? ==> Count(s.commits, c) <= 1) &&
              (!s.clients[c].control.Succeeded? && !s.clients[c].control.Failed? ==> Count(s.commits, c) == 0)
  {
    InvInit(cfg, spec, version);
    InvRun(cfg, Object(spec, version), Init(cfg, spec, version), actions);
    var s := Execute(cfg, Init(cfg, spec, version), actions).value;
    forall c | 0 <= c < |s.clients|
      ensures s.clients[c].control.Succeeded? ==> Count(s.commits, c) == 1
      ensures s.clients[c].control.Failed? ==> Count(s.commits, c) <= 1
      ensures !s.clients[c].control.Succeeded? && !s.clients[c].control.Failed? ==> Count(s.commits, c) == 0
    {
      assert ClientInv(cfg, Object(spec, version), s, c);
    }
  }

  /** A caller gives up only after at least as many foreign writes as it had attempts. */
  lemma GivingUpIsEarned<S>(cfg: Config<S>, spec: S, version: nat, actions: seq<Action>, c: nat)
    requires cfg.attempts > 0 && Execute(cfg, Init(cfg, spec, version), actions).Some? && c < |cfg.mutations|
    ensures var s := Execute(cfg, Init(cfg, spec, version), actions).value;
            c < |s.clients| &&
            (s.clients[c].control.GaveUp? ==> c !in s.commits && |s.commits| + s.touches >= cfg.attempts)
  {
    InvInit(cfg, spec, version);
    InvRun(cfg, Object(spec, version), Init(cfg, spec, version), actions);
    var s := Execute(cfg, Init(cfg, spec, version), actions).value;
    assert ClientInv(cfg, Object(spec, version), s, c);
    CountZero(s.commits, c);
  }

  /** So when nobody else writes, no more callers than attempts means that nobody gives up. */
  lemma FewCallersNeverGiveUp<S>(cfg: Config<S>, spec: S, version: nat, actions: seq<Action>, c: nat)
    requires 0 < |cfg.mutations| <= cfg.attempts && c < |cfg.mutations|
    requires Execute(cfg, Init(cfg, spec, version), actions).Some?
    ensures var s := Execute(cfg, Init(cfg, spec, version), actions).value;
            c < |s.clients| && (s.touches == 0 ==> !s.clients[c].control.GaveUp?)
  {
    GivingUpIsEarned(cfg, spec, version, actions, c);
    CommitsFold(cfg, spec, version, actions);
    InvInit(cfg, spec, version);
    InvRun(cfg, Object(spec, version), Init(cfg, spec, version), actions);
    var s := Execute(cfg, Init(cfg, spec, version), actions).value;
    if s.clients[c].control.GaveUp? {
      forall i | 0 <= i < |s.commits| ensures Count(s.commits, s.commits[i]) <= 1 {
        assert ClientInv(cfg, Object(spec, version), s, s.commits[i]);
      }
      CountBound(s.commits, |cfg.mutations|, c);
    }
  }

  // ---------------------------------------------------------------- how a caller ends

  /** The last write of a caller was answered as told. */
  ghost predicate LastWrite(actions: seq<Action>, c: nat, acknowledged: bool) {
    exists i :: 0 <= i < |actions| && actions[i] == Update(c, acknowledged) &&
                forall j :: i < j < |actions| ==> !(actions[j].Update? && actions[j].client == c)
  }

  lemma LastWriteSnoc(actions: seq<Action>, a: Action, c: nat, acknowledged: bool)
    ensures LastWrite(actions + [a], c, acknowledged) <==>
            if a.Update? && a.client == c then a.acknowledged == acknowledged else LastWrite(actions, c, acknowledged)
  {
    var all := actions + [a];
    assert all[|actions|] == a && forall j :: 0 <= j < |actions| ==> all[j] == actions[j];
  }

  /** What has become of a caller, read off the actions and the commits. */
  ghost predicate Explained<S>(cfg: Config<S>, actions: seq<Action>, s: State<S>, c: nat)
    requires c < |s.clients|
  {
    var client := s.clients[c];
    && client.conflicts <= cfg.attempts
    && (client.cancelled <==> Cancel(c) in actions)
    && (client.control.GaveUp? <==> client.conflicts == cfg.attempts)
    && (client.control.Aborted? <==> Notice(c) in actions)
    && (client.control.Aborted? ==> Cancel(c) in actions)
    && (client.control.Failed? <==>
          Get(c, false) in actions || UpdateError(c) in actions || (LastWrite(actions, c, false) && c in s.commits))
    && (client.control.Succeeded? <==> LastWrite(actions, c, true) && c in s.commits)
  }

  lemma ExplainedStep<S>(cfg: Config<S>, init: Object<S>, actions: seq<Action>, s: State<S>, a: Action, c: nat)
    requires cfg.attempts > 0 && Inv(cfg, init, s) && Apply(cfg, s, a).Some? && c < |s.clients| && Explained(cfg, actions, s, c)
    ensures |Apply(cfg, s, a).value.clients| == |s.clients| && Explained(cfg, actions + [a], Apply(cfg, s, a).value, c)
  {
    LastWriteSnoc(actions, a, c, true);
    LastWriteSnoc(actions, a, c, false);
    assert ClientInv(cfg, init, s, c);
    CountZero(s.commits, c);
    hide Fold, LastWrite, Inv, Count;
    assert forall x :: x in actions + [a] <==> x in actions || x == a;
  }

  lemma {:induction false} ExecuteLast<S>(cfg: Config<S>, s: State<S>, actions: seq<Action>)
    requires |s.clients| == |cfg.mutations| && actions != []
    ensures Execute(cfg, s, actions).Some? ==>
              var front := Execute(cfg, s, actions[..|actions| - 1]);
              front.Some? && |front.value.clients| == |cfg.mutations| &&
              Execute(cfg, s, actions) == Apply(cfg, front.value, actions[|actions| - 1])
    decreases actions
  {
    ApplyKeepsClients(cfg, s, actions[0]);
    hide Apply;
    var n := |actions| - 1;
    if n > 0 && Apply(cfg, s, actions[0]).Some? {
      ExecuteLast(cfg, Apply(cfg, s, actions[0]).value, actions[1..]);
      assert actions[..n][1..] == actions[1..][..n - 1];
    } else {
      assert actions[1..] == [] || n > 0;
    }
  }

  lemma ApplyKeepsClients<S>(cfg: Config<S>, s: State<S>, a: Action)
    requires |s.clients| == |cfg.mutations|
    ensures Apply(cfg, s, a).Some? ==> |Apply(cfg, s, a).value.clients| == |cfg.mutations|
  {
  }

  /**
   Over every interleaving: a caller has given up if and only if each of its attempts met a conflict, returned
   silently if and only if it noticed its cancelled context, failed if and only if one of its requests failed
   or its committed write was not answered, and succeeded if and only if its committed write was.
   */
  lemma {:induction false} EndingMeans<S>(cfg: Config<S>, spec: S, version: nat, actions: seq<Action>, c: nat)
    requires cfg.attempts > 0 && Execute(cfg, Init(cfg, spec, version), actions).Some? && c < |cfg.mutations|
    ensures var s := Execute(cfg, Init(cfg, spec, version), actions).value;
            |s.clients| == |cfg.mutations| && Explained(cfg, actions, s, c)
    decreases actions
  {
    var s0 := Init(cfg, spec, version);
    if actions != [] {
      hide Execute, Apply, Inv, Explained, Init;
      var n := |actions| - 1;
      assert |s0.clients| == |cfg.mutations| by { InitFits(cfg, spec, version); }
      ExecuteLast(cfg, s0, actions);
      InvInit(cfg, spec, version);
      InvRun(cfg, Object(spec, version), s0, actions[..n]);
      EndingMeans(cfg, spec, version, actions[..n], c);
      ExplainedStep(cfg, Object(spec, version), actions[..n], Execute(cfg, s0, actions[..n]).value, actions[n], c);
      assert actions[..n] + [actions[n]] == actions;
    }
  }

  lemma InitFits<S>(cfg: Config<S>, spec: S, version: nat)
    ensures |Init(cfg, spec, version).clients| == |cfg.mutations|
  {
  }

  ghost predicate OthersStay<S>(s: State<S>, t: State<S>, c: nat) {
    |t.clients| == |s.clients| && forall d :: 0 <= d < |s.clients| && d != c ==> t.clients[d] == s.clients[d]
  }

  /**
   A caller that runs on alone comes to an end: cancelled before an attempt it returns silently; a last write
   that is too late makes it give up; else it succeeds, and the spec is its mutation of what is stored. Nobody
   else is touched.
   */
  lemma Alone<S>(cfg: Config<S>, s: State<S>, c: nat) returns (actions: seq<Action>)
    requires |s.clients| == |cfg.mutations| && c < |s.clients|
    requires var control := s.clients[c].control;
             control.Ready? || (control.Fetched? && ReadEarlier(control.base, s.server))
    ensures forall i :: 0 <= i < |actions| ==> actions[i] in {Get(c, true), Update(c, true), Notice(c)}
    ensures Execute(cfg, s, actions).Some?
    ensures var t, client := Execute(cfg, s, actions).value, s.clients[c];
            var late := client.control.Fetched? && client.control.base != s.server;
            OthersStay(s, t, c) &&
            if late && client.conflicts + 1 >= cfg.attempts then t.clients[c].control.GaveUp? && t.server == s.server
            else if client.cancelled && (client.control.Ready? || late) then t.clients[c].control.Aborted? && t.server == s.server
            else
              t.clients[c].control.Succeeded? && t.commits == s.commits + [c] &&
              t.server == Object(cfg.mutations[c](s.server.spec), s.server.version + 1)
  {
    var client := s.clients[c];
    var late := client.control.Fetched? && client.control.base != s.server;
    var again := if client.cancelled then [Notice(c)] else [Get(c, true), Update(c, true)];
    actions :=
      if client.control.Ready? then again
      else if late && client.conflicts + 1 < cfg.attempts then [Update(c, true)] + again
      else [Update(c, true)];
    if client.control.Ready? {
      TryAgain(cfg, s, c);
    } else if !late {
      OneAction(cfg, s, Update(c, true));
    } else {
      TooLate(cfg, s, c);
      var next := Apply(cfg, s, Update(c, true)).value;
      if client.conflicts + 1 < cfg.attempts {
        FirstThen(cfg, s, Update(c, true), again);
        TryAgain(cfg, next, c);
        assert forall d :: 0 <= d < |s.clients| && d != c ==> next.clients[d] == s.clients[d];
      } else {
        OneAction(cfg, s, Update(c, true));
      }
    }
  }

  lemma TooLate<S>(cfg: Config<S>, s: State<S>, c: nat)
    requires |s.clients| == |cfg.mutations| && c < |s.clients| && s.clients[c].control.Fetched?
    requires s.clients[c].control.base.version != s.server.version
    ensures var t, n := Apply(cfg, s, Update(c, true)), s.clients[c].conflicts + 1;
            t.Some? && t.value.server == s.server && t.value.commits == s.commits &&
            t.value.clients == s.clients[c := Client(if n < cfg.attempts then Ready else GaveUp, n, s.clients[c].cancelled)]
  {
  }

  lemma TryAgain<S>(cfg: Config<S>, s: State<S>, c: nat)
    requires |s.clients| == |cfg.mutations| && c < |s.clients| && s.clients[c].control.Ready?
    ensures var again := if s.clients[c].cancelled then [Notice(c)] else [Get(c, true), Update(c, true)];
            var t := Execute(cfg, s, again);
            t.Some? && OthersStay(s, t.value, c) &&
            if s.clients[c].cancelled then t.value.clients[c].control.Aborted? && t.value.server == s.server
            else
              t.value.clients[c].control.Succeeded? && t.value.commits == s.commits + [c] &&
              t.value.server == Object(cfg.mutations[c](s.server.spec), s.server.version + 1)
  {
    if s.clients[c].cancelled {
      OneAction(cfg, s, Notice(c));
    } else {
      assert [Get(c, true)] + [Update(c, true)] == [Get(c, true), Update(c, true)];
      FirstThen(cfg, s, Get(c, true), [Update(c, true)]);
      OneAction(cfg, Apply(cfg, s, Get(c, true)).value, Update(c, true));
    }
  }

  lemma OneAction<S>(cfg: Config<S>, s: State<S>, a: Action)
    requires |s.clients| == |cfg.mutations|
    ensures Execute(cfg, s, [a]) == Apply(cfg, s, a)
  {
    assert [a][1..] == [];
  }

  lemma FirstThen<S>(cfg: Config<S>, s: State<S>, a: Action, rest: seq<Action>)
    requires |s.clients| == |cfg.mutations| && Apply(cfg, s, a).Some?
    requires |Apply(cfg, s, a).value.clients| == |cfg.mutations|
    ensures Execute(cfg, s, [a] + rest) == Execute(cfg, Apply(cfg, s, a).value, rest)
  {
    assert ([a] + rest)[1..] == rest;
  }
}

/**
 One call of updateVMClusterSpec as it runs. What happens around each of its attempts is given as a list of
 rounds: what others commit before it, such as during the back-off, whether the context is cancelled, whether the
 Get fails, what others commit between Get and Update, and what comes of the Update.
 */
module VmClusterCaller {
  import opened ApiServer

  datatype Round<!S> = Round(before: seq<S -> S>, cancelled: bool, getFails: bool, others: seq<S -> S>, answer: Answer)

  datatype Outcome = Updated | Conflict | Failed | Aborted

  function FoldAll<S>(mutations: seq<S -> S>, spec: S): S {
    if mutations == [] then spec
    else mutations[|mutations| - 1](FoldAll(mutations[..|mutations| - 1], spec))
  }

  /** The commits of others during one round, as far as it gets. */
  function ForeignIn<S>(r: Round<S>): seq<S -> S> {
    r.before + if r.cancelled || r.getFails then [] else r.others
  }

  /** The commits of others during a list of rounds. */
  function Foreign<S>(rounds: seq<Round<S>>): seq<S -> S> {
    if rounds == [] then [] else Foreign(rounds[..|rounds| - 1]) + ForeignIn(rounds[|rounds| - 1])
  }

  /** An attempt that ran into the commits of others, and was told so. */
  predicate Interrupted<S>(r: Round<S>) {
    !r.cancelled && !r.getFails && r.answer.Answered? && |r.others| > 0
  }

  method CommitOthers<S>(server: Server<S>, mutations: seq<S -> S>)
    modifies server
    ensures server.stored == Object(FoldAll(mutations, old(server.stored.spec)), old(server.stored.version) + |mutations|)
  {
    for i := 0 to |mutations|
      invariant server.stored == Object(FoldAll(mutations[..i], old(server.stored.spec)), old(server.stored.version) + i)
    {
      assert mutations[..i + 1][..i] == mutations[..i];
      var copy := server.Get();
      var ok := server.Update(copy.(spec := mutations[i](copy.spec)));
    }
    assert mutations[..|mutations|] == mutations;
  }

  lemma {:induction false} FoldSplit<S>(a: seq<S -> S>, b: seq<S -> S>, spec: S)
    ensures FoldAll(a + b, spec) == FoldAll(b, FoldAll(a, spec))
  {
    if |b| == 0 {
      assert a + b == a;
    } else {
      assert (a + b)[..|a + b| - 1] == a + b[..|b| - 1];
      FoldSplit(a, b[..|b| - 1], spec);
    }
  }

  lemma OneRound<S>(rounds: seq<Round<S>>, i: nat, spec: S)
    requires i < |rounds|
    ensures Foreign(rounds[..i + 1]) == Foreign(rounds[..i]) + ForeignIn(rounds[i])
    ensures FoldAll(Foreign(rounds[..i + 1]), spec)
         == FoldAll(if rounds[i].cancelled || rounds[i].getFails then [] else rounds[i].others,
              FoldAll(rounds[i].before, FoldAll(Foreign(rounds[..i]), spec)))
  {
    assert rounds[..i + 1][..i] == rounds[..i];
    FoldSplit(Foreign(rounds[..i]), ForeignIn(rounds[i]), spec);
    FoldSplit(rounds[i].before, if rounds[i].cancelled || rounds[i].getFails then [] else rounds[i].others,
      FoldAll(Foreign(rounds[..i]), spec));
  }

  lemma FoldSnoc<S>(mutations: seq<S -> S>, m: S -> S, spec: S)
    ensures FoldAll(mutations + [m], spec) == m(FoldAll(mutations, spec))
  {
    assert (mutations + [m])[..|mutations|] == mutations;
  }

  /**
   The retry loop, for everything that can happen around it: all attempts but the last one met a conflict, the
   last one decides the outcome, and the conflict is reported only when no attempt is left. The spec is
   everything that others committed meanwhile, with the caller's mutation on top once if its last attempt
   committed.
   */
  method UpdateVMClusterSpec<S>(server: Server<S>, mutate: S -> S, rounds: seq<Round<S>>)
    returns (outcome: Outcome, ghost attempts: nat)
    requires |rounds| > 0
    modifies server
    ensures 1 <= attempts <= |rounds|
    ensures forall i :: 0 <= i < attempts - 1 ==> Interrupted(rounds[i])
    ensures var r := rounds[attempts - 1];
            (outcome.Aborted? <==> r.cancelled) &&
            (outcome.Failed? <==> !r.cancelled && (r.getFails || !r.answer.Answered?)) &&
            (outcome.Updated? <==> !r.cancelled && !r.getFails && r.answer.Answered? && |r.others| == 0) &&
            (outcome.Conflict? ==> attempts == |rounds|)
    ensures var r := rounds[attempts - 1];
            server.stored.spec == FoldAll(
              Foreign(rounds[..attempts])
                + (if !r.cancelled && !r.getFails && !r.answer.Refused? && |r.others| == 0 then [mutate] else []),
              old(server.stored.spec))
  {
    hide FoldAll, Foreign;
    outcome, attempts := Conflict, 0;
    ghost var initial := server.stored.spec;
    assert server.stored.spec == FoldAll(Foreign(rounds[..0]), initial) by { NothingYet<S>(initial); }
    for attempt := 0 to |rounds|
      invariant attempts == attempt && outcome.Conflict?
      invariant forall i :: 0 <= i < attempt ==> Interrupted(rounds[i])
      invariant server.stored.spec == FoldAll(Foreign(rounds[..attempt]), initial)
    {
      attempts := attempts + 1;
      OneRound(rounds, attempt, initial);
      ghost var foreign := Foreign(rounds[..attempts]);
      assert foreign + [] == foreign;
      var r := rounds[attempt];
      CommitOthers(server, r.before);
      if r.cancelled {
        NothingFolds(server.stored.spec);
        return Aborted, attempts;
      }
      if r.getFails {
        NothingFolds(server.stored.spec);
        return Failed, attempts;
      }
      var cluster := server.Get();
      CommitOthers(server, r.others);
      if r.answer.Refused? {
        return Failed, attempts;
      }
      FoldSnoc(foreign, mutate, initial);
      if |r.others| == 0 {
        NothingFolds(cluster.spec);
        assert r.others == [];
      }
      var ok := server.Update(cluster.(spec := mutate(cluster.spec)));
      if r.answer.Lost? {
        return Failed, attempts;
      }
      if ok {
        return Updated, attempts;
      }
    }
    assert Foreign(rounds[..|rounds|]) + [] == Foreign(rounds[..|rounds|]);
  }

  lemma NothingFolds<S>(spec: S)
    ensures FoldAll([], spec) == spec
  {
  }

  lemma NothingYet<S>(spec: S)
    ensures Foreign<S>([]) == [] && FoldAll([], spec) == spec
  {
  }
}

/**
 EnsureVMAgentRemoteWriteURL: callers in several processes, each holding its process's mutex throughout,
 check the remoteWrite list and append their URL with retry on conflict.
 */
module VmAgentUpdate {
  import opened Wrappers
  import opened ApiServer

  type Url = string

  datatype Control =
    | Waiting                                    // for the mutex
    | Checking                                   // before the first Get
    | Retrying                                   // before a fresh Get
    | Fetched(base: Object<seq<Url>>)
    | Settling                                   // waiting for the agent to be operational
    | Returned
    | Errored

  datatype Client = Client(control: Control, conflicts: nat)

  datatype Config = Config(urls: seq<Url>, process: seq<nat>, attempts: nat)

  datatype State = State(server: Object<seq<Url>>, clients: seq<Client>, locked: map<nat, nat>, commits: seq<nat>, touches: nat)

  datatype Action =
    | Lock(client: nat)
    | FirstGet(client: nat, ok: bool)
    | FreshGet(client: nat, ok: bool)
    | Update(client: nat, acknowledged: bool)
    | UpdateError(client: nat)
    | Finish(client: nat, ok: bool)
    | TouchStatus

  predicate Fits(cfg: Config, s: State) {
    |s.clients| == |cfg.urls| == |cfg.process|
  }

  /** Move a caller inside the critical section. */
  function Move(s: State, c: nat, control: Control): State
    requires c < |s.clients|
  {
    s.(clients := s.clients[c := s.clients[c].(control := control)])
  }

  /** Let a caller return, which releases the mutex of its process. */
  function Leave(cfg: Config, s: State, c: nat, control: Control): State
    requires Fits(cfg, s) && c < |s.clients|
  {
    Move(s, c, control).(locked := s.locked - {cfg.process[c]})
  }

  function Apply(cfg: Config, s: State, a: Action): Option<State>
    requires Fits(cfg, s)
  {
    if a.TouchStatus? then Some(s.(server := Touch(s.server), touches := s.touches + 1))
    else if a.client >= |s.clients| then None
    else
      var c, client := a.client, s.clients[a.client];
      var url, process := cfg.urls[c], cfg.process[c];
      match a
      case Lock(_) =>
        if !client.control.Waiting? || process in s.locked then None
        else Some(Move(s, c, Checking).(locked := s.locked[process := c]))
      case FirstGet(_, ok) =>
        if !client.control.Checking? then None
        else if !ok || s.server.spec == [] then Some(Leave(cfg, s, c, Errored))
        else if url in s.server.spec then Some(Leave(cfg, s, c, Returned))
        else Some(Move(s, c, Retrying))
      case FreshGet(_, ok) =>
        if !client.control.Retrying? then None
        else if !ok then Some(Leave(cfg, s, c, Errored))
        else if url in s.server.spec then Some(Move(s, c, Settling))
        else Some(Move(s, c, Fetched(s.server)))
      case UpdateError(_) => if client.control.Fetched? then Some(Leave(cfg, s, c, Errored)) else None
      case Update(_, acknowledged) =>
        if !client.control.Fetched? then None
        else
          var base := client.control.base;
          var server := Write(s.server, base.spec + [url], base.version);
          if server.Some? then
            var written := s.(server := server.value, commits := s.commits + [c]);
            Some(if acknowledged then Move(written, c, Settling) else Leave(cfg, written, c, Errored))
          else
            var n := client.conflicts + 1;
            var counted := s.(clients := s.clients[c := client.(conflicts := n)]);
            Some(if n < cfg.attempts then Move(counted, c, Retrying) else Leave(cfg, counted, c, Errored))
      case Finish(_, ok) =>
        if client.control.Settling? then Some(Leave(cfg, s, c, if ok then Returned else Errored)) else None
  }

  function Execute(cfg: Config, s: State, actions: seq<Action>): (r: Option<State>)
    requires Fits(cfg, s)
    ensures r.Some? ==> Fits(cfg, r.value)
    decreases actions
  {
    if actions == [] then Some(s)
    else
      var next :- Apply(cfg, s, actions[0]);
      Execute(cfg, next, actions[1..])
  }

  function Init(cfg: Config, list: seq<Url>, version: nat): State {
    State(Object(list, version), seq(|cfg.urls|, i => Client(Waiting, 0)), map[], [], 0)
  }

  // ---------------------------------------------------------------- invariant

  predicate Inside(control: Control) {
    !control.Waiting? && !control.Returned? && !control.Errored?
  }

  function UrlsOf(cfg: Config, callers: seq<nat>): (urls: seq<Url>)
    requires forall i :: 0 <= i < |callers| ==> callers[i] < |cfg.urls|
    ensures |urls| == |callers|
  {
    seq(|callers|, i requires 0 <= i < |callers| => cfg.urls[callers[i]])
  }

  ghost predicate DuplicateFree(list: seq<Url>) {
    forall i, j :: 0 <= i < j < |list| ==> list[i] != list[j]
  }

  ghost predicate ClientInv(cfg: Config, s: State, c: nat)
    requires Fits(cfg, s) && c < |s.clients|
  {
    var control := s.clients[c].control;
    && (Inside(control) ==> cfg.process[c] in s.locked && s.locked[cfg.process[c]] == c)
    && (control.Settling? || control.Returned? ==> cfg.urls[c] in s.server.spec)
    && (control.Fetched? ==> ReadEarlier(control.base, s.server) && cfg.urls[c] !in control.base.spec)
  }

  ghost predicate Inv(cfg: Config, list: seq<Url>, s: State) {
    && Fits(cfg, s)
    && (forall i :: 0 <= i < |s.commits| ==> s.commits[i] < |cfg.urls|)
    && s.server.spec == list + UrlsOf(cfg, s.commits)
    && (DuplicateFree(list) ==> DuplicateFree(s.server.spec))
    && forall c :: 0 <= c < |s.clients| ==> ClientInv(cfg, s, c)
  }

  lemma InvInit(cfg: Config, list: seq<Url>, version: nat)
    requires |cfg.urls| == |cfg.process|
    ensures Inv(cfg, list, Init(cfg, list, version))
  {
    assert list + UrlsOf(cfg, []) == list;
  }

  lemma ServerStep(cfg: Config, list: seq<Url>, s: State, a: Action)
    requires Inv(cfg, list, s) && Apply(cfg, s, a).Some?
    ensures var t := Apply(cfg, s, a).value;
            Fits(cfg, t) && (forall i :: 0 <= i < |t.commits| ==> t.commits[i] < |cfg.urls|) &&
            t.server.spec == list + UrlsOf(cfg, t.commits) &&
            (DuplicateFree(list) ==> DuplicateFree(t.server.spec)) &&
            s.server.spec <= t.server.spec
  {
    if a.Update? && a.client < |s.clients| {
      assert ClientInv(cfg, s, a.client);
      assert UrlsOf(cfg, s.commits + [a.client]) == UrlsOf(cfg, s.commits) + [cfg.urls[a.client]];
    }
  }

  lemma ClientStep(cfg: Config, list: seq<Url>, s: State, a: Action, c: nat)
    requires Inv(cfg, list, s) && Apply(cfg, s, a).Some? && c < |s.clients|
    ensures Fits(cfg, Apply(cfg, s, a).value) && ClientInv(cfg, Apply(cfg, s, a).value, c)
  {
    hide UrlsOf, DuplicateFree;
    assert ClientInv(cfg, s, c);
    if !a.TouchStatus? {
      assert a.client < |s.clients| && ClientInv(cfg, s, a.client);
    }
  }

  lemma InvStep(cfg: Config, list: seq<Url>, s: State, a: Action)
    requires Inv(cfg, list, s) && Apply(cfg, s, a).Some?
    ensures Fits(cfg, Apply(cfg, s, a).value) && Inv(cfg, list, Apply(cfg, s, a).value)
  {
    hide ClientInv, UrlsOf, DuplicateFree;
    ServerStep(cfg, list, s, a);
    forall c | 0 <= c < |s.clients|
      ensures ClientInv(cfg, Apply(cfg, s, a).value, c)
    {
      ClientStep(cfg, list, s, a, c);
    }
  }

  lemma {:induction false} InvRun(cfg: Config, list: seq<Url>, s: State, actions: seq<Action>)
    requires Inv(cfg, list, s) && Execute(cfg, s, actions).Some?
    ensures Inv(cfg, list, Execute(cfg, s, actions).value)
    ensures s.server.spec <= Execute(cfg, s, actions).value.server.spec
    decreases actions
  {
    hide Apply, ClientInv, UrlsOf, DuplicateFree;
    if actions != [] {
      InvStep(cfg, list, s, actions[0]);
      ServerStep(cfg, list, s, actions[0]);
      InvRun(cfg, list, Apply(cfg, s, actions[0]).value, actions[1..]);
    }
  }

  // ---------------------------------------------------------------- main results

  /**
   Over every interleaving: the server's list is the initial list followed by the URLs of the committed
   callers in commit order, stays duplicate-free if it began so, and holds the URL of every caller that returned
   without error.
   */
  lemma RemoteWriteList(cfg: Config, list: seq<Url>, version: nat, actions: seq<Action>)
    requires |cfg.urls| == |cfg.process| && Execute(cfg, Init(cfg, list, version), actions).Some?
    ensures var s := Execute(cfg, Init(cfg, list, version), actions).value;
            (forall i :: 0 <= i < |s.commits| ==> s.commits[i] < |cfg.urls|) &&
            s.server.spec == list + UrlsOf(cfg, s.commits) &&
            (DuplicateFree(list) ==> DuplicateFree(s.server.spec)) &&
            forall c :: 0 <= c < |s.clients| && s.clients[c].control.Returned? ==> cfg.urls[c] in s.server.spec
  {
    InvInit(cfg, list, version);
    InvRun(cfg, list, Init(cfg, list, version), actions);
    var s := Execute(cfg, Init(cfg, list, version), actions).value;
    forall c | 0 <= c < |s.clients| && s.clients[c].control.Returned? ensures cfg.urls[c] in s.server.spec {
      assert ClientInv(cfg, s, c);
    }
  }

  lemma {:induction false} ExecuteSplit(cfg: Config, s: State, before: seq<Action>, after: seq<Action>)
    requires Fits(cfg, s)
    ensures Execute(cfg, s, before + after)
         == match Execute(cfg, s, before) case None => None case Some(t) => Execute(cfg, t, after)
    decreases before
  {
    hide Apply;
    if before == [] {
      assert before + after == after;
    } else {
      assert (before + after)[1..] == before[1..] + after;
      if Apply(cfg, s, before[0]).Some? {
        ApplyFits(cfg, s, before[0]);
        ExecuteSplit(cfg, Apply(cfg, s, before[0]).value, before[1..], after);
      }
    }
  }

  lemma ApplyFits(cfg: Config, s: State, a: Action)
    requires Fits(cfg, s)
    ensures Apply(cfg, s, a).Some? ==> Fits(cfg, Apply(cfg, s, a).value)
  {
  }

  /** And for good: whatever happens after a caller returned, its URL stays in the list. */
  lemma ReturnedIsPermanent(cfg: Config, list: seq<Url>, version: nat, before: seq<Action>, after: seq<Action>, c: nat)
    requires |cfg.urls| == |cfg.process| && c < |cfg.urls|
    requires Execute(cfg, Init(cfg, list, version), before + after).Some?
    ensures Execute(cfg, Init(cfg, list, version), before).Some?
    ensures Execute(cfg, Init(cfg, list, version), before).value.clients[c].control.Returned? ==>
              cfg.urls[c] in Execute(cfg, Init(cfg, list, version), before + after).value.server.spec
  {
    var s0 := Init(cfg, list, version);
    ExecuteSplit(cfg, s0, before, after);
    InvInit(cfg, list, version);
    InvRun(cfg, list, s0, before);
    var s := Execute(cfg, s0, before).value;
    InvRun(cfg, list, s, after);
    assert ClientInv(cfg, s, c);
  }

  /** The mutex admits one caller of a process at a time. */
  lemma MutualExclusion(cfg: Config, list: seq<Url>, version: nat, actions: seq<Action>, c: nat, d: nat)
    requires |cfg.urls| == |cfg.process| && c < |cfg.urls| && d < |cfg.urls|
    requires Execute(cfg, Init(cfg, list, version), actions).Some?
    ensures var s := Execute(cfg, Init(cfg, list, version), actions).value;
            cfg.process[c] == cfg.process[d] && Inside(s.clients[c].control) && Inside(s.clients[d].control) ==> c == d
  {
    InvInit(cfg, list, version);
    InvRun(cfg, list, Init(cfg, list, version), actions);
    var s := Execute(cfg, Init(cfg, list, version), actions).value;
    assert ClientInv(cfg, s, c) && ClientInv(cfg, s, d);
  }

  // ---------------------------------------------------------------- how many conflicts there can be

  /** The commits of callers outside a process. */
  function ForeignCommits(cfg: Config, commits: seq<nat>, process: nat): (n: nat)
    requires forall i :: 0 <= i < |commits| ==> commits[i] < |cfg.process|
  {
    if commits == [] then 0
    else
      ForeignCommits(cfg, commits[..|commits| - 1], process)
      + if cfg.process[commits[|commits| - 1]] != process then 1 else 0
  }

  /** The callers outside the process of a caller. */
  function Foreigners(cfg: Config, c: nat): set<nat>
    requires c < |cfg.process|
  {
    set d: nat | d < |cfg.process| && cfg.process[d] != cfg.process[c]
  }

  /**
   A caller's conflicts, and the writes since its last read, are writes from outside its process; it has committed
   only if it is done with the update.
   */
  ghost predicate BoundInv(cfg: Config, s: State, c: nat)
    requires Fits(cfg, s) && c < |s.clients| && forall i :: 0 <= i < |s.commits| ==> s.commits[i] < |cfg.process|
  {
    var client, foreign := s.clients[c], ForeignCommits(cfg, s.commits, cfg.process[c]) + s.touches;
    && client.conflicts <= foreign
    && (client.control.Fetched? ==> client.conflicts + s.server.version - client.control.base.version <= foreign)
    && Count(s.commits, c) <= 1
    && (client.control.Settling? || client.control.Returned? || client.control.Errored? || Count(s.commits, c) == 0)
  }

  ghost predicate Bounded(cfg: Config, s: State) {
    && Fits(cfg, s)
    && (forall i :: 0 <= i < |s.commits| ==> s.commits[i] < |cfg.process|)
    && forall c :: 0 <= c < |s.clients| ==> BoundInv(cfg, s, c)
  }

  lemma ForeignSnoc(cfg: Config, commits: seq<nat>, d: nat, process: nat)
    requires d < |cfg.process| && forall i :: 0 <= i < |commits| ==> commits[i] < |cfg.process|
    ensures ForeignCommits(cfg, commits + [d], process)
         == ForeignCommits(cfg, commits, process) + if cfg.process[d] != process then 1 else 0
  {
    assert (commits + [d])[..|commits|] == commits;
  }

  /** A write, its conflict included, by any caller. */
  lemma BoundUpdate(cfg: Config, list: seq<Url>, s: State, a: Action, c: nat)
    requires Inv(cfg, list, s) && Bounded(cfg, s) && Apply(cfg, s, a).Some? && c < |s.clients| && a.Update?
    ensures var t := Apply(cfg, s, a).value;
            Fits(cfg, t) && (forall i :: 0 <= i < |t.commits| ==> t.commits[i] < |cfg.process|) && BoundInv(cfg, t, c)
  {
    hide UrlsOf, DuplicateFree, Count, ForeignCommits;
    var d := a.client;
    assert BoundInv(cfg, s, c) && ClientInv(cfg, s, c) && ClientInv(cfg, s, d) && BoundInv(cfg, s, d);
    CountSnoc(s.commits, d, c);
    ForeignSnoc(cfg, s.commits, d, cfg.process[c]);
    hide Inv, Bounded;
  }

  lemma BoundStep(cfg: Config, list: seq<Url>, s: State, a: Action, c: nat)
    requires Inv(cfg, list, s) && Bounded(cfg, s) && Apply(cfg, s, a).Some? && c < |s.clients|
    ensures var t := Apply(cfg, s, a).value;
            Fits(cfg, t) && (forall i :: 0 <= i < |t.commits| ==> t.commits[i] < |cfg.process|) && BoundInv(cfg, t, c)
  {
    if a.Update? {
      BoundUpdate(cfg, list, s, a, c);
    } else {
      hide UrlsOf, DuplicateFree, Count, ForeignCommits;
      assert BoundInv(cfg, s, c);
      hide Inv, Bounded;
    }
  }

  lemma {:induction false} BoundRun(cfg: Config, list: seq<Url>, s: State, actions: seq<Action>)
    requires Inv(cfg, list, s) && Bounded(cfg, s) && Execute(cfg, s, actions).Some?
    ensures Bounded(cfg, Execute(cfg, s, actions).value)
    decreases actions
  {
    if actions != [] {
      hide Inv, Execute, Apply, BoundInv;
      InvStep(cfg, list, s, actions[0]);
      var t := Apply(cfg, s, actions[0]).value;
      AfterStep(cfg, list, s, actions[0]);
      forall c | 0 <= c < |t.clients| ensures BoundInv(cfg, t, c) {
        BoundStep(cfg, list, s, actions[0], c);
      }
      ExecuteFirst(cfg, s, actions);
      BoundRun(cfg, list, t, actions[1..]);
    }
  }

  lemma AfterStep(cfg: Config, list: seq<Url>, s: State, a: Action)
    requires Inv(cfg, list, s) && Apply(cfg, s, a).Some?
    ensures var t := Apply(cfg, s, a).value;
            Fits(cfg, t) && |t.clients| == |s.clients| && forall i :: 0 <= i < |t.commits| ==> t.commits[i] < |cfg.process|
  {
    ServerStep(cfg, list, s, a);
  }

  lemma ExecuteFirst(cfg: Config, s: State, actions: seq<Action>)
    requires Fits(cfg, s) && actions != []
    ensures Execute(cfg, s, actions).Some? ==>
              (Apply(cfg, s, actions[0]).Some? &&
               Fits(cfg, Apply(cfg, s, actions[0]).value) &&
               Execute(cfg, s, actions) == Execute(cfg, Apply(cfg, s, actions[0]).value, actions[1..]))
  {
    ApplyFits(cfg, s, actions[0]);
    hide Apply;
  }

  /** Those of them that have committed. */
  function Committed(cfg: Config, commits: seq<nat>, c: nat): set<nat>
    requires c < |cfg.process|
  {
    set d | d in commits && d in Foreigners(cfg, c)
  }

  lemma CommittedSnoc(cfg: Config, commits: seq<nat>, d: nat, c: nat)
    requires c < |cfg.process| && d !in commits
    ensures Committed(cfg, commits + [d], c)
         == if d in Foreigners(cfg, c) then Committed(cfg, commits, c) + {d} else Committed(cfg, commits, c)
    ensures d !in Committed(cfg, commits, c)
  {
    hide Foreigners;
  }

  lemma DistinctFront(commits: seq<nat>)
    requires commits != [] && forall i :: 0 <= i < |commits| ==> Count(commits, commits[i]) <= 1
    ensures var front, last := commits[..|commits| - 1], commits[|commits| - 1];
            commits == front + [last] && last !in front && forall i :: 0 <= i < |front| ==> Count(front, front[i]) <= 1
  {
    var front, last := commits[..|commits| - 1], commits[|commits| - 1];
    assert Count(commits, commits[|commits| - 1]) <= 1;
    CountZero(front, last);
    forall i | 0 <= i < |front| ensures Count(front, front[i]) <= 1 {
      assert commits[i] == front[i];
    }
  }

  /** Callers that commit at most once are as many as their commits. */
  lemma {:induction false} CommittedOnce(cfg: Config, commits: seq<nat>, c: nat)
    requires c < |cfg.process|
    requires forall i :: 0 <= i < |commits| ==> commits[i] < |cfg.process|
    requires forall i :: 0 <= i < |commits| ==> Count(commits, commits[i]) <= 1
    ensures ForeignCommits(cfg, commits, cfg.process[c]) == |Committed(cfg, commits, c)|
  {
    hide Count, Committed;
    if commits == [] {
      assert Committed(cfg, commits, c) == {} by { NobodyCommitted(cfg, c); }
    } else {
      var front, last := commits[..|commits| - 1], commits[|commits| - 1];
      DistinctFront(commits);
      CommittedOnce(cfg, front, c);
      CommittedSnoc(cfg, front, last, c);
    }
  }

  lemma NobodyCommitted(cfg: Config, c: nat)
    requires c < |cfg.process|
    ensures Committed(cfg, [], c) == {}
  {
  }

  lemma CommittedAmong(cfg: Config, commits: seq<nat>, c: nat)
    requires c < |cfg.process|
    ensures |Committed(cfg, commits, c)| <= |Foreigners(cfg, c)|
  {
    var committed, foreigners := Committed(cfg, commits, c), Foreigners(cfg, c);
    assert foreigners == committed + (foreigners - committed);
  }

  /**
   A caller has at most as many conflicts as there are callers in other processes, besides the writes that leave the
   list alone. So it never uses up its attempts while those are fewer.
   */
  lemma ConflictsBounded(cfg: Config, list: seq<Url>, version: nat, actions: seq<Action>, c: nat)
    requires |cfg.urls| == |cfg.process| && c < |cfg.process| && Execute(cfg, Init(cfg, list, version), actions).Some?
    ensures var s := Execute(cfg, Init(cfg, list, version), actions).value;
            s.clients[c].conflicts <= |Foreigners(cfg, c)| + s.touches
  {
    InvInit(cfg, list, version);
    var s0 := Init(cfg, list, version);
    var s := Execute(cfg, s0, actions).value;
    BoundRun(cfg, list, s0, actions);
    hide Execute, Inv;
    forall i | 0 <= i < |s.commits| ensures Count(s.commits, s.commits[i]) <= 1 {
      assert BoundInv(cfg, s, s.commits[i]);
    }
    CommittedOnce(cfg, s.commits, c);
    CommittedAmong(cfg, s.commits, c);
    assert BoundInv(cfg, s, c);
  }

  lemma {:induction false} NoTouches(cfg: Config, s: State, actions: seq<Action>)
    requires Fits(cfg, s) && TouchStatus !in actions && Execute(cfg, s, actions).Some?
    ensures Execute(cfg, s, actions).value.touches == s.touches
    decreases actions
  {
    if actions != [] {
      ApplyFits(cfg, s, actions[0]);
      NoTouches(cfg, Apply(cfg, s, actions[0]).value, actions[1..]);
    }
  }

  /** Within one process and with no other writer, the mutex rules out every conflict. */
  lemma OneProcessNeverConflicts(cfg: Config, list: seq<Url>, version: nat, actions: seq<Action>)
    requires |cfg.urls| == |cfg.process| && Execute(cfg, Init(cfg, list, version), actions).Some?
    requires forall c, d :: 0 <= c < d < |cfg.process| ==> cfg.process[c] == cfg.process[d]
    requires TouchStatus !in actions
    ensures var s := Execute(cfg, Init(cfg, list, version), actions).value;
            forall c :: 0 <= c < |s.clients| ==> s.clients[c].conflicts == 0
  {
    var s := Execute(cfg, Init(cfg, list, version), actions).value;
    NoTouches(cfg, Init(cfg, list, version), actions);
    hide Execute;
    forall c | 0 <= c < |s.clients| ensures s.clients[c].conflicts == 0 {
      ConflictsBounded(cfg, list, version, actions, c);
      assert Foreigners(cfg, c) == {};
    }
  }

  // ---------------------------------------------------------------- how a caller ends

  /** The last write of a caller was answered as told. */
  ghost predicate LastWrite(actions: seq<Action>, c: nat, acknowledged: bool) {
    exists i :: 0 <= i < |actions| && actions[i] == Update(c, acknowledged) &&
                forall j :: i < j < |actions| ==> !(actions[j].Update? && actions[j].client == c)
  }

  lemma LastWriteSnoc(actions: seq<Action>, a: Action, c: nat, acknowledged: bool)
    ensures LastWrite(actions + [a], c, acknowledged) <==>
            if a.Update? && a.client == c then a.acknowledged == acknowledged else LastWrite(actions, c, acknowledged)
  {
    var all := actions + [a];
    assert all[|actions|] == a && forall j :: 0 <= j < |actions| ==> all[j] == actions[j];
  }

  /** One of the caller's requests was answered with an error other than a conflict, or its wait timed out. */
  ghost predicate Refused(actions: seq<Action>, c: nat) {
    FirstGet(c, false) in actions || FreshGet(c, false) in actions || UpdateError(c) in actions || Finish(c, false) in actions
  }

  /** How a caller ended, read off the actions, the initial list and the commits. */
  ghost predicate Explained(cfg: Config, list: seq<Url>, actions: seq<Action>, s: State, c: nat)
    requires c < |s.clients|
  {
    var client := s.clients[c];
    && client.conflicts <= cfg.attempts
    && (client.control.Errored? <==>
          || client.conflicts == cfg.attempts
          || Refused(actions, c)
          || (list == [] && FirstGet(c, true) in actions)
          || (LastWrite(actions, c, false) && c in s.commits))
    && (client.control.Retrying? || client.control.Fetched? || client.control.Settling? || client.control.Returned? ==>
          FirstGet(c, true) in actions && list != [])
  }

  lemma ExplainedStep(cfg: Config, list: seq<Url>, actions: seq<Action>, s: State, a: Action, c: nat)
    requires cfg.attempts > 0 && Inv(cfg, list, s) && Bounded(cfg, s) && Apply(cfg, s, a).Some? && c < |s.clients|
    requires Explained(cfg, list, actions, s, c)
    requires list == [] ==> s.server.spec == []
    ensures Fits(cfg, Apply(cfg, s, a).value) && Explained(cfg, list, actions + [a], Apply(cfg, s, a).value, c)
  {
    LastWriteSnoc(actions, a, c, false);
    RefusedSnoc(actions, a, c);
    hide LastWrite, Refused;
    if a.TouchStatus? || a.client != c {
      ByOthers(cfg, s, a, c);
      hide Apply;
    } else {
      ListGrows(cfg, list, s);
      assert BoundInv(cfg, s, c);
      CountZero(s.commits, c);
      hide Inv, Bounded, BoundInv, Count, ForeignCommits;
      if a.Update? {
        hide ClientInv, Inside;
      } else {
        hide Write;
      }
    }
  }

  lemma RefusedSnoc(actions: seq<Action>, a: Action, c: nat)
    ensures Refused(actions + [a], c) <==>
            Refused(actions, c) || a in {FirstGet(c, false), FreshGet(c, false), UpdateError(c), Finish(c, false)}
    ensures FirstGet(c, true) in actions + [a] <==> FirstGet(c, true) in actions || a == FirstGet(c, true)
  {
  }

  lemma ByOthers(cfg: Config, s: State, a: Action, c: nat)
    requires Fits(cfg, s) && Apply(cfg, s, a).Some? && c < |s.clients| && (a.TouchStatus? || a.client != c)
    ensures var t := Apply(cfg, s, a).value;
            |t.clients| == |s.clients| && t.clients[c] == s.clients[c] && (c in t.commits <==> c in s.commits)
  {
  }

  lemma ListGrows(cfg: Config, list: seq<Url>, s: State)
    requires Inv(cfg, list, s)
    ensures list != [] ==> s.server.spec != []
  {
  }

  /** An empty list stays empty: nobody gets as far as writing to it. */
  lemma EmptyStays(cfg: Config, list: seq<Url>, actions: seq<Action>, s: State, a: Action)
    requires Fits(cfg, s) && Apply(cfg, s, a).Some? && s.server.spec == [] && list == []
    requires forall c :: 0 <= c < |s.clients| ==> Explained(cfg, list, actions, s, c)
    ensures Apply(cfg, s, a).value.server.spec == []
  {
    if a.Update? && a.client < |s.clients| {
      assert Explained(cfg, list, actions, s, a.client);
    }
  }

  lemma {:induction false} AllExplained(cfg: Config, list: seq<Url>, version: nat, actions: seq<Action>)
    requires |cfg.urls| == |cfg.process| && cfg.attempts > 0 && Execute(cfg, Init(cfg, list, version), actions).Some?
    ensures var s := Execute(cfg, Init(cfg, list, version), actions).value;
            (list == [] ==> s.server.spec == []) && forall c :: 0 <= c < |s.clients| ==> Explained(cfg, list, actions, s, c)
    decreases actions
  {
    var s0 := Init(cfg, list, version);
    InvInit(cfg, list, version);
    if actions != [] {
      var n := |actions| - 1;
      var front, a := actions[..n], actions[n];
      assert front + [a] == actions;
      ExecuteSplit(cfg, s0, front, [a]);
      InvRun(cfg, list, s0, front);
      BoundRun(cfg, list, s0, front);
      AllExplained(cfg, list, version, front);
      var s := Execute(cfg, s0, front).value;
      OneAction(cfg, s, a);
      hide Execute, Apply, Inv, Bounded, Explained, Init;
      if list == [] {
        EmptyStays(cfg, list, front, s, a);
      }
      forall c | 0 <= c < |s.clients| ensures Explained(cfg, list, actions, Execute(cfg, s0, actions).value, c) {
        ExplainedStep(cfg, list, front, s, a, c);
      }
    }
  }

  lemma OneAction(cfg: Config, s: State, a: Action)
    requires Fits(cfg, s)
    ensures Execute(cfg, s, [a]) == Apply(cfg, s, a)
  {
    ApplyFits(cfg, s, a);
    hide Apply;
    assert [a][1..] == [];
  }

  /**
   Over every interleaving: a caller ends with an error if and only if each of its attempts met a conflict, one of its
   requests failed, there was no list, or its committed write was not answered. In particular a conflict alone
   never makes it fail.
   */
  lemma ErrorMeans(cfg: Config, list: seq<Url>, version: nat, actions: seq<Action>, c: nat)
    requires |cfg.urls| == |cfg.process| && cfg.attempts > 0 && c < |cfg.process|
    requires Execute(cfg, Init(cfg, list, version), actions).Some?
    ensures var s := Execute(cfg, Init(cfg, list, version), actions).value;
            s.clients[c].conflicts <= cfg.attempts &&
            (s.clients[c].control.Errored? <==>
               || s.clients[c].conflicts == cfg.attempts
               || FirstGet(c, false) in actions || FreshGet(c, false) in actions || UpdateError(c) in actions
               || Finish(c, false) in actions
               || (list == [] && FirstGet(c, true) in actions)
               || (LastWrite(actions, c, false) && c in s.commits))
  {
    AllExplained(cfg, list, version, actions);
    hide LastWrite, Execute;
    assert Explained(cfg, list, actions, Execute(cfg, Init(cfg, list, version), actions).value, c);
  }

  // ---------------------------------------------------------------- no deadlock

  /** Whoever holds a mutex is a caller of that process, inside. */
  ghost predicate Held(cfg: Config, s: State)
    requires Fits(cfg, s)
  {
    forall p :: p in s.locked ==>
      s.locked[p] < |s.clients| && cfg.process[s.locked[p]] == p && Inside(s.clients[s.locked[p]].control)
  }

  lemma HeldStep(cfg: Config, list: seq<Url>, s: State, a: Action)
    requires Inv(cfg, list, s) && Held(cfg, s) && Apply(cfg, s, a).Some?
    ensures Fits(cfg, Apply(cfg, s, a).value) && Held(cfg, Apply(cfg, s, a).value)
  {
    if !a.TouchStatus? {
      assert a.client < |s.clients| && ClientInv(cfg, s, a.client);
      hide Inv;
      var t := Apply(cfg, s, a).value;
      forall p | p in t.locked
        ensures t.locked[p] < |t.clients| && cfg.process[t.locked[p]] == p && Inside(t.clients[t.locked[p]].control)
      {
        if p != cfg.process[a.client] {
          assert p in s.locked && s.locked[p] == t.locked[p] && s.locked[p] != a.client;
        }
      }
    }
  }

  lemma {:induction false} HeldRun(cfg: Config, list: seq<Url>, s: State, actions: seq<Action>)
    requires Inv(cfg, list, s) && Held(cfg, s) && Execute(cfg, s, actions).Some?
    ensures Held(cfg, Execute(cfg, s, actions).value)
    decreases actions
  {
    hide Apply, Held, ClientInv, UrlsOf, DuplicateFree;
    if actions != [] {
      ExecuteFirst(cfg, s, actions);
      InvStep(cfg, list, s, actions[0]);
      HeldStep(cfg, list, s, actions[0]);
      HeldRun(cfg, list, Apply(cfg, s, actions[0]).value, actions[1..]);
    }
  }

  predicate Done(control: Control) {
    control.Returned? || control.Errored?
  }

  /** A caller's own actions, all of them answered well. */
  predicate Own(a: Action, c: nat) {
    a in {Lock(c), FirstGet(c, true), FreshGet(c, true), Update(c, true), Finish(c, true)}
  }

  ghost predicate OthersStay(s: State, t: State, c: nat) {
    |t.clients| == |s.clients| && forall d :: 0 <= d < |s.clients| && d != c ==> t.clients[d] == s.clients[d]
  }

  /** How a caller that runs on alone ends, and what it does to the list. */
  ghost predicate Ends(cfg: Config, s: State, t: State, c: nat)
    requires Fits(cfg, s) && c < |s.clients|
  {
    var client, list, url := s.clients[c], s.server.spec, cfg.urls[c];
    var late := client.control.Fetched? && client.control.base != s.server && client.conflicts + 1 >= cfg.attempts;
    var none := (client.control.Waiting? || client.control.Checking?) && list == [];
    && c < |t.clients|
    && t.clients[c].control == (if late || none then Errored else Returned)
    && t.server.spec == (if late || none || url in list then list else list + [url])
    && t.commits == (if late || none || url in list then s.commits else s.commits + [c])
  }

  /** All that it leaves behind. */
  ghost predicate AloneLeaves(cfg: Config, s: State, t: State, c: nat)
    requires Fits(cfg, s) && c < |s.clients|
  {
    OthersStay(s, t, c) && t.locked == s.locked - {cfg.process[c]} && Ends(cfg, s, t, c)
  }

  lemma AloneStep(cfg: Config, list: seq<Url>, s: State, c: nat, a: Action, rest: seq<Action>)
    requires Inv(cfg, list, s) && c < |s.clients| && Own(a, c) && (a.Lock? ==> cfg.process[c] !in s.locked)
    requires Apply(cfg, s, a).Some? && Fits(cfg, Apply(cfg, s, a).value)
    requires !Done(Apply(cfg, s, a).value.clients[c].control)
    requires Execute(cfg, Apply(cfg, s, a).value, rest).Some?
    requires AloneLeaves(cfg, Apply(cfg, s, a).value, Execute(cfg, Apply(cfg, s, a).value, rest).value, c)
    ensures Execute(cfg, s, [a] + rest).Some?
    ensures AloneLeaves(cfg, s, Execute(cfg, s, [a] + rest).value, c)
  {
    assert ([a] + rest)[1..] == rest;
    var u := Apply(cfg, s, a).value;
    var t := Execute(cfg, u, rest).value;
    assert ClientInv(cfg, s, c);
    hide Inv, ClientInv, Execute;
    OwnStep(cfg, s, a, c);
    OthersTwice(s, u, t, c);
    hide OthersStay;
    if a.Update? {
      EndsAfterUpdate(cfg, s, a, t, c);
    } else {
      EndsAfter(cfg, s, a, t, c);
    }
    hide Apply;
  }

  lemma EndsAfter(cfg: Config, s: State, a: Action, t: State, c: nat)
    requires Fits(cfg, s) && c < |s.clients| && Own(a, c) && !a.Update? && ClientInv(cfg, s, c)
    requires Apply(cfg, s, a).Some? && Fits(cfg, Apply(cfg, s, a).value)
    requires !Done(Apply(cfg, s, a).value.clients[c].control) && Ends(cfg, Apply(cfg, s, a).value, t, c)
    ensures Ends(cfg, s, t, c)
  {
  }

  lemma EndsAfterUpdate(cfg: Config, s: State, a: Action, t: State, c: nat)
    requires Fits(cfg, s) && c < |s.clients| && Own(a, c) && a.Update? && ClientInv(cfg, s, c)
    requires Apply(cfg, s, a).Some? && Fits(cfg, Apply(cfg, s, a).value)
    requires !Done(Apply(cfg, s, a).value.clients[c].control) && Ends(cfg, Apply(cfg, s, a).value, t, c)
    ensures Ends(cfg, s, t, c)
  {
  }

  lemma OwnStep(cfg: Config, s: State, a: Action, c: nat)
    requires Fits(cfg, s) && c < |s.clients| && Own(a, c) && Apply(cfg, s, a).Some?
    ensures var u := Apply(cfg, s, a).value;
            OthersStay(s, u, c) && u.locked - {cfg.process[c]} == s.locked - {cfg.process[c]}
  {
  }

  lemma OthersTwice(s: State, u: State, t: State, c: nat)
    requires OthersStay(s, u, c) && OthersStay(u, t, c)
    ensures OthersStay(s, t, c)
  {
    assert forall d :: 0 <= d < |s.clients| && d != c ==> u.clients[d] == s.clients[d];
  }

  /** The caller's next action. */
  function Next(s: State, c: nat): Action
    requires c < |s.clients| && !Done(s.clients[c].control)
  {
    match s.clients[c].control
    case Waiting => Lock(c)
    case Checking => FirstGet(c, true)
    case Retrying => FreshGet(c, true)
    case Fetched(_) => Update(c, true)
    case Settling => Finish(c, true)
  }

  /** How many actions it may still take. */
  function Left(s: State, c: nat): nat
    requires c < |s.clients|
  {
    match s.clients[c].control
    case Waiting => 6
    case Checking => 5
    case Retrying => 3
    case Fetched(base) => if base == s.server then 2 else 4
    case Settling => 1
    case _ => 0
  }

  lemma NextStep(cfg: Config, list: seq<Url>, s: State, c: nat)
    requires Inv(cfg, list, s) && c < |s.clients| && !Done(s.clients[c].control)
    requires s.clients[c].control.Waiting? ==> cfg.process[c] !in s.locked
    ensures var a, t := Next(s, c), Apply(cfg, s, Next(s, c));
            Own(a, c) && t.Some? && Fits(cfg, t.value) && Left(t.value, c) < Left(s, c) &&
            (!Done(t.value.clients[c].control) ==> !t.value.clients[c].control.Waiting?) &&
            (Done(t.value.clients[c].control) ==> AloneLeaves(cfg, s, t.value, c))
  {
    assert ClientInv(cfg, s, c);
    hide Inv;
  }

  /**
   A caller that can run on alone comes to an end in at most six actions. It gives up only on a last write that is too
   late, and fails only without a list; else it returns. Its URL is in the list afterwards, appended once if it
   was not there; the mutex is free, and nobody else is touched.
   */
  lemma {:induction false} Alone(cfg: Config, list: seq<Url>, s: State, c: nat) returns (actions: seq<Action>)
    requires Inv(cfg, list, s) && c < |s.clients| && !Done(s.clients[c].control)
    requires s.clients[c].control.Waiting? ==> cfg.process[c] !in s.locked
    ensures |actions| <= 6 && forall i :: 0 <= i < |actions| ==> Own(actions[i], c)
    ensures Execute(cfg, s, actions).Some? && AloneLeaves(cfg, s, Execute(cfg, s, actions).value, c)
    ensures |actions| <= Left(s, c)
    decreases Left(s, c)
  {
    var a := Next(s, c);
    NextStep(cfg, list, s, c);
    InvStep(cfg, list, s, a);
    var t := Apply(cfg, s, a).value;
    hide Inv, Apply, AloneLeaves, Execute;
    if Done(t.clients[c].control) {
      actions := [a];
      OneAction(cfg, s, a);
    } else {
      var rest := Alone(cfg, list, t, c);
      AloneStep(cfg, list, s, c, a, rest);
      actions := [a] + rest;
    }
  }

  /**
   No deadlock: as long as a caller is not done, somebody of its process can run on to its end, either the
   caller itself or the one that holds the mutex.
   */
  lemma NeverStuck(cfg: Config, list: seq<Url>, version: nat, actions: seq<Action>, c: nat) returns (d: nat, more: seq<Action>)
    requires |cfg.urls| == |cfg.process| && c < |cfg.process| && Execute(cfg, Init(cfg, list, version), actions).Some?
    requires !Done(Execute(cfg, Init(cfg, list, version), actions).value.clients[c].control)
    ensures d < |cfg.process| && cfg.process[d] == cfg.process[c]
    ensures forall i :: 0 <= i < |more| ==> Own(more[i], d)
    ensures var s := Execute(cfg, Init(cfg, list, version), actions).value;
            !Done(s.clients[d].control) && Execute(cfg, s, more).Some? &&
            Done(Execute(cfg, s, more).value.clients[d].control) && AloneLeaves(cfg, s, Execute(cfg, s, more).value, d)
  {
    var s0 := Init(cfg, list, version);
    var s := Execute(cfg, s0, actions).value;
    InvInit(cfg, list, version);
    InvRun(cfg, list, s0, actions);
    HeldRun(cfg, list, s0, actions);
    d := if s.clients[c].control.Waiting? && cfg.process[c] in s.locked then s.locked[cfg.process[c]] else c;
    hide Execute, Inv;
    more := Alone(cfg, list, s, d);
  }

}

/**
 One call of EnsureVMAgentRemoteWriteURL as it runs, inside the mutex of its process. A round tells what
 happens around an attempt: the URLs that callers of other processes append before its Get and between Get and
 Update, and what fails.
 */
module VmAgentCaller {
  import opened ApiServer

  type Url = string

  datatype Round = Round(before: seq<Url>, getFails: bool, others: seq<Url>, answer: Answer)

  datatype Outcome = AlreadyThere | Appended | NotConfigured | Conflict | Failed

  /** The URLs that others append during a list of rounds. */
  function Foreign(rounds: seq<Round>): seq<Url> {
    if rounds == [] then []
    else
      var last := rounds[|rounds| - 1];
      Foreign(rounds[..|rounds| - 1]) + last.before + last.others
  }

  method AppendOthers(server: Server<seq<Url>>, urls: seq<Url>)
    modifies server
    ensures server.stored == Object(old(server.stored.spec) + urls, old(server.stored.version) + |urls|)
  {
    assert old(server.stored.spec) + urls[..0] == old(server.stored.spec);
    for i := 0 to |urls|
      invariant server.stored == Object(old(server.stored.spec) + urls[..i], old(server.stored.version) + i)
    {
      assert old(server.stored.spec) + urls[..i] + [urls[i]] == old(server.stored.spec) + urls[..i + 1];
      var copy := server.Get();
      var ok := server.Update(copy.(spec := copy.spec + [urls[i]]));
    }
    assert urls[..|urls|] == urls;
  }

  lemma OneRound(rounds: seq<Round>, i: nat)
    requires i < |rounds|
    ensures Foreign(rounds[..i + 1]) == Foreign(rounds[..i]) + rounds[i].before + rounds[i].others
  {
    assert rounds[..i + 1][..i] == rounds[..i];
  }

  /** An attempt whose write met a conflict and was answered: the loop goes on. */
  predicate Interrupted(r: Round) {
    !r.getFails && r.others != [] && r.answer.Answered?
  }

  /** The list as an attempt reads it: what others append before it is there, what they append after it is not. */
  function ReadAt(list: seq<Url>, rounds: seq<Round>, i: nat): seq<Url>
    requires i < |rounds|
  {
    list + Foreign(rounds[..i]) + rounds[i].before
  }

  /**
   For everything that can happen around it. Without an attempt the first read decides: it fails, or there is
   no list, or the URL is in it. Else every attempt but the last was interrupted, and the last one decides:
   its read fails; or finds the URL, so that nothing is written; or its write is refused, gets lost, is
   interrupted, or appends the URL with success. The URL is appended in the last two of these cases at most,
   only if nobody came in between, once and at the end; everything else in the list was there or came in from
   others, in order.
   */
  method EnsureVMAgentRemoteWriteURL(server: Server<seq<Url>>, url: Url, firstGetFails: bool, rounds: seq<Round>)
    returns (outcome: Outcome, ghost attempts: nat, ghost committed: bool)
    modifies server
    ensures attempts <= |rounds|
    ensures var list := old(server.stored.spec);
            attempts == 0 <==> |rounds| == 0 || firstGetFails || list == [] || url in list
    ensures attempts == 0 ==>
              var list := old(server.stored.spec);
              !committed && server.stored.spec == list &&
              outcome == if firstGetFails then Failed else if list == [] then NotConfigured
                         else if url in list then AlreadyThere else Conflict
    ensures forall i :: 0 <= i < attempts - 1 ==> Interrupted(rounds[i]) && url !in ReadAt(old(server.stored.spec), rounds, i)
    ensures attempts > 0 ==>
              var r, read := rounds[attempts - 1], ReadAt(old(server.stored.spec), rounds, attempts - 1);
              (outcome.Failed? <==> r.getFails || (url !in read && !r.answer.Answered?)) &&
              (outcome.AlreadyThere? <==> !r.getFails && url in read) &&
              (outcome.Appended? <==> !r.getFails && url !in read && r.answer.Answered? && r.others == []) &&
              (outcome.Conflict? ==> attempts == |rounds|) && !outcome.NotConfigured? &&
              (committed <==> !r.getFails && url !in read && !r.answer.Refused? && r.others == []) &&
              server.stored.spec == read + (if r.getFails || url in read then [] else r.others) + (if committed then [url] else [])
    ensures outcome.AlreadyThere? || outcome.Appended? ==> url in server.stored.spec
  {
    hide Foreign;
    outcome, attempts, committed := Conflict, 0, false;
    ghost var list := server.stored.spec;
    if firstGetFails {
      return Failed, 0, false;
    }
    var vmAgent := server.Get();
    if vmAgent.spec == [] {
      return NotConfigured, 0, false;
    }
    if url in vmAgent.spec {
      return AlreadyThere, 0, false;
    }
    assert list + Foreign(rounds[..0]) == list by { NothingYet(); }
    for attempt := 0 to |rounds|
      invariant attempts == attempt && outcome.Conflict? && !committed
      invariant server.stored.spec == list + Foreign(rounds[..attempt])
      invariant attempt > 0 ==> server.stored.spec == ReadAt(list, rounds, attempt - 1) + rounds[attempt - 1].others + []
      invariant forall i :: 0 <= i < attempt ==> Interrupted(rounds[i]) && url !in ReadAt(list, rounds, i)
    {
      var r := rounds[attempt];
      ghost var read := ReadAt(list, rounds, attempt);
      OneRound(rounds, attempt);
      assert read + r.others == list + Foreign(rounds[..attempt + 1]);
      assert read + [] == read && read + r.others + [] == read + r.others;
      attempts := attempts + 1;
      AppendOthers(server, r.before);
      if r.getFails {
        return Failed, attempts, false;
      }
      vmAgent := server.Get();
      if url in vmAgent.spec {
        return AlreadyThere, attempts, false;
      }
      AppendOthers(server, r.others);
      if r.answer.Refused? {
        return Failed, attempts, false;
      }
      var ok := server.Update(vmAgent.(spec := vmAgent.spec + [url]));
      if r.answer.Lost? {
        return Failed, attempts, ok;
      }
      if ok {
        return Appended, attempts, true;
      }
    }
  }

  lemma NothingYet()
    ensures Foreign([]) == []
  {
  }
}
