/** Merging environment variables in place under an arbitrary map order, and reading one back. */
module EnvMerge {
  datatype EnvVar = EnvVar(name: string, value: string)

  /** k6EnvValue: the first variable of that name, "" if there is none. */
  function EnvValue(vars: seq<EnvVar>, name: string): string {
    if vars == [] then ""
    else if vars[0].name == name then vars[0].value
    else EnvValue(vars[1..], name)
  }

  function Names(vars: seq<EnvVar>): set<string> {
    set v | v in vars :: v.name
  }

  /** The i-th variable is the first of its name. */
  predicate IsFirst(vars: seq<EnvVar>, i: nat)
    requires i < |vars|
  {
    forall j :: 0 <= j < i ==> vars[j].name != vars[i].name
  }

  /**
   Whatever the order in which the overrides came: base variables keep their positions and names, the first
   of each name takes the override if there is one, repetitions stay as they are, and the new names
   follow, each once, with their values.
   */
  ghost predicate IsMerge(base: seq<EnvVar>, extra: map<string, string>, result: seq<EnvVar>) {
    && |base| <= |result|
    && (forall i :: 0 <= i < |base| ==>
          result[i] == EnvVar(base[i].name,
            if base[i].name in extra && IsFirst(base, i) then extra[base[i].name] else base[i].value))
    && (forall i :: |base| <= i < |result| ==>
          result[i].name in extra && result[i].name !in Names(base) && result[i].value == extra[result[i].name])
    && (forall i, j :: |base| <= i < j < |result| ==> result[i].name != result[j].name)
    && (forall name :: name in extra && name !in Names(base) ==> exists i :: |base| <= i < |result| && result[i].name == name)
  }

  /** The slice that the callers hand over; appending may grow it. */
  class EnvSlice {
    var vars: seq<EnvVar>

    constructor (vars: seq<EnvVar>)
      ensures this.vars == vars
    {
      this.vars := vars;
    }

    method Set(i: nat, value: string)
      requires i < |vars|
      modifies this
      ensures vars == old(vars)[i := EnvVar(old(vars)[i].name, value)]
    {
      vars := vars[i := EnvVar(vars[i].name, value)];
    }

    method Append(v: EnvVar)
      modifies this
      ensures vars == old(vars) + [v]
    {
      vars := vars + [v];
    }
  }

  /** MergeEnvVars; the map is ranged over in any order. */
  method MergeEnvVars(base: EnvSlice, extra: map<string, string>)
    modifies base
    ensures IsMerge(old(base.vars), extra, base.vars)
  {
    var todo := extra.Keys;
    ghost var start := base.vars;
    ghost var done: map<string, string> := map[];
    while todo != {}
      invariant todo <= extra.Keys
      invariant done == map name | name in extra && name !in todo :: extra[name]
      invariant IsMerge(start, done, base.vars)
      decreases todo
    {
      var name :| name in todo;
      ghost var before := base.vars;
      var found := false;
      var i := 0;
      while i < |base.vars|
        invariant 0 <= i <= |base.vars|
        invariant !found && base.vars == before
        invariant forall j :: 0 <= j < i ==> before[j].name != name
      {
        if base.vars[i].name == name {
          base.Set(i, extra[name]);
          found := true;
          break;
        }
        i := i + 1;
      }
      if !found {
        base.Append(EnvVar(name, extra[name]));
        AppendStep(start, done, before, name, extra[name]);
      } else {
        OverrideStep(start, done, before, name, extra[name], i);
      }
      todo := todo - {name};
      done := done[name := extra[name]];
    }
    assert done == extra;
  }

  lemma OverrideStep(base: seq<EnvVar>, done: map<string, string>, vars: seq<EnvVar>, name: string, value: string, i: nat)
    requires IsMerge(base, done, vars) && name !in done && i < |vars| && vars[i].name == name && IsFirst(vars, i)
    ensures IsMerge(base, done[name := value], vars[i := EnvVar(name, value)])
  {
    assert i < |base|;
    assert IsFirst(base, i);
    var after, extra := vars[i := EnvVar(name, value)], done[name := value];
    forall k | 0 <= k < |base|
      ensures after[k] == EnvVar(base[k].name,
                if base[k].name in extra && IsFirst(base, k) then extra[base[k].name] else base[k].value)
    {
      if base[k].name == name && k != i {
        assert !IsFirst(base, k) by { assert vars[k].name == name; }
      }
    }
    forall n | n in extra && n !in Names(base) ensures exists j :: |base| <= j < |after| && after[j].name == n {
      assert base[i].name in Names(base);
      var j :| |base| <= j < |vars| && vars[j].name == n;
      assert after[j].name == n;
    }
  }

  lemma AppendStep(base: seq<EnvVar>, done: map<string, string>, vars: seq<EnvVar>, name: string, value: string)
    requires IsMerge(base, done, vars) && name !in done && forall i :: 0 <= i < |vars| ==> vars[i].name != name
    ensures IsMerge(base, done[name := value], vars + [EnvVar(name, value)])
  {
    var after, extra := vars + [EnvVar(name, value)], done[name := value];
    assert name !in Names(base) by {
      forall k | 0 <= k < |base| ensures base[k].name != name {
        assert vars[k].name == base[k].name;
      }
    }
    hide Names, IsFirst;
    forall n | n in extra && n !in Names(base) ensures exists j :: |base| <= j < |after| && after[j].name == n {
      if n == name {
        assert after[|vars|].name == n;
      } else {
        var j :| |base| <= j < |vars| && vars[j].name == n;
        assert after[j].name == n;
      }
    }
  }

  // ---------------------------------------------------------------- what a merge means

  lemma {:induction false} FirstValue(vars: seq<EnvVar>, i: nat)
    requires i < |vars| && IsFirst(vars, i)
    ensures EnvValue(vars, vars[i].name) == vars[i].value
  {
    if i > 0 {
      forall j | 0 <= j < i - 1 ensures vars[1..][j].name != vars[1..][i - 1].name {
        assert vars[1..][j] == vars[j + 1];
      }
      FirstValue(vars[1..], i - 1);
    }
  }

  lemma {:induction false} NoValue(vars: seq<EnvVar>, name: string)
    requires forall i :: 0 <= i < |vars| ==> vars[i].name != name
    ensures EnvValue(vars, name) == ""
  {
    if vars != [] {
      NoValue(vars[1..], name);
    }
  }

  lemma {:induction false} FirstOf(vars: seq<EnvVar>, i: nat) returns (first: nat)
    requires i < |vars|
    ensures first <= i && vars[first].name == vars[i].name && IsFirst(vars, first)
  {
    if j :| 0 <= j < i && vars[j].name == vars[i].name {
      first := FirstOf(vars, j);
    } else {
      first := i;
    }
  }

  /**
   Reading back any merge, duplicates in base included: the override where there is one, otherwise what base
   gave before.
   */
  lemma MergeReadsBack(base: seq<EnvVar>, extra: map<string, string>, result: seq<EnvVar>, name: string)
    requires IsMerge(base, extra, result)
    ensures EnvValue(result, name) == if name in extra then extra[name] else EnvValue(base, name)
  {
    if i :| 0 <= i < |base| && base[i].name == name {
      var first := FirstOf(base, i);
      assert IsFirst(result, first);
      FirstValue(result, first);
      FirstValue(base, first);
    } else {
      assert name !in Names(base);
      if name in extra {
        var i :| |base| <= i < |result| && result[i].name == name;
        assert IsFirst(result, i) by {
          forall j | 0 <= j < i ensures result[j].name != result[i].name {
            if j < |base| {
              assert result[j].name == base[j].name;
            }
          }
        }
        FirstValue(result, i);
      } else {
        NoValue(base, name);
        NoValue(result, name);
      }
    }
  }

  /** The length grows by exactly the number of new names. */
  lemma MergeLength(base: seq<EnvVar>, extra: map<string, string>, result: seq<EnvVar>)
    requires IsMerge(base, extra, result)
    ensures |result| == |base| + |extra.Keys - Names(base)|
  {
    AddedNames(base, extra, result);
    hide IsMerge, Names;
    DistinctSize(result[|base|..]);
  }

  /** What is appended are the new names, each once. */
  lemma AddedNames(base: seq<EnvVar>, extra: map<string, string>, result: seq<EnvVar>)
    requires IsMerge(base, extra, result)
    ensures |base| <= |result| && Names(result[|base|..]) == extra.Keys - Names(base)
    ensures forall i, j :: 0 <= i < j < |result[|base|..]| ==> result[|base|..][i].name != result[|base|..][j].name
  {
    var added := result[|base|..];
    forall name | name in extra.Keys - Names(base) ensures name in Names(added) {
      var i :| |base| <= i < |result| && result[i].name == name;
      assert added[i - |base|] in added;
    }
    forall name | name in Names(added) ensures name in extra.Keys - Names(base) {
      var i :| 0 <= i < |added| && added[i].name == name;
      assert added[i] == result[|base| + i];
    }
  }

  lemma {:induction false} DistinctSize(vars: seq<EnvVar>)
    requires forall i, j :: 0 <= i < j < |vars| ==> vars[i].name != vars[j].name
    ensures |Names(vars)| == |vars|
  {
    if vars != [] {
      DistinctSize(vars[1..]);
      assert vars == [vars[0]] + vars[1..];
      assert Names(vars) == {vars[0].name} + Names(vars[1..]);
      assert vars[0].name !in Names(vars[1..]);
    }
  }
}
