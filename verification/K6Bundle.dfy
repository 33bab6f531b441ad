/**
 Retargeting the k6-operator bundle to a namespace, applying it to a cluster, and uninstalling it.
 YAML documents are modelled as already parsed; what no step looks at is one opaque field.
 */
module K6Bundle {
  import opened Wrappers
  import EnvMerge

  datatype Subject = Subject(name: string, namespace: Option<string>) | OddSubject(text: string)

  datatype Container = Container(name: string, env: seq<EnvMerge.EnvVar>, rest: string) | OddContainer(text: string)

  /** spec.template.spec.containers: absent, of another type, or a list. */
  datatype Containers = Missing | Malformed | Listed(list: seq<Container>)

  datatype Doc = Doc(
    kind: string, name: string, namespace: Option<string>, subjects: Option<seq<Subject>>, containers: Containers, rest: string)

  /** A document of the bundle: only white space, not YAML, or an object. */
  datatype RawDoc = BlankDoc | BrokenDoc | ObjectDoc(doc: Doc)

  const MANAGER := "manager"
  const CLUSTER_ROLE_BINDING := "ClusterRoleBinding"

  // ---------------------------------------------------------------- retargeting, as functions

  function PerNamespaceName(base: string, namespace: string): string {
    base + "-" + namespace
  }

  function RetargetSubject(s: Subject, namespace: string): Subject {
    if s.Subject? then s.(namespace := Some(namespace)) else s
  }

  function RetargetSubjects(subjects: seq<Subject>, namespace: string): (r: seq<Subject>)
    ensures |r| == |subjects|
    ensures forall i :: 0 <= i < |r| ==> r[i] == RetargetSubject(subjects[i], namespace)
  {
    seq(|subjects|, i requires 0 <= i < |subjects| => RetargetSubject(subjects[i], namespace))
  }

  function InjectEnv(c: Container, namespace: string): Container {
    if c.Container? && c.name == MANAGER then c.(env := c.env + [EnvMerge.EnvVar("WATCH_NAMESPACE", namespace)]) else c
  }

  function InjectAll(containers: seq<Container>, namespace: string): (r: seq<Container>)
    ensures |r| == |containers|
    ensures forall i :: 0 <= i < |r| ==> r[i] == InjectEnv(containers[i], namespace)
  {
    seq(|containers|, i requires 0 <= i < |containers| => InjectEnv(containers[i], namespace))
  }

  predicate IsNamespaced(kind: string) {
    kind in ["ServiceAccount", "Role", "Service", "RoleBinding", "Deployment"]
  }

  /** What becomes of one object; None if a Deployment has no list of containers. */
  function Retarget(doc: Doc, namespace: string): Option<Doc> {
    var subjects := if doc.subjects.Some? then Some(RetargetSubjects(doc.subjects.value, namespace)) else None;
    if doc.kind == CLUSTER_ROLE_BINDING then
      Some(doc.(name := PerNamespaceName(doc.name, namespace), subjects := subjects))
    else if doc.kind in ["ServiceAccount", "Role", "Service"] then Some(doc.(namespace := Some(namespace)))
    else if doc.kind == "RoleBinding" then Some(doc.(namespace := Some(namespace), subjects := subjects))
    else if doc.kind == "Deployment" then
      if !doc.containers.Listed? then None
      else Some(doc.(namespace := Some(namespace), containers := Listed(InjectAll(doc.containers.list, namespace))))
    else Some(doc)
  }

  function RetargetAll(raws: seq<RawDoc>, namespace: string): Option<seq<Doc>> {
    if raws == [] then Some([])
    else
      var docs :- RetargetAll(raws[..|raws| - 1], namespace);
      match raws[|raws| - 1]
      case BlankDoc => Some(docs)
      case BrokenDoc => None
      case ObjectDoc(doc) =>
        var target :- Retarget(doc, namespace);
        Some(docs + [target])
  }

  // ---------------------------------------------------------------- retargeting, field by field

  /** The same accounts in the same order, moved to a namespace if one is given. */
  ghost predicate SubjectsFrom(before: Option<seq<Subject>>, after: Option<seq<Subject>>, target: Option<string>) {
    && (after.Some? <==> before.Some?)
    && (before.Some? ==>
          |after.value| == |before.value| &&
          forall i :: 0 <= i < |before.value| ==>
            var s, t := before.value[i], after.value[i];
            if s.Subject? then t == Subject(s.name, if target.Some? then target else s.namespace) else t == s)
  }

  /** The same containers in the same order; managers see one more variable if a namespace is given. */
  ghost predicate ContainersFrom(before: Containers, after: Containers, target: Option<string>) {
    && (!before.Listed? ==> after == before)
    && (before.Listed? ==>
          after.Listed? && |after.list| == |before.list| &&
          forall i :: 0 <= i < |before.list| ==>
            var c, d := before.list[i], after.list[i];
            if c.Container? && c.name == "manager" && target.Some? then
              d == Container(c.name, c.env + [EnvMerge.EnvVar("WATCH_NAMESPACE", target.value)], c.rest)
            else d == c)
  }

  /** What an object of the bundle becomes: everything stays but what the namespace is for. */
  ghost predicate TargetedFrom(before: Doc, after: Doc, namespace: string) {
    && after.kind == before.kind && after.rest == before.rest
    && after.name == (if before.kind == "ClusterRoleBinding" then before.name + "-" + namespace else before.name)
    && after.namespace == (if before.kind in ["ServiceAccount", "Role", "Service", "RoleBinding", "Deployment"]
                           then Some(namespace) else before.namespace)
    && SubjectsFrom(before.subjects, after.subjects,
         if before.kind in ["RoleBinding", "ClusterRoleBinding"] then Some(namespace) else None)
    && ContainersFrom(before.containers, after.containers, if before.kind == "Deployment" then Some(namespace) else None)
  }

  lemma RetargetFields(doc: Doc, namespace: string)
    ensures Retarget(doc, namespace).None? <==> doc.kind == "Deployment" && !doc.containers.Listed?
    ensures Retarget(doc, namespace).Some? ==> TargetedFrom(doc, Retarget(doc, namespace).value, namespace)
  {
  }

  /**
   The retargeted bundle has one document for each object of the bundle, in the same order, and each is that
   object with nothing changed but what the namespace is for.
   */
  lemma {:induction false} BundleFrame(raws: seq<RawDoc>, namespace: string) returns (picks: seq<nat>)
    requires RetargetAll(raws, namespace).Some?
    ensures forall p, q :: 0 <= p < q < |picks| ==> picks[p] < picks[q]
    ensures forall i: nat :: i in picks <==> i < |raws| && raws[i].ObjectDoc?
    ensures |picks| == |RetargetAll(raws, namespace).value|
    ensures forall p :: 0 <= p < |picks| ==>
              picks[p] < |raws| && raws[picks[p]].ObjectDoc? &&
              TargetedFrom(raws[picks[p]].doc, RetargetAll(raws, namespace).value[p], namespace)
  {
    hide Retarget, TargetedFrom;
    picks := [];
    if raws != [] {
      var n := |raws| - 1;
      assert forall i :: 0 <= i < n ==> raws[..n][i] == raws[i];
      picks := BundleFrame(raws[..n], namespace);
      assert forall p :: 0 <= p < |picks| ==> picks[p] in picks;
      if raws[n].ObjectDoc? {
        RetargetFields(raws[n].doc, namespace);
        picks := picks + [n];
      }
    }
  }

  /** It fails if and only if some document is not YAML or some Deployment has no list of containers. */
  lemma {:induction false} BundleFailsIff(raws: seq<RawDoc>, namespace: string)
    ensures RetargetAll(raws, namespace).None? <==>
            exists i :: 0 <= i < |raws| &&
              (raws[i].BrokenDoc? || (raws[i].ObjectDoc? && raws[i].doc.kind == "Deployment" && !raws[i].doc.containers.Listed?))
  {
    hide Retarget;
    if raws != [] {
      var n := |raws| - 1;
      assert forall i :: 0 <= i < n ==> raws[..n][i] == raws[i];
      BundleFailsIff(raws[..n], namespace);
      if raws[n].ObjectDoc? {
        RetargetFields(raws[n].doc, namespace);
      }
    }
  }

  // ---------------------------------------------------------------- retargeting, as it runs

  class Unstructured {
    const kind: string
    const rest: string
    var name: string
    var namespace: Option<string>
    var subjects: Option<seq<Subject>>
    var containers: Containers

    function Content(): Doc
      reads this
    {
      Doc(kind, name, namespace, subjects, containers, rest)
    }

    constructor (doc: Doc)
      ensures Content() == doc
    {
      kind, rest := doc.kind, doc.rest;
      name, namespace, subjects, containers := doc.name, doc.namespace, doc.subjects, doc.containers;
    }

    method RetargetSubjectsNamespace(target: string)
      modifies this`subjects
      ensures subjects == if old(subjects).Some? then Some(RetargetSubjects(old(subjects).value, target)) else None
      ensures SubjectsFrom(old(subjects), subjects, Some(target))
    {
      if subjects.None? {
        return;
      }
      var list := subjects.value;
      for i := 0 to |list|
        invariant |list| == |subjects.value|
        invariant forall j :: 0 <= j < i ==> list[j] == RetargetSubject(subjects.value[j], target)
        invariant forall j :: i <= j < |list| ==> list[j] == subjects.value[j]
      {
        if list[i].Subject? {
          list := list[i := list[i].(namespace := Some(target))];
        }
      }
      assert list == RetargetSubjects(subjects.value, target);
      subjects := Some(list);
    }

    /** False for the error returns. */
    method InjectWatchNamespaceEnv(target: string) returns (ok: bool)
      modifies this`containers
      ensures ok <==> old(containers).Listed?
      ensures ok ==> containers == Listed(InjectAll(old(containers).list, target))
      ensures ok ==> ContainersFrom(old(containers), containers, Some(target))
    {
      if !containers.Listed? {
        return false;
      }
      var list := containers.list;
      for i := 0 to |list|
        invariant |list| == |containers.list|
        invariant forall j :: 0 <= j < i ==> list[j] == InjectEnv(containers.list[j], target)
        invariant forall j :: i <= j < |list| ==> list[j] == containers.list[j]
      {
        if list[i].OddContainer? || list[i].name != MANAGER {
          continue;
        }
        var env := list[i].env + [EnvMerge.EnvVar("WATCH_NAMESPACE", target)];
        list := list[i := list[i].(env := env)];
      }
      assert list == InjectAll(containers.list, target);
      containers := Listed(list);
      return true;
    }
  }

  method RetargetK6Bundle(raws: seq<RawDoc>, namespace: string) returns (result: Option<seq<Doc>>)
    ensures result == RetargetAll(raws, namespace)
  {
    var docs: seq<Doc> := [];
    for i := 0 to |raws|
      invariant RetargetAll(raws[..i], namespace) == Some(docs)
    {
      assert raws[..i + 1][..i] == raws[..i];
      if raws[i].BlankDoc? {
        continue;
      }
      if raws[i].BrokenDoc? {
        RetargetFails(raws, namespace, i);
        return None;
      }
      var obj := new Unstructured(raws[i].doc);
      if obj.kind == CLUSTER_ROLE_BINDING {
        obj.name := PerNamespaceName(obj.name, namespace);
        obj.RetargetSubjectsNamespace(namespace);
      } else if obj.kind in ["ServiceAccount", "Role", "Service"] {
        obj.namespace := Some(namespace);
      } else if obj.kind == "RoleBinding" {
        obj.namespace := Some(namespace);
        obj.RetargetSubjectsNamespace(namespace);
      } else if obj.kind == "Deployment" {
        obj.namespace := Some(namespace);
        var ok := obj.InjectWatchNamespaceEnv(namespace);
        if !ok {
          RetargetFails(raws, namespace, i);
          return None;
        }
      }
      assert Retarget(raws[i].doc, namespace) == Some(obj.Content());
      docs := docs + [obj.Content()];
    }
    assert raws[..|raws|] == raws;
    result := Some(docs);
  }

  lemma {:induction false} RetargetFails(raws: seq<RawDoc>, namespace: string, i: nat)
    requires i < |raws| && RetargetAll(raws[..i + 1], namespace).None?
    ensures RetargetAll(raws, namespace).None?
    decreases |raws|
  {
    if i + 1 < |raws| {
      assert raws[..|raws| - 1][..i + 1] == raws[..i + 1];
      RetargetFails(raws[..|raws| - 1], namespace, i);
    } else {
      assert raws[..i + 1] == raws;
    }
  }

  // ---------------------------------------------------------------- the cluster

  datatype Key = Key(kind: string, name: string, namespace: Option<string>)

  type Cluster = map<Key, Doc>

  function KeyOf(doc: Doc): Key {
    Key(doc.kind, doc.name, doc.namespace)
  }

  /** kubectl apply of a list of objects, one after the other. */
  function ApplyAll(cluster: Cluster, docs: seq<Doc>): Cluster {
    if docs == [] then cluster
    else ApplyAll(cluster, docs[..|docs| - 1])[KeyOf(docs[|docs| - 1]) := docs[|docs| - 1]]
  }

  /** Objects under the same key are identical. */
  ghost predicate Compatible(docs: seq<Doc>) {
    forall i, j :: 0 <= i < |docs| && 0 <= j < |docs| && KeyOf(docs[i]) == KeyOf(docs[j]) ==> docs[i] == docs[j]
  }

  lemma {:induction false} ApplyAt(cluster: Cluster, docs: seq<Doc>, d: Doc)
    requires Compatible(docs) && d in docs
    ensures KeyOf(d) in ApplyAll(cluster, docs) && ApplyAll(cluster, docs)[KeyOf(d)] == d
  {
    hide KeyOf;
    var front, last := docs[..|docs| - 1], docs[|docs| - 1];
    assert docs == front + [last];
    if KeyOf(d) == KeyOf(last) {
      var i :| 0 <= i < |docs| && docs[i] == d;
      assert docs[i] == docs[|docs| - 1];
    } else {
      ApplyAt(cluster, front, d);
    }
  }

  lemma {:induction false} ApplyElsewhere(cluster: Cluster, docs: seq<Doc>, k: Key)
    requires forall d :: d in docs ==> KeyOf(d) != k
    ensures k in ApplyAll(cluster, docs) <==> k in cluster
    ensures k in cluster ==> ApplyAll(cluster, docs)[k] == cluster[k]
  {
    hide KeyOf;
    if docs != [] {
      ApplyElsewhere(cluster, docs[..|docs| - 1], k);
    }
  }

  /**
   Two lists of compatible objects with the same elements leave the same cluster: order and repetition do not
   matter.
   */
  lemma ApplyOrderIrrelevant(cluster: Cluster, xs: seq<Doc>, ys: seq<Doc>)
    requires Compatible(xs) && forall d :: d in xs <==> d in ys
    ensures ApplyAll(cluster, xs) == ApplyAll(cluster, ys)
  {
    hide ApplyAll, KeyOf;
    assert Compatible(ys) by { CompatibleToo(xs, ys); }
    var a, b := ApplyAll(cluster, xs), ApplyAll(cluster, ys);
    forall k: Key
      ensures k in a <==> k in b
      ensures k in a ==> a[k] == b[k]
    {
      if d :| d in xs && KeyOf(d) == k {
        ApplyAt(cluster, xs, d);
        ApplyAt(cluster, ys, d);
      } else {
        ApplyElsewhere(cluster, xs, k);
        ApplyElsewhere(cluster, ys, k);
      }
    }
  }

  lemma CompatibleToo(xs: seq<Doc>, ys: seq<Doc>)
    requires Compatible(xs) && forall d :: d in xs <==> d in ys
    ensures Compatible(ys)
  {
    hide KeyOf;
    forall i, j | 0 <= i < |ys| && 0 <= j < |ys| && KeyOf(ys[i]) == KeyOf(ys[j]) ensures ys[i] == ys[j] {
      assert ys[i] in xs && ys[j] in xs;
      var k :| 0 <= k < |xs| && xs[k] == ys[i];
      var l :| 0 <= l < |xs| && xs[l] == ys[j];
    }
  }

  // ---------------------------------------------------------------- names

  /** One base name followed by "-" begins the other. */
  predicate Extends(a: string, b: string) {
    a + "-" <= b || b + "-" <= a
  }

  lemma PrefixClash(a: string, m: string, b: string, n: string)
    requires PerNamespaceName(a, m) == PerNamespaceName(b, n) && |a| < |b|
    ensures a + "-" <= b
  {
    var whole := PerNamespaceName(a, m);
    assert whole[..|a| + 1] == a + "-";
    assert whole[..|b|] == b;
    assert (a + "-")[..] == b[..|a| + 1];
  }

  /** Two different base names can collide for some namespaces exactly when one extends the other by "-". */
  lemma NamesCollide(a: string, b: string)
    requires a != b
    ensures (exists m, n :: PerNamespaceName(a, m) == PerNamespaceName(b, n)) <==> Extends(a, b)
  {
    if m, n :| PerNamespaceName(a, m) == PerNamespaceName(b, n) {
      SameBaseLength(a, m, b, n);
      if |a| < |b| {
        PrefixClash(a, m, b, n);
      } else {
        PrefixClash(b, n, a, m);
      }
    }
    if a + "-" <= b {
      CollisionOf(a, b);
    } else if b + "-" <= a {
      CollisionOf(b, a);
    }
  }

  lemma SameBaseLength(a: string, m: string, b: string, n: string)
    requires PerNamespaceName(a, m) == PerNamespaceName(b, n)
    ensures |a| == |b| <==> a == b
    ensures a == b ==> m == n
  {
    var whole := PerNamespaceName(a, m);
    assert whole[..|a|] == a && whole[..|b|] == b;
    assert whole[|a| + 1..] == m && whole[|b| + 1..] == n;
  }

  lemma CollisionOf(a: string, b: string)
    requires a + "-" <= b
    ensures exists m, n :: PerNamespaceName(a, m) == PerNamespaceName(b, n)
    ensures exists m, n :: PerNamespaceName(b, n) == PerNamespaceName(a, m)
  {
    var x := b[|a| + 1..];
    assert b == a + "-" + x;
    assert PerNamespaceName(a, x + "-" + "ns") == PerNamespaceName(b, "ns");
  }

  // ---------------------------------------------------------------- concurrent installs

  /** What one object of the bundle is known by once the namespace is fixed. */
  function TargetKey(doc: Doc): Key {
    Key(doc.kind, doc.name, if IsNamespaced(doc.kind) then None else doc.namespace)
  }

  /**
   The bundle names every object once, and no ClusterRoleBinding base name extends another by "-".
   */
  ghost predicate Separable(raws: seq<RawDoc>) {
    forall i, j :: 0 <= i < j < |raws| && raws[i].ObjectDoc? && raws[j].ObjectDoc? ==>
      TargetKey(raws[i].doc) != TargetKey(raws[j].doc) &&
      (raws[i].doc.kind == CLUSTER_ROLE_BINDING == raws[j].doc.kind ==> !Extends(raws[i].doc.name, raws[j].doc.name))
  }

  lemma {:induction false} RetargetOrigin(raws: seq<RawDoc>, namespace: string, d: Doc) returns (i: nat)
    requires RetargetAll(raws, namespace).Some? && d in RetargetAll(raws, namespace).value
    ensures i < |raws| && raws[i].ObjectDoc? && Retarget(raws[i].doc, namespace) == Some(d)
    decreases |raws|
  {
    hide Retarget;
    var n := |raws| - 1;
    if raws[n].ObjectDoc? && Retarget(raws[n].doc, namespace) == Some(d) {
      i := n;
    } else {
      i := RetargetOrigin(raws[..n], namespace, d);
    }
  }

  /** What is written under the same key for two namespaces, or twice for one, is the same object of the bundle. */
  lemma SameKeySameDoc(a: Doc, m: string, b: Doc, n: string)
    requires Retarget(a, m).Some? && Retarget(b, n).Some?
    requires KeyOf(Retarget(a, m).value) == KeyOf(Retarget(b, n).value)
    requires a.kind == CLUSTER_ROLE_BINDING == b.kind ==> a.name == b.name || !Extends(a.name, b.name)
    ensures TargetKey(a) == TargetKey(b)
    ensures IsNamespaced(a.kind) || a.kind == CLUSTER_ROLE_BINDING ==> m == n
  {
    hide RetargetSubjects, InjectAll;
    if a.kind == CLUSTER_ROLE_BINDING {
      SameBaseLength(a.name, m, b.name, n);
      if |a.name| < |b.name| {
        PrefixClash(a.name, m, b.name, n);
      } else if |b.name| < |a.name| {
        PrefixClash(b.name, n, a.name, m);
      }
    }
  }

  /** The write sets of any two installs of a separable bundle overlap only in identical objects. */
  lemma WriteSetsOverlap(raws: seq<RawDoc>, m: string, n: string, x: Doc, y: Doc)
    requires Separable(raws) && RetargetAll(raws, m).Some? && RetargetAll(raws, n).Some?
    requires x in RetargetAll(raws, m).value && y in RetargetAll(raws, n).value && KeyOf(x) == KeyOf(y)
    ensures x == y
    ensures m != n ==> !IsNamespaced(x.kind) && x.kind != CLUSTER_ROLE_BINDING
  {
    hide RetargetAll, TargetKey, Extends, IsNamespaced;
    var i := RetargetOrigin(raws, m, x);
    var j := RetargetOrigin(raws, n, y);
    var a, b := raws[i].doc, raws[j].doc;
    RetargetKind(a, m);
    RetargetKind(b, n);
    if i < j {
      SameKeySameDoc(a, m, b, n);
      assert false;
    } else if j < i {
      assert !(a.kind == CLUSTER_ROLE_BINDING == b.kind && Extends(a.name, b.name)) by { ExtendsSymmetric(a.name, b.name); }
      SameKeySameDoc(a, m, b, n);
      assert false;
    } else {
      SameKeySameDoc(a, m, a, n);
    }
  }

  lemma ExtendsSymmetric(a: string, b: string)
    ensures Extends(a, b) == Extends(b, a)
  {
  }

  lemma RetargetKind(doc: Doc, namespace: string)
    requires Retarget(doc, namespace).Some?
    ensures Retarget(doc, namespace).value.kind == doc.kind
    ensures !IsNamespaced(doc.kind) && doc.kind != CLUSTER_ROLE_BINDING ==> Retarget(doc, namespace) == Some(doc)
  {
  }

  /** The value of a variable as a container sees it: the last one of that name. */
  function EnvLookup(env: seq<EnvMerge.EnvVar>, name: string): Option<string> {
    if env == [] then None
    else if env[|env| - 1].name == name then Some(env[|env| - 1].value)
    else EnvLookup(env[..|env| - 1], name)
  }

  /** Nothing of an install reaches outside its namespace. */
  ghost predicate ScopedTo(d: Doc, namespace: string) {
    && (d.kind in ["ServiceAccount", "Role", "Service", "RoleBinding", "Deployment"] ==> d.namespace == Some(namespace))
    && ((d.kind == "RoleBinding" || d.kind == "ClusterRoleBinding") && d.subjects.Some? ==>
          forall i :: 0 <= i < |d.subjects.value| && d.subjects.value[i].Subject? ==>
            d.subjects.value[i].namespace == Some(namespace))
    && (d.kind == "Deployment" ==>
          d.containers.Listed? && forall i :: 0 <= i < |d.containers.list| ==>
            var c := d.containers.list[i];
            c.Container? && c.name == "manager" ==> EnvLookup(c.env, "WATCH_NAMESPACE") == Some(namespace))
  }

  /**
   Each install is confined to its namespace: its objects live there, its bindings name accounts there, and
   its managers watch only that namespace, whatever the bundle said before.
   */
  lemma {:induction false} InstalledIsScoped(raws: seq<RawDoc>, namespace: string, d: Doc)
    requires RetargetAll(raws, namespace).Some? && d in RetargetAll(raws, namespace).value
    ensures ScopedTo(d, namespace)
  {
    var i := RetargetOrigin(raws, namespace, d);
    hide RetargetAll;
    var doc := raws[i].doc;
    if doc.kind == "Deployment" {
      forall j | 0 <= j < |d.containers.list|
        ensures var c := d.containers.list[j];
                c.Container? && c.name == MANAGER ==> EnvLookup(c.env, "WATCH_NAMESPACE") == Some(namespace)
      {
        assert d.containers.list[j] == InjectEnv(doc.containers.list[j], namespace);
      }
    }
  }

  /** d is an object of the bundle retargeted to one of the namespaces. */
  ghost predicate Installed(raws: seq<RawDoc>, namespaces: seq<string>, d: Doc) {
    exists i :: 0 <= i < |namespaces| && InstalledIn(raws, namespaces[i], d)
  }

  ghost predicate InstalledIn(raws: seq<RawDoc>, namespace: string, d: Doc) {
    RetargetAll(raws, namespace).Some? && d in RetargetAll(raws, namespace).value
  }

  /** The objects of installs into some namespaces, in any order, each at least once. */
  ghost predicate Interleaves(raws: seq<RawDoc>, namespaces: seq<string>, docs: seq<Doc>) {
    forall d :: d in docs <==> Installed(raws, namespaces, d)
  }

  /**
   Concurrent installs do not interfere: for any number of namespaces, every order in which their objects
   reach the API server, repetitions included, leaves the same cluster.
   */
  lemma InstallsCommute(cluster: Cluster, raws: seq<RawDoc>, namespaces: seq<string>, xs: seq<Doc>, ys: seq<Doc>)
    requires Separable(raws) && Interleaves(raws, namespaces, xs) && Interleaves(raws, namespaces, ys)
    ensures ApplyAll(cluster, xs) == ApplyAll(cluster, ys)
  {
    hide RetargetAll, KeyOf, Separable;
    forall i, j | 0 <= i < |xs| && 0 <= j < |xs| && KeyOf(xs[i]) == KeyOf(xs[j]) ensures xs[i] == xs[j] {
      assert Installed(raws, namespaces, xs[i]) && Installed(raws, namespaces, xs[j]);
      var k :| 0 <= k < |namespaces| && InstalledIn(raws, namespaces[k], xs[i]);
      var l :| 0 <= l < |namespaces| && InstalledIn(raws, namespaces[l], xs[j]);
      WriteSetsOverlap(raws, namespaces[k], namespaces[l], xs[i], xs[j]);
    }
    ApplyOrderIrrelevant(cluster, xs, ys);
  }

  /**
   Every object is named once; bindings are cluster-scoped, and different ones differ in what no step looks
   at, such as their role.
   */
  ghost predicate Regular(raws: seq<RawDoc>) {
    && (forall namespace :: RetargetAll(raws, namespace).Some?)
    && (forall i :: 0 <= i < |raws| && IsBinding(raws[i]) ==> raws[i].doc.namespace == None)
    && forall i, j :: 0 <= i < j < |raws| && raws[i].ObjectDoc? && raws[j].ObjectDoc? ==>
         TargetKey(raws[i].doc) != TargetKey(raws[j].doc) &&
         (IsBinding(raws[i]) && IsBinding(raws[j]) ==> raws[i].doc.rest != raws[j].doc.rest)
  }

  predicate IsBinding(raw: RawDoc) {
    raw.ObjectDoc? && raw.doc.kind == CLUSTER_ROLE_BINDING
  }

  /**
   All installs of a bundle commute, into whatever namespaces, in whatever order of objects and on whatever
   cluster.
   */
  ghost predicate AllCommute(raws: seq<RawDoc>) {
    forall cluster, namespaces, xs, ys :: Interleaves(raws, namespaces, xs) && Interleaves(raws, namespaces, ys) ==>
      ApplyAll(cluster, xs) == ApplyAll(cluster, ys)
  }

  /** Installing into one namespace and then into another, or the other way round. */
  ghost predicate PairsCommute(raws: seq<RawDoc>)
    requires forall namespace :: RetargetAll(raws, namespace).Some?
  {
    forall cluster, m, n ::
      ApplyAll(cluster, RetargetAll(raws, m).value + RetargetAll(raws, n).value)
      == ApplyAll(cluster, RetargetAll(raws, n).value + RetargetAll(raws, m).value)
  }

  /**
   For a regular bundle all interleavings agree exactly when no binding's base name extends another's by "-";
   otherwise already the two orders of two whole installs differ.
   */
  lemma CommuteIff(raws: seq<RawDoc>)
    requires Regular(raws)
    ensures AllCommute(raws) <==> Separable(raws)
    ensures PairsCommute(raws) <==> Separable(raws)
  {
    hide RetargetAll, ApplyAll, TargetKey, Extends, Interleaves;
    if Separable(raws) {
      hide Regular, Separable;
      forall cluster, namespaces, xs, ys | Interleaves(raws, namespaces, xs) && Interleaves(raws, namespaces, ys)
        ensures ApplyAll(cluster, xs) == ApplyAll(cluster, ys)
      {
        InstallsCommute(cluster, raws, namespaces, xs, ys);
      }
      forall m, n
        ensures Interleaves(raws, [m, n], RetargetAll(raws, m).value + RetargetAll(raws, n).value)
        ensures Interleaves(raws, [m, n], RetargetAll(raws, n).value + RetargetAll(raws, m).value)
      {
        BothInstalled(raws, m, n);
      }
    } else {
      var i, j :| 0 <= i < j < |raws| && IsBinding(raws[i]) && IsBinding(raws[j]) && Extends(raws[i].doc.name, raws[j].doc.name);
      var m, n := ClashingInstalls(raws, i, j);
      BothInstalled(raws, m, n);
    }
  }

  lemma BothInstalled(raws: seq<RawDoc>, m: string, n: string)
    requires RetargetAll(raws, m).Some? && RetargetAll(raws, n).Some?
    ensures Interleaves(raws, [m, n], RetargetAll(raws, m).value + RetargetAll(raws, n).value)
    ensures Interleaves(raws, [m, n], RetargetAll(raws, n).value + RetargetAll(raws, m).value)
  {
    hide RetargetAll;
    var a, b := RetargetAll(raws, m).value, RetargetAll(raws, n).value;
    forall d ensures d in a + b <==> Installed(raws, [m, n], d) ensures d in b + a <==> Installed(raws, [m, n], d) {
      assert d in a <==> InstalledIn(raws, m, d);
      assert d in b <==> InstalledIn(raws, n, d);
      assert [m, n][0] == m && [m, n][1] == n;
    }
  }

  lemma {:induction false} RetargetHas(raws: seq<RawDoc>, namespace: string, i: nat)
    requires i < |raws| && raws[i].ObjectDoc? && RetargetAll(raws, namespace).Some?
    ensures Retarget(raws[i].doc, namespace).Some?
    ensures Retarget(raws[i].doc, namespace).value in RetargetAll(raws, namespace).value
    decreases |raws|
  {
    hide Retarget;
    if i < |raws| - 1 {
      RetargetHas(raws[..|raws| - 1], namespace, i);
    }
  }

  /** Two namespaces in which the bindings meet: the install that comes last leaves its own. */
  lemma ClashingInstalls(raws: seq<RawDoc>, i: nat, j: nat) returns (m: string, n: string)
    requires Regular(raws) && i < j < |raws| && IsBinding(raws[i]) && IsBinding(raws[j])
    requires Extends(raws[i].doc.name, raws[j].doc.name)
    ensures ApplyAll(map[], RetargetAll(raws, m).value + RetargetAll(raws, n).value)
         != ApplyAll(map[], RetargetAll(raws, n).value + RetargetAll(raws, m).value)
  {
    hide RetargetAll, TargetKey, RetargetSubjects;
    var a, b := raws[i].doc, raws[j].doc;
    ExtendedDiffer(a.name, b.name);
    NamesCollide(a.name, b.name);
    m, n :| PerNamespaceName(a.name, m) == PerNamespaceName(b.name, n);
    RetargetHas(raws, m, i);
    RetargetHas(raws, n, j);
    var dx, dy := Retarget(a, m).value, Retarget(b, n).value;
    assert KeyOf(dx) == KeyOf(dy) && dx.rest != dy.rest;
    var first, second := RetargetAll(raws, m).value, RetargetAll(raws, n).value;
    OncePerInstall(raws, m);
    OncePerInstall(raws, n);
    hide Regular, Extends, Retarget, KeyOf, Compatible;
    ApplySplit(map[], first, second);
    ApplySplit(map[], second, first);
    ApplyAt(ApplyAll(map[], first), second, dy);
    ApplyAt(ApplyAll(map[], second), first, dx);
  }

  lemma ExtendedDiffer(a: string, b: string)
    requires Extends(a, b)
    ensures a != b
  {
  }

  lemma {:induction false} ApplySplit(cluster: Cluster, xs: seq<Doc>, ys: seq<Doc>)
    ensures ApplyAll(cluster, xs + ys) == ApplyAll(ApplyAll(cluster, xs), ys)
  {
    if ys == [] {
      assert xs + ys == xs;
    } else {
      assert (xs + ys)[..|xs + ys| - 1] == xs + ys[..|ys| - 1];
      ApplySplit(cluster, xs, ys[..|ys| - 1]);
    }
  }

  /** One install writes one object per key. */
  lemma OncePerInstall(raws: seq<RawDoc>, namespace: string)
    requires Regular(raws)
    ensures Compatible(RetargetAll(raws, namespace).value)
  {
    hide RetargetAll, Retarget, TargetKey, KeyOf;
    var docs := RetargetAll(raws, namespace).value;
    forall x, y | x in docs && y in docs && KeyOf(x) == KeyOf(y) ensures x == y {
      var i := RetargetOrigin(raws, namespace, x);
      var j := RetargetOrigin(raws, namespace, y);
      SameInstallKey(raws[i].doc, raws[j].doc, namespace);
    }
  }

  lemma SameInstallKey(a: Doc, b: Doc, namespace: string)
    requires Retarget(a, namespace).Some? && Retarget(b, namespace).Some?
    requires KeyOf(Retarget(a, namespace).value) == KeyOf(Retarget(b, namespace).value)
    ensures TargetKey(a) == TargetKey(b)
  {
    if a.kind == CLUSTER_ROLE_BINDING {
      SameSuffix(a.name, b.name, namespace);
    }
  }

  lemma SameSuffix(a: string, b: string, namespace: string)
    ensures PerNamespaceName(a, namespace) == PerNamespaceName(b, namespace) ==> a == b
  {
    if PerNamespaceName(a, namespace) == PerNamespaceName(b, namespace) {
      SameBaseLength(a, namespace, b, namespace);
    }
  }

  // ---------------------------------------------------------------- uninstall

  const BASE_NAMES := ["k6-operator-manager-rolebinding", "k6-operator-metrics-auth-rolebinding"]

  /** UninstallK6 deletes the two bindings; deleting the namespace deletes everything in it. */
  predicate Deleted(k: Key, namespace: string) {
    || (k.kind == CLUSTER_ROLE_BINDING &&
        (k.name == PerNamespaceName(BASE_NAMES[0], namespace) || k.name == PerNamespaceName(BASE_NAMES[1], namespace)))
    || k.namespace == Some(namespace)
  }

  function Uninstall(cluster: Cluster, namespace: string): Cluster {
    map k | k in cluster && !Deleted(k, namespace) :: cluster[k]
  }

  /** Base names that uninstall knows; everything that is not retargeted is cluster-scoped. */
  ghost predicate Uninstallable(raws: seq<RawDoc>) {
    forall i :: 0 <= i < |raws| && raws[i].ObjectDoc? ==>
      (raws[i].doc.kind == "ClusterRoleBinding" ==>
        raws[i].doc.name in ["k6-operator-manager-rolebinding", "k6-operator-metrics-auth-rolebinding"]) &&
      (!IsNamespaced(raws[i].doc.kind) ==> raws[i].doc.namespace == None)
  }

  lemma BaseNamesApart(a: string, m: string, b: string, n: string)
    requires a in BASE_NAMES && b in BASE_NAMES && PerNamespaceName(a, m) == PerNamespaceName(b, n)
    ensures m == n
  {
    SameBaseLength(a, m, b, n);
    assert BASE_NAMES[0][12] == 'm' && BASE_NAMES[0][13] == 'a' && BASE_NAMES[1][13] == 'e';
    assert PerNamespaceName(a, m)[13] == a[13] && PerNamespaceName(b, n)[13] == b[13];
  }

  /** An object of an install is deleted by the uninstall of its own namespace, unless shared, and by no other. */
  lemma DeletedIffOwn(doc: Doc, m: string, n: string)
    requires Retarget(doc, m).Some?
    requires doc.kind == CLUSTER_ROLE_BINDING ==> doc.name in BASE_NAMES
    requires !IsNamespaced(doc.kind) ==> doc.namespace == None
    ensures Deleted(KeyOf(Retarget(doc, m).value), n)
       <==> m == n && (IsNamespaced(doc.kind) || doc.kind == CLUSTER_ROLE_BINDING)
  {
    if doc.kind == CLUSTER_ROLE_BINDING {
      var name := PerNamespaceName(doc.name, m);
      if name == PerNamespaceName(BASE_NAMES[0], n) {
        BaseNamesApart(doc.name, m, BASE_NAMES[0], n);
      }
      if name == PerNamespaceName(BASE_NAMES[1], n) {
        BaseNamesApart(doc.name, m, BASE_NAMES[1], n);
      }
    }
  }

  /** Uninstalling one namespace leaves every object of another install as it is. */
  lemma UninstallLeavesOthers(cluster: Cluster, raws: seq<RawDoc>, m: string, n: string, d: Doc)
    requires Uninstallable(raws) && m != n && InstalledIn(raws, m, d)
    requires KeyOf(d) in cluster && cluster[KeyOf(d)] == d
    ensures KeyOf(d) in Uninstall(cluster, n) && Uninstall(cluster, n)[KeyOf(d)] == d
  {
    hide RetargetAll, Deleted;
    var i := RetargetOrigin(raws, m, d);
    DeletedIffOwn(raws[i].doc, m, n);
  }

  /** The objects of an install that every install shares. */
  function Shared(docs: seq<Doc>): seq<Doc> {
    if docs == [] then []
    else
      var front, last := Shared(docs[..|docs| - 1]), docs[|docs| - 1];
      if IsNamespaced(last.kind) || last.kind == CLUSTER_ROLE_BINDING then front else front + [last]
  }

  /**
   Uninstall undoes install: on a cluster that held nothing the uninstall would delete, only the shared,
   cluster-scoped objects remain of it.
   */
  lemma UninstallUndoesInstall(cluster: Cluster, raws: seq<RawDoc>, namespace: string)
    requires Uninstallable(raws) && RetargetAll(raws, namespace).Some?
    requires forall k :: k in cluster ==> !Deleted(k, namespace)
    ensures Uninstall(ApplyAll(cluster, RetargetAll(raws, namespace).value), namespace)
         == ApplyAll(cluster, Shared(RetargetAll(raws, namespace).value))
  {
    hide RetargetAll, Deleted, Retarget;
    var docs := RetargetAll(raws, namespace).value;
    forall d | d in docs
      ensures Deleted(KeyOf(d), namespace) <==> IsNamespaced(d.kind) || d.kind == CLUSTER_ROLE_BINDING
    {
      var i := RetargetOrigin(raws, namespace, d);
      DeletedIffOwn(raws[i].doc, namespace, namespace);
      RetargetKind(raws[i].doc, namespace);
    }
    UninstallApplied(cluster, docs, namespace);
  }

  lemma {:induction false} UninstallApplied(cluster: Cluster, docs: seq<Doc>, namespace: string)
    requires forall k :: k in cluster ==> !Deleted(k, namespace)
    requires forall d :: d in docs ==>
               (Deleted(KeyOf(d), namespace) <==> IsNamespaced(d.kind) || d.kind == CLUSTER_ROLE_BINDING)
    ensures Uninstall(ApplyAll(cluster, docs), namespace) == ApplyAll(cluster, Shared(docs))
  {
    hide Deleted, IsNamespaced;
    if docs == [] {
      assert Uninstall(cluster, namespace) == cluster;
    } else {
      var front, last := docs[..|docs| - 1], docs[|docs| - 1];
      assert docs == front + [last];
      UninstallApplied(cluster, front, namespace);
      var before := ApplyAll(cluster, front);
      var after := before[KeyOf(last) := last];
      if Deleted(KeyOf(last), namespace) {
        assert Uninstall(after, namespace) == Uninstall(before, namespace);
      } else {
        assert Uninstall(after, namespace) == Uninstall(before, namespace)[KeyOf(last) := last];
      }
    }
  }
}
