/**
 Merging the result directories of several suites into one flat directory. Files are parsed
 documents or opaque text; the hash of the ids is any injective function.
 */
module MergeSuites {
  import opened Wrappers

  datatype Label = Label(name: string, value: string)

  /** A result document; an id that is missing or empty is "". */
  datatype Result = Result(historyId: string, testCaseId: string, labels: seq<Label>, rest: string)

  datatype Content = ResultContent(result: Result) | OtherContent(text: string)

  datatype File = File(name: string, content: Content)

  /**
   What a suite contributes: the name of its directory, and the files of its source directory as they are
   listed.
   */
  datatype Suite = Suite(dir: string, files: seq<File>)

  /** The directory of a suite on disk, with everything in it as it is listed. */
  datatype Folder = Folder(name: string, items: seq<Item>)

  datatype Item = FileItem(file: File) | FolderItem(name: string, items: seq<Item>)

  type Hash = string -> string

  type Files = map<string, Content>

  const SUFFIX := "-result.json"
  const PARENT_SUITE := "parentSuite"

  predicate EndsWith(s: string, suffix: string) {
    |suffix| <= |s| && s[|s| - |suffix|..] == suffix
  }

  predicate IsResult(f: File) {
    f.content.ResultContent? && EndsWith(f.name, SUFFIX)
  }

  /** Result documents and result file names go together. */
  predicate IsListing(files: seq<File>) {
    && (forall i, j :: 0 <= i < j < |files| ==> files[i].name != files[j].name)
    && (forall i :: 0 <= i < |files| ==> files[i].name != "" && (files[i].content.ResultContent? <==> EndsWith(files[i].name, SUFFIX)))
  }

  // ---------------------------------------------------------------- one file

  function SuiteTitle(dir: string): string {
    "end-to-end tests - " + dir
  }

  function Scoped(hash: Hash, title: string, id: string): string {
    if id == "" then "" else hash(title + ":" + id)
  }

  function WithoutParent(labels: seq<Label>): seq<Label> {
    if labels == [] then []
    else
      var front, last := WithoutParent(labels[..|labels| - 1]), labels[|labels| - 1];
      if last.name != PARENT_SUITE then front + [last] else front
  }

  function Inject(hash: Hash, title: string, r: Result): Result {
    Result(Scoped(hash, title, r.historyId), Scoped(hash, title, r.testCaseId),
      WithoutParent(r.labels) + [Label(PARENT_SUITE, title)], r.rest)
  }

  function DestinationName(hash: Hash, title: string, f: File): string
    requires f.content.ResultContent?
  {
    var id := f.content.result.historyId;
    if id != "" then Scoped(hash, title, id) + SUFFIX else f.name
  }

  /** What the merge writes for one directory entry, if anything. */
  function WriteOf(hash: Hash, dir: string, f: File): seq<File> {
    if f.name == "history" then []
    else if IsResult(f) then
      [File(DestinationName(hash, SuiteTitle(dir), f), ResultContent(Inject(hash, SuiteTitle(dir), f.content.result)))]
    else [f]
  }

  function SuiteWrites(hash: Hash, dir: string, files: seq<File>): seq<File> {
    if files == [] then []
    else SuiteWrites(hash, dir, files[..|files| - 1]) + WriteOf(hash, dir, files[|files| - 1])
  }

  function AllWrites(hash: Hash, suites: seq<Suite>): seq<File> {
    if suites == [] then [] else AllWrites(hash, suites[..|suites| - 1]) + SuiteWrites(hash, suites[|suites| - 1].dir, suites[|suites| - 1].files)
  }

  function PutAll(files: Files, writes: seq<File>): Files {
    if writes == [] then files
    else PutAll(files, writes[..|writes| - 1])[writes[|writes| - 1].name := writes[|writes| - 1].content]
  }

  function ResultsAmong(files: seq<File>): seq<File> {
    if files == [] then []
    else
      var front, last := ResultsAmong(files[..|files| - 1]), files[|files| - 1];
      if IsResult(last) then front + [last] else front
  }

  function ResultCount(suites: seq<Suite>): nat {
    if suites == [] then 0
    else ResultCount(suites[..|suites| - 1]) + |ResultsAmong(suites[|suites| - 1].files)|
  }

  // ---------------------------------------------------------------- directories

  function SubFolder(items: seq<Item>, name: string): Option<seq<Item>> {
    if items == [] then None
    else if items[0].FolderItem? && items[0].name == name then Some(items[0].items)
    else SubFolder(items[1..], name)
  }

  /**
   Where the results of a suite are: in a directory of its own name inside it, and there in allure-results, as
   far as these exist.
   */
  function Source(suite: Folder): seq<Item> {
    var outer := SubFolder(suite.items, suite.name);
    var items := if outer.Some? then outer.value else suite.items;
    var inner := SubFolder(items, "allure-results");
    if inner.Some? then inner.value else items
  }

  function FilesIn(items: seq<Item>): seq<File> {
    if items == [] then []
    else
      var last := items[|items| - 1];
      FilesIn(items[..|items| - 1]) + if last.FileItem? then [last.file] else []
  }

  function SuiteOf(folder: Folder): Suite {
    Suite(folder.name, FilesIn(Source(folder)))
  }

  function SuitesOf(folders: seq<Folder>): (suites: seq<Suite>)
    ensures |suites| == |folders|
    ensures forall k :: 0 <= k < |folders| ==> suites[k] == SuiteOf(folders[k])
  {
    seq(|folders|, k requires 0 <= k < |folders| => SuiteOf(folders[k]))
  }

  /** Files in subdirectories, by path. */
  type Tree = map<seq<string>, Content>

  /** copytree into what is already there. */
  function CopyAll(tree: Tree, items: seq<Item>, path: seq<string>): Tree
    decreases items
  {
    if items == [] then tree
    else
      var first := items[0];
      var copied := if first.FileItem? then tree[path + [first.file.name] := first.file.content]
                    else CopyAll(tree, first.items, path + [first.name]);
      CopyAll(copied, items[1..], path)
  }

  /** The subdirectories of a source directory, except the history. */
  function CopyFolders(tree: Tree, items: seq<Item>): Tree
    decreases items
  {
    if items == [] then tree
    else
      var first := items[0];
      var copied := if first.FolderItem? && first.name != "history"
                    then CopyAll(tree, first.items, [first.name]) else tree;
      CopyFolders(copied, items[1..])
  }

  function CopySuites(tree: Tree, folders: seq<Folder>): Tree {
    if folders == [] then tree
    else CopyFolders(CopySuites(tree, folders[..|folders| - 1]), Source(folders[|folders| - 1]))
  }

  // ---------------------------------------------------------------- the merge, as it runs

  class Directory {
    var files: Files
    var folders: Tree

    constructor ()
      ensures files == map[] && folders == map[]
    {
      files, folders := map[], map[];
    }

    /** Writing a file replaces what was there under its name. */
    method Write(name: string, content: Content)
      modifies this`files
      ensures files == old(files)[name := content]
    {
      files := files[name := content];
    }

    method CopyTree(items: seq<Item>, path: seq<string>)
      modifies this`folders
      ensures folders == CopyAll(old(folders), items, path)
      decreases items
    {
      assert items[0..] == items;
      for i := 0 to |items|
        invariant CopyAll(old(folders), items, path) == CopyAll(folders, items[i..], path)
      {
        assert items[i..][0] == items[i] && items[i..][1..] == items[i + 1..];
        if items[i].FileItem? {
          folders := folders[path + [items[i].file.name] := items[i].file.content];
        } else {
          CopyTree(items[i].items, path + [items[i].name]);
        }
      }
      assert items[|items|..] == [];
    }
  }

  method InjectParentSuite(hash: Hash, src: File, title: string, dst: Directory)
    requires src.content.ResultContent?
    modifies dst`files
    ensures dst.files == old(dst.files)[DestinationName(hash, title, src) := ResultContent(Inject(hash, title, src.content.result))]
  {
    var result := src.content.result;
    var labels: seq<Label> := [];
    for i := 0 to |result.labels|
      invariant labels == WithoutParent(result.labels[..i])
    {
      assert result.labels[..i + 1][..i] == result.labels[..i];
      if result.labels[i].name != PARENT_SUITE {
        labels := labels + [result.labels[i]];
      }
    }
    assert result.labels[..|result.labels|] == result.labels;
    labels := labels + [Label(PARENT_SUITE, title)];
    var newHistoryId := None;
    var historyId, testCaseId := result.historyId, result.testCaseId;
    if historyId != "" {
      historyId := hash(title + ":" + historyId);
      newHistoryId := Some(historyId);
    }
    if testCaseId != "" {
      testCaseId := hash(title + ":" + testCaseId);
    }
    var name := if newHistoryId.Some? then newHistoryId.value + SUFFIX else src.name;
    dst.Write(name, ResultContent(Result(historyId, testCaseId, labels, result.rest)));
  }

  /** One file of a source directory. */
  method MergeFile(hash: Hash, dir: string, entry: File, dst: Directory) returns (isResult: bool)
    modifies dst`files
    ensures dst.files == PutAll(old(dst.files), WriteOf(hash, dir, entry)) && isResult == IsResult(entry)
  {
    hide IsResult, EndsWith, PutAll;
    WriteCases(hash, dir, entry);
    PutFew(dst.files, WriteOf(hash, dir, entry));
    if entry.name == "history" {
      return false;
    }
    isResult := entry.content.ResultContent? && EndsWith(entry.name, SUFFIX);
    if isResult {
      InjectParentSuite(hash, entry, SuiteTitle(dir), dst);
    } else {
      dst.Write(entry.name, entry.content);
    }
  }

  lemma PutFew(files: Files, writes: seq<File>)
    requires |writes| <= 1
    ensures PutAll(files, writes) == if writes == [] then files else files[writes[0].name := writes[0].content]
  {
  }

  /** One more item of a source directory. */
  lemma OneMoreItem(hash: Hash, dir: string, items: seq<Item>, i: nat, files: Files)
    requires i < |items|
    ensures var before, after := FilesIn(items[..i]), FilesIn(items[..i + 1]);
            if items[i].FolderItem? then after == before
            else
              PutAll(files, SuiteWrites(hash, dir, after))
              == PutAll(PutAll(files, SuiteWrites(hash, dir, before)), WriteOf(hash, dir, items[i].file)) &&
              |ResultsAmong(after)| == |ResultsAmong(before)| + if IsResult(items[i].file) then 1 else 0
  {
    hide WriteOf, IsResult, PutAll;
    var before := FilesIn(items[..i]);
    assert items[..i + 1][..i] == items[..i];
    if items[i].FileItem? {
      assert (before + [items[i].file])[..|before|] == before;
      PutAppend(files, SuiteWrites(hash, dir, before), WriteOf(hash, dir, items[i].file));
    }
  }

  method MergeSuite(hash: Hash, suite: Folder, dst: Directory) returns (count: nat)
    modifies dst
    ensures dst.files == PutAll(old(dst.files), SuiteWrites(hash, suite.name, SuiteOf(suite).files))
    ensures dst.folders == CopyFolders(old(dst.folders), Source(suite))
    ensures count == |ResultsAmong(SuiteOf(suite).files)|
  {
    hide WriteOf, IsResult, PutAll, SuiteWrites, ResultsAmong, FilesIn, CopyAll;
    count := 0;
    var src := suite.items;
    var nested := SubFolder(src, suite.name);
    if nested.Some? {
      src := nested.value;
    }
    var reporter := SubFolder(src, "allure-results");
    if reporter.Some? {
      src := reporter.value;
    }
    assert src[0..] == src && src[..0] == [];
    NothingMerged(hash, suite.name, dst.files);
    for i := 0 to |src|
      invariant dst.files == PutAll(old(dst.files), SuiteWrites(hash, suite.name, FilesIn(src[..i])))
      invariant CopyFolders(old(dst.folders), src) == CopyFolders(dst.folders, src[i..])
      invariant count == |ResultsAmong(FilesIn(src[..i]))|
    {
      OneMoreItem(hash, suite.name, src, i, old(dst.files));
      assert src[i..][0] == src[i] && src[i..][1..] == src[i + 1..];
      if src[i].FolderItem? {
        if src[i].name == "history" {
          continue;
        }
        dst.CopyTree(src[i].items, [src[i].name]);
      } else {
        var isResult := MergeFile(hash, suite.name, src[i].file, dst);
        if isResult {
          count := count + 1;
        }
      }
    }
    assert src[..|src|] == src && src[|src|..] == [];
  }

  lemma NothingMerged(hash: Hash, dir: string, files: Files)
    ensures FilesIn([]) == [] && ResultsAmong([]) == [] && PutAll(files, SuiteWrites(hash, dir, [])) == files
  {
  }

  lemma WriteCases(hash: Hash, dir: string, f: File)
    ensures |WriteOf(hash, dir, f)| <= 1
    ensures f.name == "history" ==> WriteOf(hash, dir, f) == [] && !IsResult(f)
    ensures f.name != "history" && IsResult(f) ==>
              WriteOf(hash, dir, f)
              == [File(DestinationName(hash, SuiteTitle(dir), f), ResultContent(Inject(hash, SuiteTitle(dir), f.content.result)))]
    ensures f.name != "history" && !IsResult(f) ==> WriteOf(hash, dir, f) == [f]
    ensures IsResult(f) <==> f.content.ResultContent? && EndsWith(f.name, SUFFIX)
  {
  }

  /**
   All suites go into one directory, which may hold what an earlier merge left. The counts per suite add up to
   the total that the merge reports.
   */
  method Merge(hash: Hash, folders: seq<Folder>, out: Directory) returns (total: nat)
    modifies out
    ensures out.files == PutAll(old(out.files), AllWrites(hash, SuitesOf(folders))) && total == ResultCount(SuitesOf(folders))
    ensures out.folders == CopySuites(old(out.folders), folders)
  {
    hide SuiteWrites, ResultsAmong, CopyFolders, Source, SuiteOf, PutAll;
    total := 0;
    NoneMerged(hash, out.files);
    ghost var suites := SuitesOf(folders);
    for i := 0 to |folders|
      invariant out.files == PutAll(old(out.files), AllWrites(hash, suites[..i])) && total == ResultCount(suites[..i])
      invariant out.folders == CopySuites(old(out.folders), folders[..i])
    {
      assert suites[..i + 1][..i] == suites[..i] && folders[..i + 1][..i] == folders[..i];
      PutAppend(old(out.files), AllWrites(hash, suites[..i]), SuiteWrites(hash, suites[i].dir, suites[i].files));
      SuiteParts(folders[i]);
      var count := MergeSuite(hash, folders[i], out);
      total := total + count;
    }
    assert suites[..|suites|] == suites && folders[..|folders|] == folders;
  }

  lemma NoneMerged(hash: Hash, files: Files)
    ensures PutAll(files, AllWrites(hash, [])) == files
  {
  }

  lemma SuiteParts(folder: Folder)
    ensures SuiteOf(folder).dir == folder.name
  {
  }

  /** Merging into a directory lays the merge into an empty one over it. */
  lemma {:induction false} PutOver(files: Files, writes: seq<File>)
    ensures PutAll(files, writes) == files + PutAll(map[], writes)
  {
    if writes != [] {
      PutOver(files, writes[..|writes| - 1]);
    } else {
      assert files + map[] == files;
    }
  }

  /** So merging the same suites once more changes nothing. */
  lemma MergeTwice(hash: Hash, suites: seq<Suite>, files: Files)
    ensures var once := PutAll(files, AllWrites(hash, suites));
            PutAll(once, AllWrites(hash, suites)) == once
  {
    var writes := AllWrites(hash, suites);
    PutOver(files, writes);
    PutOver(PutAll(files, writes), writes);
  }

  lemma {:induction false} PutAppend(files: Files, a: seq<File>, b: seq<File>)
    ensures PutAll(files, a + b) == PutAll(PutAll(files, a), b)
  {
    if b == [] {
      assert a + b == a;
    } else {
      assert (a + b)[..|a + b| - 1] == a + b[..|b| - 1];
      PutAppend(files, a, b[..|b| - 1]);
    }
  }

  // ---------------------------------------------------------------- verification, as it runs

  function ParentOf(labels: seq<Label>): Option<string> {
    if labels == [] then None
    else if labels[0].name == PARENT_SUITE then Some(labels[0].value)
    else ParentOf(labels[1..])
  }

  /** A result file that counts for the collision check, with its id and its suite. */
  predicate Owns(files: Files, name: string, id: string, parent: string) {
    && name in files && EndsWith(name, SUFFIX) && files[name].ResultContent?
    && id != "" && files[name].result.historyId == id
    && parent != "" && ParentOf(files[name].result.labels) == Some(parent)
  }

  ghost predicate Shared(files: Files, id: string) {
    exists n1, n2, p1, p2 :: Owns(files, n1, id, p1) && Owns(files, n2, id, p2) && p1 != p2
  }

  /** Whatever the order of the files: the reported ids are those shared by result files of different suites. */
  method VerifyMerge(files: Files) returns (collisions: set<string>)
    ensures forall id :: id in collisions <==> Shared(files, id)
  {
    var historyOwners: map<string, set<string>> := map[];
    var todo := files.Keys;
    while todo != {}
      invariant todo <= files.Keys
      invariant OwnersOf(files, files.Keys - todo, historyOwners)
      decreases todo
    {
      var name :| name in todo;
      ghost var done := files.Keys - todo;
      todo := todo - {name};
      assert files.Keys - todo == done + {name};
      OwnersSkip(files, done, historyOwners, name);
      if EndsWith(name, SUFFIX) && files[name].ResultContent? {
        var id, parent := files[name].result.historyId, ParentOf(files[name].result.labels);
        if id != "" && parent.Some? && parent.value != "" {
          var owners := OwnersAt(historyOwners, id);
          ghost var before := historyOwners;
          historyOwners := historyOwners[id := owners + {parent.value}];
          OwnersStep(files, done, before, name, id, parent.value);
        }
      }
    }
    assert files.Keys - {} == files.Keys;
    collisions := set id | id in historyOwners && |historyOwners[id]| > 1;
    CollisionsAreShared(files, historyOwners);
  }

  function OwnersAt(owners: map<string, set<string>>, id: string): set<string> {
    if id in owners then owners[id] else {}
  }

  predicate Recorded(owners: map<string, set<string>>, id: string, parent: string) {
    parent in OwnersAt(owners, id)
  }

  ghost predicate OwnedAmong(files: Files, done: set<string>, id: string, parent: string) {
    exists name :: name in done && Owns(files, name, id, parent)
  }

  /** The owners recorded for every id after some of the files. */
  ghost predicate OwnersOf(files: Files, done: set<string>, owners: map<string, set<string>>) {
    forall id, parent :: Recorded(owners, id, parent) <==> OwnedAmong(files, done, id, parent)
  }

  lemma OneMoreFile(files: Files, done: set<string>, name: string, id: string, parent: string)
    ensures OwnedAmong(files, done + {name}, id, parent)
       <==> OwnedAmong(files, done, id, parent) || Owns(files, name, id, parent)
  {
    hide Owns;
    if n :| n in done && Owns(files, n, id, parent) {
      assert n in done + {name};
    }
    if Owns(files, name, id, parent) {
      assert name in done + {name};
    }
  }

  lemma OwnersSkip(files: Files, done: set<string>, owners: map<string, set<string>>, name: string)
    requires OwnersOf(files, done, owners)
    ensures (forall id, parent :: !Owns(files, name, id, parent)) ==> OwnersOf(files, done + {name}, owners)
  {
    hide Owns, OwnedAmong, Recorded;
    forall id, parent {
      OneMoreFile(files, done, name, id, parent);
    }
  }

  lemma OwnsOnce(files: Files, name: string, id: string, parent: string, i: string, p: string)
    requires Owns(files, name, id, parent) && Owns(files, name, i, p)
    ensures i == id && p == parent
  {
  }

  lemma OwnersStep(files: Files, done: set<string>, owners: map<string, set<string>>, name: string, id: string, parent: string)
    requires OwnersOf(files, done, owners) && Owns(files, name, id, parent)
    ensures OwnersOf(files, done + {name}, owners[id := OwnersAt(owners, id) + {parent}])
  {
    hide Owns, OwnedAmong;
    var after := owners[id := OwnersAt(owners, id) + {parent}];
    forall i, p
      ensures Recorded(after, i, p) <==> OwnedAmong(files, done + {name}, i, p)
    {
      OneMoreFile(files, done, name, i, p);
      assert Recorded(after, i, p) <==> Recorded(owners, i, p) || (i == id && p == parent);
      if Owns(files, name, i, p) {
        OwnsOnce(files, name, id, parent, i, p);
      }
    }
  }

  lemma CollisionsAreShared(files: Files, owners: map<string, set<string>>)
    requires OwnersOf(files, files.Keys, owners)
    ensures forall id :: (id in owners && |owners[id]| > 1) <==> Shared(files, id)
  {
    hide Owns;
    forall id ensures (id in owners && |owners[id]| > 1) <==> Shared(files, id) {
      var recorded := OwnersAt(owners, id);
      if |recorded| > 1 {
        var p1 :| p1 in recorded;
        assert recorded != {p1};
        var p2 :| p2 in recorded && p2 != p1;
        assert Recorded(owners, id, p1) && Recorded(owners, id, p2);
        var n1 :| n1 in files.Keys && Owns(files, n1, id, p1);
        var n2 :| n2 in files.Keys && Owns(files, n2, id, p2);
      }
      if n1, n2, p1, p2 :| Owns(files, n1, id, p1) && Owns(files, n2, id, p2) && p1 != p2 {
        OwnsIsFile(files, n1, id, p1);
        OwnsIsFile(files, n2, id, p2);
        assert OwnedAmong(files, files.Keys, id, p1) && OwnedAmong(files, files.Keys, id, p2);
        assert Recorded(owners, id, p1) && Recorded(owners, id, p2);
        assert |recorded - {p1}| == |recorded| - 1;
        assert p2 in recorded - {p1};
      }
    }
  }

  lemma OwnsIsFile(files: Files, name: string, id: string, parent: string)
    requires Owns(files, name, id, parent)
    ensures name in files
  {
  }

  // ---------------------------------------------------------------- what survives

  /** The result files among a list of writes have pairwise distinct names. */
  ghost predicate ResultNamesDistinct(writes: seq<File>) {
    forall i, j :: 0 <= i < j < |writes| && writes[i].content.ResultContent? && writes[j].content.ResultContent? ==>
      writes[i].name != writes[j].name
  }

  /** Results are written under result names, everything else under other names. */
  ghost predicate WellNamed(writes: seq<File>) {
    forall i :: 0 <= i < |writes| ==> (writes[i].content.ResultContent? <==> EndsWith(writes[i].name, SUFFIX))
  }

  function ResultFiles(files: Files): set<string> {
    set name | name in files && files[name].ResultContent?
  }

  lemma {:induction false} PutAllHolds(writes: seq<File>)
    requires WellNamed(writes)
    ensures forall name :: name in PutAll(map[], writes) ==>
              exists i :: 0 <= i < |writes| && writes[i] == File(name, PutAll(map[], writes)[name])
    ensures forall i :: 0 <= i < |writes| ==> writes[i].name in PutAll(map[], writes)
  {
    hide EndsWith;
    if writes != [] {
      var front, last := writes[..|writes| - 1], writes[|writes| - 1];
      assert forall i :: 0 <= i < |front| ==> front[i] == writes[i];
      PutAllHolds(front);
      assert PutAll(map[], writes) == PutAll(map[], front)[last.name := last.content];
      forall name | name in PutAll(map[], writes)
        ensures exists i :: 0 <= i < |writes| && writes[i] == File(name, PutAll(map[], writes)[name])
      {
        if name == last.name {
          assert writes[|writes| - 1] == File(name, PutAll(map[], writes)[name]);
        } else {
          assert name in PutAll(map[], front) && PutAll(map[], writes)[name] == PutAll(map[], front)[name];
          assert exists i :: 0 <= i < |front| && front[i] == File(name, PutAll(map[], front)[name]);
          var i :| 0 <= i < |front| && front[i] == File(name, PutAll(map[], front)[name]);
          assert writes[i] == front[i];
        }
      }
      forall i | 0 <= i < |writes| ensures writes[i].name in PutAll(map[], writes) {
        if i < |front| {
          assert front[i].name in PutAll(map[], front);
        }
      }
    }
  }

  lemma SurvivorsHold(writes: seq<File>, i: nat)
    requires WellNamed(writes) && ResultNamesDistinct(writes) && i < |writes| && writes[i].content.ResultContent?
    ensures var out := PutAll(map[], writes);
            writes[i].name in out && out[writes[i].name] == writes[i].content
  {
    hide EndsWith;
    PutAllHolds(writes);
    var out := PutAll(map[], writes);
    var j :| 0 <= j < |writes| && writes[j] == File(writes[i].name, out[writes[i].name]);
  }

  function ResultWrites(writes: seq<File>): nat {
    if writes == [] then 0
    else ResultWrites(writes[..|writes| - 1]) + if writes[|writes| - 1].content.ResultContent? then 1 else 0
  }

  /** As many result files as result writes, exactly when their names are pairwise distinct. */
  lemma {:induction false} CountIsDistinct(writes: seq<File>)
    requires WellNamed(writes)
    ensures |ResultFiles(PutAll(map[], writes))| <= ResultWrites(writes)
    ensures |ResultFiles(PutAll(map[], writes))| == ResultWrites(writes) <==> ResultNamesDistinct(writes)
  {
    hide EndsWith;
    if writes == [] {
      assert ResultFiles(map[]) == {};
    } else {
      var front, last := writes[..|writes| - 1], writes[|writes| - 1];
      assert writes == front + [last];
      CountIsDistinct(front);
      KeptResults(front, last);
      hide WellNamed, ResultNamesDistinct, ResultFiles;
      if last.content.ResultContent? {
        LastDistinct(front, last);
        NameKept(front, last);
      } else {
        LastOther(front, last);
      }
    }
  }

  lemma LastOther(front: seq<File>, last: File)
    requires !last.content.ResultContent?
    ensures ResultNamesDistinct(front + [last]) <==> ResultNamesDistinct(front)
  {
    var writes := front + [last];
    assert forall i :: 0 <= i < |front| ==> writes[i] == front[i];
  }

  lemma NameKept(front: seq<File>, last: File)
    requires WellNamed(front + [last]) && last.content.ResultContent?
    ensures last.name in ResultFiles(PutAll(map[], front)) <==> last.name in PutAll(map[], front)
  {
    KeptResults(front, last);
  }

  lemma KeptResults(front: seq<File>, last: File)
    requires WellNamed(front + [last])
    ensures var before := PutAll(map[], front);
            var after := before[last.name := last.content];
            ResultFiles(after) == (if last.content.ResultContent? then ResultFiles(before) + {last.name} else ResultFiles(before)) &&
            (last.content.ResultContent? && last.name in before ==> before[last.name].ResultContent?)
  {
    hide EndsWith;
    var writes := front + [last];
    forall i | 0 <= i < |front| ensures front[i].content.ResultContent? <==> EndsWith(front[i].name, SUFFIX) {
      assert writes[i] == front[i];
    }
    PutAllHolds(front);
    assert writes[|front|] == last;
  }

  lemma LastDistinct(front: seq<File>, last: File)
    requires WellNamed(front + [last]) && last.content.ResultContent?
    ensures ResultNamesDistinct(front + [last]) <==> ResultNamesDistinct(front) && last.name !in PutAll(map[], front)
  {
    hide EndsWith;
    var writes := front + [last];
    forall i | 0 <= i < |front| ensures front[i].content.ResultContent? <==> EndsWith(front[i].name, SUFFIX) {
      assert writes[i] == front[i];
    }
    PutAllHolds(front);
    assert writes[|front|] == last;
    if ResultNamesDistinct(writes) {
      forall i, j | 0 <= i < j < |front| && front[i].content.ResultContent? && front[j].content.ResultContent?
        ensures front[i].name != front[j].name
      {
        assert writes[i] == front[i] && writes[j] == front[j];
      }
    }
    if last.name in PutAll(map[], front) {
      var i :| 0 <= i < |front| && front[i] == File(last.name, PutAll(map[], front)[last.name]);
      assert writes[i] == front[i];
      assert !ResultNamesDistinct(writes);
    }
  }

  // ---------------------------------------------------------------- directories written by the reporter

  /** Each result of a listing is named after its id, as the reporter names them. */
  ghost predicate NamedById(suite: Suite) {
    && IsListing(suite.files)
    && forall i :: 0 <= i < |suite.files| && suite.files[i].content.ResultContent? ==>
         var id := suite.files[i].content.result.historyId;
         id != "" && suite.files[i].name == id + SUFFIX
  }

  ghost predicate AllNamedById(suites: seq<Suite>) {
    forall k :: 0 <= k < |suites| ==> NamedById(suites[k])
  }

  ghost predicate Injective(hash: Hash) {
    forall s, t :: hash(s) == hash(t) ==> s == t
  }

  /** What is hashed for a result of a suite. */
  function Scope(dir: string, id: string): string {
    SuiteTitle(dir) + ":" + id
  }

  ghost predicate HasResult(suite: Suite, id: string) {
    exists i :: 0 <= i < |suite.files| && suite.files[i].content.ResultContent? && suite.files[i].content.result.historyId == id
  }

  /** Some result of one suite has the same scope as some result of the other. */
  ghost predicate Meets(s: Suite, t: Suite) {
    exists a, b :: HasResult(s, a) && HasResult(t, b) && Scope(s.dir, a) == Scope(t.dir, b)
  }

  /** Two results of different suites have the same scope. */
  ghost predicate Clash(suites: seq<Suite>) {
    exists j, k :: 0 <= j < k < |suites| && Meets(suites[j], suites[k])
  }

  predicate ColonFree(s: string) {
    ':' !in s
  }

  /** The reporter's ids hold no colon. */
  ghost predicate ReporterWrote(suite: Suite) {
    && NamedById(suite)
    && forall id :: HasResult(suite, id) ==> ColonFree(id)
  }

  ghost predicate Suites(suites: seq<Suite>) {
    && (forall k :: 0 <= k < |suites| ==> ReporterWrote(suites[k]))
    && forall j, k :: 0 <= j < k < |suites| ==> suites[j].dir != suites[k].dir
  }

  lemma ColonAfter(a: string, x: string, b: string, y: string)
    requires a + ":" + x == b + ":" + y && |a| < |b|
    ensures ':' in x
  {
    var s := a + ":" + x;
    assert s[|b|] == ':' && x[|b| - |a| - 1] == s[|b|];
  }

  /** The last colon separates the suite from a colon-free id. */
  lemma ScopeUnique(a: string, x: string, b: string, y: string)
    requires ColonFree(x) && ColonFree(y) && a + ":" + x == b + ":" + y
    ensures a == b && x == y
  {
    if |a| < |b| {
      ColonAfter(a, x, b, y);
    } else if |b| < |a| {
      ColonAfter(b, y, a, x);
    }
    var s := a + ":" + x;
    assert s[..|a|] == a && s[..|b|] == b && s[|a| + 1..] == x && s[|b| + 1..] == y;
  }

  /** A result write of a suite, and the id it was made from. */
  ghost predicate From(hash: Hash, dir: string, id: string, w: File) {
    && id != "" && w.content.ResultContent?
    && w.name == Scoped(hash, SuiteTitle(dir), id) + SUFFIX
    && w.content.result.historyId == Scoped(hash, SuiteTitle(dir), id)
    && ParentOf(w.content.result.labels) == Some(SuiteTitle(dir))
  }

  lemma {:induction false} ParentInjected(labels: seq<Label>, title: string)
    ensures ParentOf(WithoutParent(labels) + [Label(PARENT_SUITE, title)]) == Some(title)
  {
    NoParent(labels);
    ParentAtEnd(WithoutParent(labels), title);
  }

  lemma {:induction false} NoParent(labels: seq<Label>)
    ensures forall i :: 0 <= i < |WithoutParent(labels)| ==> WithoutParent(labels)[i].name != PARENT_SUITE
  {
    if labels != [] {
      NoParent(labels[..|labels| - 1]);
    }
  }

  lemma {:induction false} ParentAtEnd(labels: seq<Label>, title: string)
    requires forall i :: 0 <= i < |labels| ==> labels[i].name != PARENT_SUITE
    ensures ParentOf(labels + [Label(PARENT_SUITE, title)]) == Some(title)
  {
    if labels != [] {
      assert (labels + [Label(PARENT_SUITE, title)])[1..] == labels[1..] + [Label(PARENT_SUITE, title)];
      ParentAtEnd(labels[1..], title);
    }
  }

  /** One write of a reporter's directory. */
  lemma WriteFrom(hash: Hash, suite: Suite, i: nat)
    requires NamedById(suite) && i < |suite.files|
    ensures WellNamed(WriteOf(hash, suite.dir, suite.files[i]))
    ensures var f := suite.files[i];
            forall w :: w in WriteOf(hash, suite.dir, f) && w.content.ResultContent? ==>
              f.content.ResultContent? && From(hash, suite.dir, f.content.result.historyId, w)
  {
    var f := suite.files[i];
    WriteCases(hash, suite.dir, f);
    if f.name != "history" && IsResult(f) {
      ParentInjected(f.content.result.labels, SuiteTitle(suite.dir));
      SuffixEnds(Scoped(hash, SuiteTitle(suite.dir), f.content.result.historyId));
    }
  }

  lemma SuffixEnds(s: string)
    ensures EndsWith(s + SUFFIX, SUFFIX)
  {
  }

  /** Results with different scopes are written under different names, and with different ids. */
  lemma NamesApart(hash: Hash, d1: string, id1: string, w1: File, d2: string, id2: string, w2: File)
    requires Injective(hash) && From(hash, d1, id1, w1) && From(hash, d2, id2, w2)
    ensures w1.name == w2.name <==> Scope(d1, id1) == Scope(d2, id2)
  {
    var s1, s2 := Scoped(hash, SuiteTitle(d1), id1), Scoped(hash, SuiteTitle(d2), id2);
    assert (s1 + SUFFIX)[..|s1|] == s1 && (s2 + SUFFIX)[..|s2|] == s2;
  }

  lemma SameSuiteScope(dir: string, a: string, b: string)
    requires Scope(dir, a) == Scope(dir, b)
    ensures a == b
  {
    assert Scope(dir, a)[|SuiteTitle(dir)| + 1..] == a && Scope(dir, b)[|SuiteTitle(dir)| + 1..] == b;
  }

  lemma DistinctConcat(a: seq<File>, b: seq<File>)
    requires ResultNamesDistinct(a) && ResultNamesDistinct(b)
    requires forall x, y :: x in a && y in b && x.content.ResultContent? && y.content.ResultContent? ==> x.name != y.name
    ensures ResultNamesDistinct(a + b)
  {
    var c := a + b;
    forall i, j | 0 <= i < j < |c| && c[i].content.ResultContent? && c[j].content.ResultContent?
      ensures c[i].name != c[j].name
    {
      assert i < |a| ==> c[i] in a;
      assert j >= |a| ==> c[j] in b;
    }
  }

  lemma DistinctParts(a: seq<File>, b: seq<File>)
    requires ResultNamesDistinct(a + b)
    ensures ResultNamesDistinct(a)
    ensures forall x, y :: x in a && y in b && x.content.ResultContent? && y.content.ResultContent? ==> x.name != y.name
  {
    var c := a + b;
    assert forall i :: 0 <= i < |a| ==> c[i] == a[i];
    assert forall i :: 0 <= i < |b| ==> c[|a| + i] == b[i];
  }

  /** The writes of one directory: well named, distinct, each from the id of one of its files. */
  lemma {:induction false} SuiteDistinct(hash: Hash, suite: Suite, n: nat)
    requires Injective(hash) && NamedById(suite) && n <= |suite.files|
    ensures var writes := SuiteWrites(hash, suite.dir, suite.files[..n]);
            WellNamed(writes) && ResultNamesDistinct(writes) &&
            forall w :: w in writes && w.content.ResultContent? ==>
              exists i :: 0 <= i < n && suite.files[i].content.ResultContent?
                          && From(hash, suite.dir, suite.files[i].content.result.historyId, w)
  {
    hide From, WriteOf, Injective, EndsWith, Scope;
    if n > 0 {
      assert suite.files[..n][..n - 1] == suite.files[..n - 1];
      SuiteDistinct(hash, suite, n - 1);
      var f := suite.files[n - 1];
      var front, more := SuiteWrites(hash, suite.dir, suite.files[..n - 1]), WriteOf(hash, suite.dir, f);
      WriteFrom(hash, suite, n - 1);
      WriteCases(hash, suite.dir, f);
      forall x, y | x in front && y in more && x.content.ResultContent? && y.content.ResultContent?
        ensures x.name != y.name
      {
        var i :| 0 <= i < n - 1 && suite.files[i].content.ResultContent?
                 && From(hash, suite.dir, suite.files[i].content.result.historyId, x);
        assert suite.files[i].name != f.name;
        NamesApart(hash, suite.dir, suite.files[i].content.result.historyId, x, suite.dir, f.content.result.historyId, y);
        if x.name == y.name {
          SameSuiteScope(suite.dir, suite.files[i].content.result.historyId, f.content.result.historyId);
        }
      }
      DistinctConcat(front, more);
    }
  }

  /** Result writes of one suite come from its results. */
  lemma SuiteResults(hash: Hash, suite: Suite)
    requires Injective(hash) && NamedById(suite)
    ensures var writes := SuiteWrites(hash, suite.dir, suite.files);
            WellNamed(writes) && ResultNamesDistinct(writes) &&
            forall w :: w in writes && w.content.ResultContent? ==> exists id :: HasResult(suite, id) && From(hash, suite.dir, id, w)
  {
    hide From, Injective, EndsWith, SuiteWrites, WriteOf, IsResult, NamedById, WellNamed, ResultNamesDistinct;
    var writes := SuiteWrites(hash, suite.dir, suite.files);
    assert suite.files[..|suite.files|] == suite.files;
    SuiteDistinct(hash, suite, |suite.files|);
    forall w | w in writes && w.content.ResultContent? ensures exists id :: HasResult(suite, id) && From(hash, suite.dir, id, w) {
      var i :| 0 <= i < |suite.files| && suite.files[i].content.ResultContent?
               && From(hash, suite.dir, suite.files[i].content.result.historyId, w);
      assert HasResult(suite, suite.files[i].content.result.historyId);
    }
  }

  lemma ResultWritten(hash: Hash, suite: Suite, id: string) returns (w: File)
    requires NamedById(suite) && HasResult(suite, id)
    ensures w in SuiteWrites(hash, suite.dir, suite.files) && w.content.ResultContent? && From(hash, suite.dir, id, w)
  {
    hide NamedById, SuiteWrites, WriteOf;
    var i :| 0 <= i < |suite.files| && suite.files[i].content.ResultContent? && suite.files[i].content.result.historyId == id;
    w := WriteOfResult(hash, suite, i);
    InSuiteWrites(hash, suite.dir, suite.files, i, w);
  }

  lemma WriteOfResult(hash: Hash, suite: Suite, i: nat) returns (w: File)
    requires NamedById(suite) && i < |suite.files| && suite.files[i].content.ResultContent?
    ensures WriteOf(hash, suite.dir, suite.files[i]) == [w]
    ensures From(hash, suite.dir, suite.files[i].content.result.historyId, w)
  {
    var f := suite.files[i];
    assert f.name[|f.name| - 1] == 'n';
    assert "history"[6] == 'y';
    WriteCases(hash, suite.dir, f);
    WriteFrom(hash, suite, i);
    w := WriteOf(hash, suite.dir, f)[0];
  }

  /** Every result among the writes was made from a result of some suite. */
  ghost predicate AllFrom(hash: Hash, suites: seq<Suite>, writes: seq<File>) {
    forall w :: w in writes && w.content.ResultContent? ==>
      exists k, id :: 0 <= k < |suites| && HasResult(suites[k], id) && From(hash, suites[k].dir, id, w)
  }

  lemma NoWrites(hash: Hash)
    ensures AllWrites(hash, []) == [] && WellNamed([]) && ResultNamesDistinct([]) && AllFrom(hash, [], []) && !Clash([])
  {
  }

  lemma AllFromLonger(hash: Hash, suites: seq<Suite>, front: seq<File>, more: seq<File>)
    requires suites != [] && AllFrom(hash, suites[..|suites| - 1], front)
    requires var last := suites[|suites| - 1];
             forall w :: w in more && w.content.ResultContent? ==> exists id :: HasResult(last, id) && From(hash, last.dir, id, w)
    ensures AllFrom(hash, suites, front + more)
  {
    hide From, HasResult;
    var earlier, last := suites[..|suites| - 1], suites[|suites| - 1];
    forall w | w in front + more && w.content.ResultContent?
      ensures exists k, id :: 0 <= k < |suites| && HasResult(suites[k], id) && From(hash, suites[k].dir, id, w)
    {
      if w in front {
        var k, id :| 0 <= k < |earlier| && HasResult(earlier[k], id) && From(hash, earlier[k].dir, id, w);
        assert suites[k] == earlier[k];
      } else {
        var id :| HasResult(last, id) && From(hash, last.dir, id, w);
        assert HasResult(suites[|suites| - 1], id);
      }
    }
  }

  lemma WellNamedConcat(a: seq<File>, b: seq<File>)
    requires WellNamed(a) && WellNamed(b)
    ensures WellNamed(a + b)
  {
    hide EndsWith;
  }

  /** A clash is one among the earlier suites or one with the last. */
  lemma ClashLast(suites: seq<Suite>)
    requires suites != []
    ensures var earlier, last := suites[..|suites| - 1], suites[|suites| - 1];
            Clash(suites) <==> Clash(earlier) || exists j :: 0 <= j < |earlier| && Meets(earlier[j], last)
  {
    hide Meets;
    var earlier, last := suites[..|suites| - 1], suites[|suites| - 1];
    assert forall j :: 0 <= j < |earlier| ==> suites[j] == earlier[j];
  }

  /** Two results with one scope are written under one name. */
  lemma ClashMeets(hash: Hash, s: Suite, t: Suite) returns (x: File, y: File)
    requires Injective(hash) && NamedById(s) && NamedById(t) && Meets(s, t)
    ensures x in SuiteWrites(hash, s.dir, s.files) && y in SuiteWrites(hash, t.dir, t.files)
    ensures x.content.ResultContent? && y.content.ResultContent? && x.name == y.name
  {
    hide Injective, SuiteWrites, NamedById, HasResult, Scope, From;
    var a, b :| HasResult(s, a) && HasResult(t, b) && Scope(s.dir, a) == Scope(t.dir, b);
    x := ResultWritten(hash, s, a);
    y := ResultWritten(hash, t, b);
    NamesApart(hash, s.dir, a, x, t.dir, b, y);
  }

  /** All writes come from results of the suites, and their names are distinct exactly when no scopes clash. */
  lemma {:induction false} AllDistinct(hash: Hash, suites: seq<Suite>)
    requires Injective(hash) && AllNamedById(suites)
    ensures WellNamed(AllWrites(hash, suites)) && AllFrom(hash, suites, AllWrites(hash, suites))
    ensures ResultNamesDistinct(AllWrites(hash, suites)) <==> !Clash(suites)
    decreases |suites|
  {
    hide From, Injective, EndsWith, SuiteWrites, NamedById, HasResult, Scope, WellNamed, ResultNamesDistinct, AllFrom, Meets, Clash;
    if suites == [] {
      NoWrites(hash);
    } else {
      var earlier, suite := suites[..|suites| - 1], suites[|suites| - 1];
      AllDistinct(hash, earlier);
      SuiteResults(hash, suite);
      var front, more := AllWrites(hash, earlier), SuiteWrites(hash, suite.dir, suite.files);
      AllFromLonger(hash, suites, front, more);
      WellNamedConcat(front, more);
      ClashLast(suites);
      if Clash(suites) {
        if j :| 0 <= j < |earlier| && Meets(earlier[j], suite) {
          var x, y := ClashMeets(hash, earlier[j], suite);
          InAllWrites(hash, earlier, j, x);
        }
        if ResultNamesDistinct(front + more) {
          DistinctParts(front, more);
        }
      } else {
        forall x, y | x in front && y in more && x.content.ResultContent? && y.content.ResultContent? ensures x.name != y.name {
          var j := NotMet(hash, earlier, suite, front, more, x, y);
        }
        DistinctConcat(front, more);
      }
    }
  }

  /** Writes of equal name come from suites that meet. */
  lemma NotMet(hash: Hash, earlier: seq<Suite>, suite: Suite, front: seq<File>, more: seq<File>, x: File, y: File) returns (j: nat)
    requires Injective(hash) && AllFrom(hash, earlier, front) && x in front && y in more
    requires x.content.ResultContent? && y.content.ResultContent?
    requires forall w :: w in more && w.content.ResultContent? ==> exists id :: HasResult(suite, id) && From(hash, suite.dir, id, w)
    ensures j < |earlier| && (x.name == y.name ==> Meets(earlier[j], suite))
  {
    hide From, Injective, HasResult, Scope;
    var k, a :| 0 <= k < |earlier| && HasResult(earlier[k], a) && From(hash, earlier[k].dir, a, x);
    var b :| HasResult(suite, b) && From(hash, suite.dir, b, y);
    NamesApart(hash, earlier[k].dir, a, x, suite.dir, b, y);
    j := k;
  }

  lemma {:induction false} CountSuite(hash: Hash, dir: string, files: seq<File>)
    requires forall i :: 0 <= i < |files| ==> (files[i].content.ResultContent? <==> EndsWith(files[i].name, SUFFIX))
    ensures ResultWrites(SuiteWrites(hash, dir, files)) == |ResultsAmong(files)|
  {
    hide WriteOf, EndsWith;
    if files != [] {
      var front, last := files[..|files| - 1], files[|files| - 1];
      CountSuite(hash, dir, front);
      WriteCases(hash, dir, last);
      CountAppend(SuiteWrites(hash, dir, front), WriteOf(hash, dir, last));
      OneWrite(WriteOf(hash, dir, last));
    }
  }

  lemma OneWrite(writes: seq<File>)
    requires |writes| <= 1
    ensures ResultWrites(writes) == if writes != [] && writes[0].content.ResultContent? then 1 else 0
  {
  }

  lemma {:induction false} CountAppend(a: seq<File>, b: seq<File>)
    ensures ResultWrites(a + b) == ResultWrites(a) + ResultWrites(b)
  {
    if b == [] {
      assert a + b == a;
    } else {
      assert (a + b)[..|a + b| - 1] == a + b[..|b| - 1];
      CountAppend(a, b[..|b| - 1]);
    }
  }

  lemma {:induction false} CountAll(hash: Hash, suites: seq<Suite>)
    requires forall k :: 0 <= k < |suites| ==> IsListing(suites[k].files)
    ensures ResultWrites(AllWrites(hash, suites)) == ResultCount(suites)
  {
    hide SuiteWrites;
    if suites != [] {
      var last := suites[|suites| - 1];
      CountAll(hash, suites[..|suites| - 1]);
      CountSuite(hash, last.dir, last.files);
      CountAppend(AllWrites(hash, suites[..|suites| - 1]), SuiteWrites(hash, last.dir, last.files));
    }
  }

  // ---------------------------------------------------------------- main results

  /** In a directory, too, result documents and result file names go together. */
  ghost predicate WellNamedDir(files: Files) {
    forall name :: name in files ==> (files[name].ResultContent? <==> EndsWith(name, SUFFIX))
  }

  /** The results that were there before and that no write replaces. */
  function Leftovers(files: Files, writes: seq<File>): set<string> {
    set name | name in files && files[name].ResultContent? && forall w :: w in writes ==> w.name != name
  }

  /** Merging over a directory adds what merging into an empty one gives to the leftovers. */
  lemma OverCount(files: Files, writes: seq<File>)
    requires WellNamedDir(files) && WellNamed(writes)
    ensures |ResultFiles(PutAll(files, writes))| == |Leftovers(files, writes)| + |ResultFiles(PutAll(map[], writes))|
    ensures forall name :: name in Leftovers(files, writes) ==>
              name in PutAll(files, writes) && PutAll(files, writes)[name] == files[name]
  {
    hide EndsWith;
    PutOver(files, writes);
    PutAllHolds(writes);
    hide PutAll, WellNamed;
    var added, kept := PutAll(map[], writes), Leftovers(files, writes);
    forall name ensures name in kept <==> name in files && files[name].ResultContent? && name !in added {
      WrittenIff(writes, name);
    }
    assert WellNamedDir(added) by { WritesWellNamed(writes); }
    hide Leftovers;
    OverResults(files, added, kept);
  }

  lemma WritesWellNamed(writes: seq<File>)
    requires WellNamed(writes)
    ensures WellNamedDir(PutAll(map[], writes))
  {
    hide EndsWith;
    PutAllHolds(writes);
  }

  lemma OverResults(files: Files, added: Files, kept: set<string>)
    requires WellNamedDir(files) && WellNamedDir(added)
    requires forall name :: name in kept <==> name in files && files[name].ResultContent? && name !in added
    ensures |ResultFiles(files + added)| == |kept| + |ResultFiles(added)|
  {
    hide EndsWith;
    assert kept !! ResultFiles(added);
    assert ResultFiles(files + added) == kept + ResultFiles(added);
  }

  lemma WrittenIff(writes: seq<File>, name: string)
    requires WellNamed(writes)
    ensures name in PutAll(map[], writes) <==> exists w :: w in writes && w.name == name
  {
    hide EndsWith, WellNamed, PutAll;
    PutAllHolds(writes);
    if w :| w in writes && w.name == name {
      var i :| 0 <= i < |writes| && writes[i] == w;
    }
    if name in PutAll(map[], writes) {
      var i :| 0 <= i < |writes| && writes[i] == File(name, PutAll(map[], writes)[name]);
      assert writes[i] in writes;
    }
  }

  /**
   For an injective hash and any suites whose results are named after their ids, over whatever directory: besides
   the leftovers, the merged directory holds as many results as the suites together if and only if no two results
   of different suites have the same scope.
   */
  lemma NothingLostIff(hash: Hash, files: Files, suites: seq<Suite>)
    requires Injective(hash) && WellNamedDir(files) && AllNamedById(suites)
    ensures var writes := AllWrites(hash, suites);
            |ResultFiles(PutAll(files, writes))| == |Leftovers(files, writes)| + ResultCount(suites) <==> !Clash(suites)
  {
    hide Injective, WellNamed, WellNamedDir, ResultNamesDistinct, Clash, AllFrom, Leftovers, ResultFiles;
    AllDistinct(hash, suites);
    CountIsDistinct(AllWrites(hash, suites));
    CountAll(hash, suites);
    OverCount(files, AllWrites(hash, suites));
  }

  /** Each result of a directory is named after its id, as the merge leaves them. */
  ghost predicate ResultsNamedById(files: Files) {
    forall name :: name in files && files[name].ResultContent? ==> name == files[name].result.historyId + SUFFIX
  }

  /**
   The verification after the merge never reports a collision for such suites, results lost or not, whatever the
   hash is and however often it was merged before.
   */
  lemma VerifyNeverWarns(hash: Hash, files: Files, suites: seq<Suite>)
    requires AllNamedById(suites) && ResultsNamedById(files)
    ensures ResultsNamedById(PutAll(files, AllWrites(hash, suites)))
    ensures forall id :: !Shared(PutAll(files, AllWrites(hash, suites)), id)
  {
    hide EndsWith;
    var writes := AllWrites(hash, suites);
    var out := PutAll(files, writes);
    AllNamedByNewId(hash, suites);
    PutAllHolds(writes);
    PutOver(files, writes);
    hide PutAll, AllWrites, WellNamed;
    forall name | name in out && out[name].ResultContent? ensures name == out[name].result.historyId + SUFFIX {
      if name in PutAll(map[], writes) {
        var i :| 0 <= i < |writes| && writes[i] == File(name, PutAll(map[], writes)[name]);
        assert writes[i] in writes;
      }
    }
  }

  /** Every written result is named after its new id. */
  lemma {:induction false} AllNamedByNewId(hash: Hash, suites: seq<Suite>)
    requires AllNamedById(suites)
    ensures WellNamed(AllWrites(hash, suites))
    ensures forall w :: w in AllWrites(hash, suites) && w.content.ResultContent? ==> w.name == w.content.result.historyId + SUFFIX
  {
    hide SuiteWrites, NamedById, WellNamed;
    if suites != [] {
      var last := suites[|suites| - 1];
      AllNamedByNewId(hash, suites[..|suites| - 1]);
      assert last.files[..|last.files|] == last.files;
      SuiteNamedByNewId(hash, last, |last.files|);
      WellNamedConcat(AllWrites(hash, suites[..|suites| - 1]), SuiteWrites(hash, last.dir, last.files));
    } else {
      NoWrites(hash);
    }
  }

  lemma {:induction false} SuiteNamedByNewId(hash: Hash, suite: Suite, n: nat)
    requires NamedById(suite) && n <= |suite.files|
    ensures var writes := SuiteWrites(hash, suite.dir, suite.files[..n]);
            WellNamed(writes) &&
            forall w :: w in writes && w.content.ResultContent? ==> w.name == w.content.result.historyId + SUFFIX
  {
    hide EndsWith, WriteOf;
    if n > 0 {
      assert suite.files[..n][..n - 1] == suite.files[..n - 1];
      SuiteNamedByNewId(hash, suite, n - 1);
      WriteFrom(hash, suite, n - 1);
      WellNamedConcat(SuiteWrites(hash, suite.dir, suite.files[..n - 1]), WriteOf(hash, suite.dir, suite.files[n - 1]));
    }
  }

  /** Two suites whose results are merged into one file, with any hash; the verification reports nothing. */
  lemma ResultLost(hash: Hash, first: Result, second: Result)
    requires first.historyId == "a:b" && second.historyId == "b"
    ensures var suites := [Suite("v1.30", [File("a:b-result.json", ResultContent(first))]),
                           Suite("v1.30:a", [File("b-result.json", ResultContent(second))])];
            var out := PutAll(map[], AllWrites(hash, suites));
            ResultCount(suites) == 2 && |ResultFiles(out)| == 1 && forall id :: !Shared(out, id)
  {
    hide ResultFiles, Inject, PutAll, Shared, AllWrites, ResultCount, EndsWith, Scope, SuiteWrites, ResultsAmong;
    ScopeClash();
    var f, g := File("a:b-result.json", ResultContent(first)), File("b-result.json", ResultContent(second));
    var s, t := Suite("v1.30", [f]), Suite("v1.30:a", [g]);
    assert "a:b" + SUFFIX == f.name && "b" + SUFFIX == g.name;
    OneNamed(s, f);
    OneNamed(t, g);
    OneSuite(hash, s, f);
    OneSuite(hash, t, g);
    TwoSuites(hash, s, t);
    var x, y := SuiteWrites(hash, s.dir, s.files)[0], SuiteWrites(hash, t.dir, t.files)[0];
    assert AllWrites(hash, [s, t]) == [x, y];
    OneFile(x, y);
    VerifyNeverWarns(hash, map[], [s, t]);
  }

  lemma ScopeClash()
    ensures Scope("v1.30", "a:b") == Scope("v1.30:a", "b")
  {
  }

  lemma OneNamed(suite: Suite, f: File)
    requires suite.files == [f] && f.content.ResultContent? && f.content.result.historyId != ""
    requires f.name == f.content.result.historyId + SUFFIX
    ensures NamedById(suite)
  {
    SuffixEnds(f.content.result.historyId);
  }

  lemma OneSuite(hash: Hash, suite: Suite, f: File)
    requires suite.files == [f] && NamedById(suite) && f.content.ResultContent?
    ensures SuiteWrites(hash, suite.dir, suite.files)
         == [File(hash(Scope(suite.dir, f.content.result.historyId)) + SUFFIX,
                  ResultContent(Inject(hash, SuiteTitle(suite.dir), f.content.result)))]
    ensures |ResultsAmong(suite.files)| == 1
  {
    var w := WriteOfResult(hash, suite, 0);
    WriteCases(hash, suite.dir, f);
    assert [f][..0] == [] && ResultsAmong([f][..0]) == [] && SuiteWrites(hash, suite.dir, [f][..0]) == [];
  }

  lemma TwoSuites(hash: Hash, a: Suite, b: Suite)
    ensures AllWrites(hash, [a, b]) == SuiteWrites(hash, a.dir, a.files) + SuiteWrites(hash, b.dir, b.files)
    ensures ResultCount([a, b]) == |ResultsAmong(a.files)| + |ResultsAmong(b.files)|
  {
    assert [a, b][..1] == [a] && [a][..0] == [];
    assert AllWrites(hash, [a][..0]) == [] && ResultCount([a][..0]) == 0;
    assert AllWrites(hash, [a]) == SuiteWrites(hash, a.dir, a.files) && ResultCount([a]) == |ResultsAmong(a.files)|;
  }

  lemma OneFile(x: File, y: File)
    requires x.name == y.name && y.content.ResultContent?
    ensures |ResultFiles(PutAll(map[], [x, y]))| == 1
  {
    assert [x, y][..1] == [x] && [x][..0] == [];
    assert PutAll(map[], [x]) == map[x.name := x.content];
    assert PutAll(map[], [x, y]) == map[x.name := y.content];
    assert ResultFiles(map[x.name := y.content]) == {x.name};
  }

  /** No directory name is equal to another, or begins it when followed by a colon. */
  ghost predicate DirsApart(dirs: seq<string>) {
    forall j, k :: 0 <= j < k < |dirs| ==>
      dirs[j] != dirs[k] && !(dirs[j] + ":" <= dirs[k]) && !(dirs[k] + ":" <= dirs[j])
  }

  ghost predicate HasDirs(suites: seq<Suite>, dirs: seq<string>) {
    |suites| == |dirs| && forall k :: 0 <= k < |dirs| ==> suites[k].dir == dirs[k]
  }

  /** Whatever the ids are and whatever was merged before, nothing is lost. */
  ghost predicate NeverLoses(hash: Hash, dirs: seq<string>) {
    forall files, suites :: WellNamedDir(files) && HasDirs(suites, dirs) && AllNamedById(suites) ==>
      |ResultFiles(PutAll(files, AllWrites(hash, suites)))|
      == |Leftovers(files, AllWrites(hash, suites))| + ResultCount(suites)
  }

  /** For an injective hash: directory names never lose a result, for any ids, if and only if they are apart. */
  lemma NeverLosesIff(hash: Hash, dirs: seq<string>)
    requires Injective(hash)
    ensures NeverLoses(hash, dirs) <==> DirsApart(dirs)
  {
    hide Injective, AllNamedById, Clash, PutAll, AllWrites, ResultFiles, ResultCount, Leftovers;
    forall files, suites | WellNamedDir(files) && HasDirs(suites, dirs) && AllNamedById(suites) && DirsApart(dirs)
      ensures |ResultFiles(PutAll(files, AllWrites(hash, suites)))|
           == |Leftovers(files, AllWrites(hash, suites))| + ResultCount(suites)
    {
      ApartNoClash(suites, dirs);
      NothingLostIff(hash, files, suites);
    }
    if !DirsApart(dirs) {
      var j, k :| 0 <= j < k < |dirs| &&
        (dirs[j] == dirs[k] || dirs[j] + ":" <= dirs[k] || dirs[k] + ":" <= dirs[j]);
      var suites := ClashingSuites(dirs, j, k);
      NothingLostIff(hash, map[], suites);
      assert WellNamedDir(map[]);
    }
  }

  lemma ApartNoClash(suites: seq<Suite>, dirs: seq<string>)
    requires HasDirs(suites, dirs) && DirsApart(dirs)
    ensures !Clash(suites)
  {
    hide HasResult, Scope;
    if j, k :| 0 <= j < k < |suites| && Meets(suites[j], suites[k]) {
      var a, b :| HasResult(suites[j], a) && HasResult(suites[k], b) && Scope(suites[j].dir, a) == Scope(suites[k].dir, b);
      SameScope(dirs[j], a, dirs[k], b);
    }
  }

  /** Equal scopes come from equal directories, or from one that the other extends after a colon. */
  lemma SameScope(d: string, a: string, e: string, b: string)
    requires Scope(d, a) == Scope(e, b)
    ensures d == e || d + ":" <= e || e + ":" <= d
  {
    var s := Scope(d, a);
    assert s[19..] == d + ":" + a && s[19..] == e + ":" + b;
    var t := d + ":" + a;
    assert t[..|d|] == d && t[..|e|] == e && t[..|d| + 1] == d + ":" && t[..|e| + 1] == e + ":";
    if |d| < |e| {
      assert e[..|d| + 1] == d + ":";
    } else if |e| < |d| {
      assert d[..|e| + 1] == e + ":";
    }
  }

  /** For directory names that are not apart: suites with those names and two results with one scope. */
  lemma ClashingSuites(dirs: seq<string>, j: nat, k: nat) returns (suites: seq<Suite>)
    requires j < k < |dirs|
    requires dirs[j] == dirs[k] || dirs[j] + ":" <= dirs[k] || dirs[k] + ":" <= dirs[j]
    ensures HasDirs(suites, dirs) && AllNamedById(suites) && Clash(suites)
  {
    var a, b := ClashingIds(dirs[j], dirs[k]);
    suites := seq(|dirs|, i requires 0 <= i < |dirs| =>
      Suite(dirs[i], if i == j then [OneResult(a)] else if i == k then [OneResult(b)] else []));
    forall i | 0 <= i < |suites| ensures NamedById(suites[i]) {
      if i == j {
        OneNamed(suites[i], OneResult(a));
      } else if i == k {
        OneNamed(suites[i], OneResult(b));
      }
    }
    assert suites[j].files[0] == OneResult(a) && suites[k].files[0] == OneResult(b);
    assert HasResult(suites[j], a) && HasResult(suites[k], b);
    assert Meets(suites[j], suites[k]);
  }

  function OneResult(id: string): File {
    File(id + SUFFIX, ResultContent(Result(id, "", [], "")))
  }

  lemma ClashingIds(d: string, e: string) returns (a: string, b: string)
    requires d == e || d + ":" <= e || e + ":" <= d
    ensures a != "" && b != "" && Scope(d, a) == Scope(e, b)
  {
    if d == e {
      a, b := "i", "i";
    } else if d + ":" <= e {
      a, b := e[|d| + 1..] + ":i", "i";
      assert e == d + ":" + e[|d| + 1..];
      assert Scope(d, a) == Scope(e, b);
    } else {
      a, b := "i", d[|e| + 1..] + ":i";
      assert d == e + ":" + d[|e| + 1..];
      assert Scope(d, a) == Scope(e, b);
    }
  }

  /** Different suites and ids without colons never clash. */
  lemma ColonFreeNoClash(suites: seq<Suite>)
    requires Suites(suites)
    ensures !Clash(suites)
  {
    hide Meets;
    forall j, k | 0 <= j < k < |suites| ensures !Meets(suites[j], suites[k]) {
      assert ReporterWrote(suites[j]) && ReporterWrote(suites[k]);
      ReportersApart(suites[j], suites[k]);
    }
  }

  lemma ReportersApart(s: Suite, t: Suite)
    requires ReporterWrote(s) && ReporterWrote(t) && s.dir != t.dir
    ensures !Meets(s, t)
  {
    hide HasResult;
    SameTitle(s.dir, t.dir);
    forall a, b | HasResult(s, a) && HasResult(t, b) ensures Scope(s.dir, a) != Scope(t.dir, b) {
      if Scope(s.dir, a) == Scope(t.dir, b) {
        ScopeUnique(SuiteTitle(s.dir), a, SuiteTitle(t.dir), b);
      }
    }
  }

  lemma SameTitle(d: string, e: string)
    ensures SuiteTitle(d) == SuiteTitle(e) ==> d == e
  {
    assert SuiteTitle(d)[19..] == d && SuiteTitle(e)[19..] == e;
  }

  /**
   For directories that the reporter wrote and an injective hash, over whatever directory: besides the leftovers,
   which stay as they are, the merged directory holds as many result files as the suites together, every one of
   their results among them, and no id is shared between suites.
   */
  lemma NoResultLost(hash: Hash, files: Files, suites: seq<Suite>)
    requires Injective(hash) && WellNamedDir(files) && Suites(suites)
    ensures var writes, out := AllWrites(hash, suites), PutAll(files, AllWrites(hash, suites));
            |ResultFiles(out)| == |Leftovers(files, writes)| + ResultCount(suites) &&
            (forall name :: name in Leftovers(files, writes) ==> name in out && out[name] == files[name]) &&
            (forall i :: 0 <= i < |writes| && writes[i].content.ResultContent? ==>
              writes[i].name in out && out[writes[i].name] == writes[i].content) &&
            (ResultsNamedById(files) ==> forall id :: !Shared(out, id))
  {
    var writes := AllWrites(hash, suites);
    assert AllNamedById(suites) by { ReporterNamesById(suites); }
    ColonFreeNoClash(suites);
    hide Injective, Suites, ResultNamesDistinct, WellNamed, WellNamedDir, AllNamedById, Clash, AllWrites, PutAll;
    hide ResultFiles, ResultCount, Shared, Leftovers, ResultsNamedById;
    AllDistinct(hash, suites);
    NothingLostIff(hash, files, suites);
    OverCount(files, writes);
    PutOver(files, writes);
    forall i | 0 <= i < |writes| && writes[i].content.ResultContent?
      ensures writes[i].name in PutAll(files, writes) && PutAll(files, writes)[writes[i].name] == writes[i].content
    {
      SurvivorsHold(writes, i);
    }
    if ResultsNamedById(files) {
      VerifyNeverWarns(hash, files, suites);
    }
  }

  lemma ReporterNamesById(suites: seq<Suite>)
    requires Suites(suites)
    ensures AllNamedById(suites)
  {
    forall k | 0 <= k < |suites| ensures NamedById(suites[k]) {
      assert ReporterWrote(suites[k]);
    }
  }

  lemma {:induction false} InSuiteWrites(hash: Hash, dir: string, files: seq<File>, i: nat, w: File)
    requires i < |files| && w in WriteOf(hash, dir, files[i])
    ensures w in SuiteWrites(hash, dir, files)
    decreases |files|
  {
    hide WriteOf;
    if i < |files| - 1 {
      InSuiteWrites(hash, dir, files[..|files| - 1], i, w);
    }
  }

  lemma {:induction false} InAllWrites(hash: Hash, suites: seq<Suite>, k: nat, w: File)
    requires k < |suites| && w in SuiteWrites(hash, suites[k].dir, suites[k].files)
    ensures w in AllWrites(hash, suites)
    decreases |suites|
  {
    hide SuiteWrites;
    if k < |suites| - 1 {
      InAllWrites(hash, suites[..|suites| - 1], k, w);
    }
  }

  /**
   In particular each result of each suite is found in the merged directory, rescoped and labelled with its
   suite.
   */
  lemma EveryResultMerged(hash: Hash, files: Files, suites: seq<Suite>, k: nat, i: nat)
    requires Injective(hash) && Suites(suites) && k < |suites| && i < |suites[k].files|
    requires suites[k].files[i].content.ResultContent?
    ensures var f, title, out := suites[k].files[i], SuiteTitle(suites[k].dir), PutAll(files, AllWrites(hash, suites));
            DestinationName(hash, title, f) in out &&
            out[DestinationName(hash, title, f)] == ResultContent(Inject(hash, title, f.content.result))
  {
    var f, title := suites[k].files[i], SuiteTitle(suites[k].dir);
    ReporterNamesById(suites);
    var w := WriteOfResult(hash, suites[k], i);
    WriteCases(hash, suites[k].dir, f);
    hide Injective, Suites, DestinationName, Inject, WriteOf, IsResult;
    InSuiteWrites(hash, suites[k].dir, suites[k].files, i, w);
    InAllWrites(hash, suites, k, w);
    ColonFreeNoClash(suites);
    AllDistinct(hash, suites);
    PutOver(files, AllWrites(hash, suites));
    var n :| 0 <= n < |AllWrites(hash, suites)| && AllWrites(hash, suites)[n] == w;
    SurvivorsHold(AllWrites(hash, suites), n);
  }
}
