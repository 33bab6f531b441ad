/**
 The suite merge on directory trees: where the results of a suite are looked for, what a merged result holds, and
 what becomes of everything else.
 */
module MergeFolders {
  import opened Wrappers
  import opened MergeSuites

  // ---------------------------------------------------------------- directory trees

  function ItemName(item: Item): string {
    if item.FileItem? then item.file.name else item.name
  }

  /** No directory holds two entries of one name. */
  ghost predicate DistinctTree(items: seq<Item>) {
    && (forall i, j :: 0 <= i < j < |items| ==> ItemName(items[i]) != ItemName(items[j]))
    && forall i :: 0 <= i < |items| && items[i].FolderItem? ==> DistinctTree(items[i].items)
  }

  ghost predicate HasFolder(items: seq<Item>, name: string, inside: seq<Item>) {
    exists i :: 0 <= i < |items| && items[i] == FolderItem(name, inside)
  }

  ghost predicate NoFolder(items: seq<Item>, name: string) {
    forall i :: 0 <= i < |items| && items[i].FolderItem? ==> items[i].name != name
  }

  /**
   The innermost directory of a suite in each of the four layouts: the suite directory itself, a directory of
   the suite's name inside it, allure-results inside it, or allure-results inside the directory of the suite's
   name.
   */
  ghost predicate Innermost(suite: Folder, items: seq<Item>) {
    exists outer ::
      (HasFolder(suite.items, suite.name, outer) || (NoFolder(suite.items, suite.name) && outer == suite.items)) &&
      (HasFolder(outer, "allure-results", items) || (NoFolder(outer, "allure-results") && items == outer))
  }

  lemma {:induction false} SubFolderIs(items: seq<Item>, name: string, inside: seq<Item>)
    requires DistinctTree(items)
    ensures HasFolder(items, name, inside) ==> SubFolder(items, name) == Some(inside)
    ensures NoFolder(items, name) ==> SubFolder(items, name) == None
  {
    if items != [] {
      var rest := items[1..];
      assert forall i :: 0 <= i < |rest| ==> rest[i] == items[i + 1];
      SubFolderIs(rest, name, inside);
      if i :| 0 <= i < |items| && items[i] == FolderItem(name, inside) {
        if i > 0 {
          assert rest[i - 1] == items[i] && ItemName(items[0]) != ItemName(items[i]);
        }
      }
    }
  }

  lemma SourceIs(suite: Folder, items: seq<Item>)
    requires DistinctTree(suite.items) && Innermost(suite, items)
    ensures Source(suite) == items && DistinctTree(items)
  {
    hide DistinctTree, SubFolder;
    var outer :|
      (HasFolder(suite.items, suite.name, outer) || (NoFolder(suite.items, suite.name) && outer == suite.items)) &&
      (HasFolder(outer, "allure-results", items) || (NoFolder(outer, "allure-results") && items == outer));
    SubFolderIs(suite.items, suite.name, outer);
    InsideDistinct(suite.items, suite.name, outer);
    SubFolderIs(outer, "allure-results", items);
    InsideDistinct(outer, "allure-results", items);
  }

  lemma InsideDistinct(items: seq<Item>, name: string, inside: seq<Item>)
    requires DistinctTree(items)
    ensures HasFolder(items, name, inside) ==> DistinctTree(inside)
  {
  }

  // ---------------------------------------------------------------- one result

  /** Exactly the labels of another name than parentSuite, in order. */
  ghost predicate OtherLabels(labels: seq<Label>, kept: seq<Label>) {
    exists picks: seq<nat> :: PicksOthers(labels, picks) && |picks| == |kept| &&
      forall p :: 0 <= p < |picks| ==> kept[p] == labels[picks[p]]
  }

  predicate IsOther(l: Label) {
    l.name != "parentSuite"
  }

  ghost predicate PicksOthers(labels: seq<Label>, picks: seq<nat>) {
    && (forall p, q :: 0 <= p < q < |picks| ==> picks[p] < picks[q])
    && (forall p :: 0 <= p < |picks| ==> picks[p] < |labels| && IsOther(labels[picks[p]]))
    && forall j :: 0 <= j < |labels| && IsOther(labels[j]) ==> j in picks
  }

  /** An id is hashed together with the title of its suite; a missing one stays missing. */
  function Rescoped(hash: Hash, dir: string, id: string): string {
    if id == "" then "" else hash("end-to-end tests - " + dir + ":" + id)
  }

  /** A result after the merge: rescoped ids, one parentSuite label at the end, and nothing else changed. */
  ghost predicate MergedFrom(hash: Hash, dir: string, before: Result, after: Result) {
    && after.historyId == Rescoped(hash, dir, before.historyId)
    && after.testCaseId == Rescoped(hash, dir, before.testCaseId)
    && after.rest == before.rest
    && |after.labels| > 0
    && after.labels[|after.labels| - 1] == Label("parentSuite", "end-to-end tests - " + dir)
    && OtherLabels(before.labels, after.labels[..|after.labels| - 1])
  }

  lemma {:induction false} OthersKept(labels: seq<Label>) returns (picks: seq<nat>)
    ensures PicksOthers(labels, picks) && |picks| == |WithoutParent(labels)|
    ensures forall p :: 0 <= p < |picks| ==> WithoutParent(labels)[p] == labels[picks[p]]
  {
    hide WithoutParent, PicksOthers;
    picks := [];
    OthersLast(labels);
    if labels == [] {
      NoneToPick();
    } else {
      var n := |labels| - 1;
      picks := OthersKept(labels[..n]);
      PickOneMore(labels, picks);
      if labels[n].name != "parentSuite" {
        picks := picks + [n];
      }
    }
  }

  lemma NoneToPick()
    ensures PicksOthers([], [])
  {
  }

  lemma PickOneMore(labels: seq<Label>, picks: seq<nat>)
    requires labels != [] && PicksOthers(labels[..|labels| - 1], picks)
    ensures forall p :: 0 <= p < |picks| ==> picks[p] < |labels| - 1
    ensures PicksOthers(labels, if labels[|labels| - 1].name != "parentSuite" then picks + [|labels| - 1] else picks)
  {
    var n := |labels| - 1;
    assert IsOther(labels[n]) <==> labels[n].name != "parentSuite";
    hide IsOther;
    var front, more := labels[..n], picks + [n];
    assert forall j :: 0 <= j < n ==> front[j] == labels[j];
    forall j | 0 <= j < |labels| && IsOther(labels[j]) ensures j in more && (j < n ==> j in picks) {
      if j < n {
        assert IsOther(front[j]);
      }
    }
  }

  lemma OthersLast(labels: seq<Label>)
    ensures WithoutParent(labels) ==
            if labels == [] then []
            else if labels[|labels| - 1].name != "parentSuite" then WithoutParent(labels[..|labels| - 1]) + [labels[|labels| - 1]]
            else WithoutParent(labels[..|labels| - 1])
  {
  }

  /** What is written for one result file: under its new id, or under its old name if it has none. */
  lemma ResultWrite(hash: Hash, dir: string, f: File)
    requires f.content.ResultContent? && |f.name| >= 12 && f.name[|f.name| - 12..] == "-result.json"
    ensures |WriteOf(hash, dir, f)| == 1
    ensures var w, id := WriteOf(hash, dir, f)[0], f.content.result.historyId;
            w.name == (if id == "" then f.name else hash("end-to-end tests - " + dir + ":" + id) + "-result.json") &&
            w.content.ResultContent? && MergedFrom(hash, dir, f.content.result, w.content.result)
  {
    var r := f.content.result;
    var picks := OthersKept(r.labels);
    var kept := WithoutParent(r.labels);
    assert f.name[|f.name| - 1] == 'n' && "history"[6] == 'y';
    assert (kept + [Label("parentSuite", "end-to-end tests - " + dir)])[..|kept|] == kept;
  }

  /** A file that is no result is written as it is. */
  lemma OtherWrite(hash: Hash, dir: string, f: File)
    requires f.name != "history" && !(|f.name| >= 12 && f.name[|f.name| - 12..] == "-result.json")
    ensures WriteOf(hash, dir, f) == [f]
  {
  }

  // ---------------------------------------------------------------- the files of a source directory

  lemma {:induction false} FilesInAre(items: seq<Item>) returns (picks: seq<nat>)
    ensures forall p, q :: 0 <= p < q < |picks| ==> picks[p] < picks[q]
    ensures forall i: nat :: i in picks <==> i < |items| && items[i].FileItem?
    ensures |picks| == |FilesIn(items)|
    ensures forall p :: 0 <= p < |picks| ==>
              picks[p] < |items| && items[picks[p]].FileItem? && FilesIn(items)[p] == items[picks[p]].file
  {
    hide FilesIn;
    picks := [];
    FilesInLast(items);
    if items != [] {
      var n := |items| - 1;
      var front := items[..n];
      assert forall i :: 0 <= i < n ==> front[i] == items[i];
      picks := FilesInAre(front);
      assert forall p :: 0 <= p < |picks| ==> picks[p] in picks;
      if items[n].FileItem? {
        picks := picks + [n];
      }
    }
  }

  lemma FilesInLast(items: seq<Item>)
    ensures FilesIn(items) ==
            if items == [] then []
            else if items[|items| - 1].FileItem? then FilesIn(items[..|items| - 1]) + [items[|items| - 1].file]
            else FilesIn(items[..|items| - 1])
  {
  }

  /** The files of a directory as the reporter leaves it: results are named after their ids, which hold no colon. */
  ghost predicate ReporterItems(items: seq<Item>) {
    forall i :: 0 <= i < |items| && items[i].FileItem? ==> ReporterFile(items[i].file)
  }

  ghost predicate ReporterFile(f: File) {
    && f.name != ""
    && (f.content.ResultContent? <==> |f.name| >= 12 && f.name[|f.name| - 12..] == "-result.json")
    && (f.content.ResultContent? ==>
          var id := f.content.result.historyId;
          id != "" && ':' !in id && f.name == id + "-result.json")
  }

  /** Suites of the four layouts, in directories of different names, written by the reporter. */
  ghost predicate Reported(folders: seq<Folder>, inner: seq<seq<Item>>) {
    && |inner| == |folders|
    && (forall j, k :: 0 <= j < k < |folders| ==> folders[j].name != folders[k].name)
    && forall k :: 0 <= k < |folders| ==>
         DistinctTree(folders[k].items) && Innermost(folders[k], inner[k]) && ReporterItems(inner[k])
  }

  lemma SuiteReported(folder: Folder, items: seq<Item>)
    requires DistinctTree(folder.items) && Innermost(folder, items) && ReporterItems(items)
    ensures ReporterWrote(SuiteOf(folder)) && SuiteOf(folder) == Suite(folder.name, FilesIn(items))
  {
    hide Innermost, FilesIn, Source;
    SourceIs(folder, items);
    var picks := FilesInAre(items);
    var files := FilesIn(items);
    forall p | 0 <= p < |files| ensures ReporterFile(files[p]) {
      assert files[p] == items[picks[p]].file;
    }
    forall p, q | 0 <= p < q < |files| ensures files[p].name != files[q].name {
      assert picks[p] < picks[q] && ItemName(items[picks[p]]) != ItemName(items[picks[q]]);
    }
    hide DistinctTree;
  }

  lemma AllReported(folders: seq<Folder>, inner: seq<seq<Item>>)
    requires Reported(folders, inner)
    ensures Suites(SuitesOf(folders))
    ensures forall k :: 0 <= k < |folders| ==> SuitesOf(folders)[k] == Suite(folders[k].name, FilesIn(inner[k]))
  {
    hide ReporterWrote, SuiteOf, Innermost, DistinctTree, ReporterItems;
    forall k | 0 <= k < |folders|
      ensures ReporterWrote(SuitesOf(folders)[k]) && SuitesOf(folders)[k] == Suite(folders[k].name, FilesIn(inner[k]))
    {
      SuiteReported(folders[k], inner[k]);
    }
  }

  /**
   In each of the four layouts, every result file of the innermost directory is in the merged directory, over
   whatever was there, under its new id and with the fields of MergedFrom.
   */
  lemma FolderResultMerged(hash: Hash, files: Files, folders: seq<Folder>, inner: seq<seq<Item>>, k: nat, i: nat)
    requires Injective(hash) && Reported(folders, inner) && k < |folders| && i < |inner[k]|
    requires inner[k][i].FileItem? && inner[k][i].file.content.ResultContent?
    ensures var out, r := PutAll(files, AllWrites(hash, SuitesOf(folders))), inner[k][i].file.content.result;
            var name := hash("end-to-end tests - " + folders[k].name + ":" + r.historyId) + "-result.json";
            name in out && out[name].ResultContent? && MergedFrom(hash, folders[k].name, r, out[name].result)
  {
    var f := inner[k][i].file;
    assert ReporterFile(f);
    ResultWrite(hash, folders[k].name, f);
    AllReported(folders, inner);
    var picks := FilesInAre(inner[k]);
    assert i in picks;
    var p :| 0 <= p < |picks| && picks[p] == i;
    hide Injective, Suites, Reported, MergedFrom, WriteOf;
    ResultSurvives(hash, files, SuitesOf(folders), k, p);
  }

  lemma ResultSurvives(hash: Hash, files: Files, suites: seq<Suite>, k: nat, p: nat)
    requires Injective(hash) && Suites(suites) && k < |suites| && p < |suites[k].files|
    requires suites[k].files[p].content.ResultContent?
    requires |WriteOf(hash, suites[k].dir, suites[k].files[p])| == 1
    ensures var w, out := WriteOf(hash, suites[k].dir, suites[k].files[p])[0], PutAll(files, AllWrites(hash, suites));
            w.name in out && out[w.name] == w.content
  {
    assert WriteOf(hash, suites[k].dir, suites[k].files[p])
        == [File(DestinationName(hash, SuiteTitle(suites[k].dir), suites[k].files[p]),
                 ResultContent(Inject(hash, SuiteTitle(suites[k].dir), suites[k].files[p].content.result)))] by {
      ReporterNamesById(suites);
      var w := WriteOfResult(hash, suites[k], p);
      WriteCases(hash, suites[k].dir, suites[k].files[p]);
    }
    hide WriteOf, Injective, Suites, DestinationName, Inject;
    EveryResultMerged(hash, files, suites, k, p);
  }

  /** Every other file of such a directory is in the merged directory under its own name. */
  lemma FolderFileMerged(hash: Hash, files: Files, folders: seq<Folder>, inner: seq<seq<Item>>, k: nat, i: nat)
    requires Injective(hash) && Reported(folders, inner) && k < |folders| && i < |inner[k]|
    requires inner[k][i].FileItem? && !inner[k][i].file.content.ResultContent? && inner[k][i].file.name != "history"
    ensures inner[k][i].file.name in PutAll(files, AllWrites(hash, SuitesOf(folders)))
  {
    var f, suites := inner[k][i].file, SuitesOf(folders);
    assert ReporterFile(f);
    OtherWrite(hash, folders[k].name, f);
    AllReported(folders, inner);
    var picks := FilesInAre(inner[k]);
    assert i in picks;
    var p :| 0 <= p < |picks| && picks[p] == i;
    ReporterNamesById(suites);
    hide Injective, Suites, Reported, WriteOf, ReporterFile;
    InSuiteWrites(hash, suites[k].dir, suites[k].files, p, f);
    InAllWrites(hash, suites, k, f);
    AllDistinct(hash, suites);
    WrittenIff(AllWrites(hash, suites), f.name);
    PutOver(files, AllWrites(hash, suites));
  }

  // ---------------------------------------------------------------- the total

  /** The places of the result files in a directory. */
  function ResultItems(items: seq<Item>): set<nat> {
    set i | 0 <= i < |items| && items[i].FileItem? && items[i].file.content.ResultContent?
  }

  function CountItems(inner: seq<seq<Item>>): nat {
    if inner == [] then 0 else CountItems(inner[..|inner| - 1]) + |ResultItems(inner[|inner| - 1])|
  }

  lemma {:induction false} ResultsCounted(items: seq<Item>)
    requires ReporterItems(items)
    ensures |ResultsAmong(FilesIn(items))| == |ResultItems(items)|
  {
    hide ReporterFile;
    FilesInLast(items);
    if items == [] {
      assert ResultItems(items) == {};
    } else {
      var n := |items| - 1;
      var front, last := items[..n], items[n];
      assert forall i :: 0 <= i < n ==> front[i] == items[i];
      ResultsCounted(front);
      ItemAdded(items);
      if last.FileItem? {
        ReporterResult(last.file);
        var before := FilesIn(front);
        assert (before + [last.file])[..|before|] == before;
      }
    }
  }

  lemma ReporterResult(f: File)
    requires ReporterFile(f)
    ensures IsResult(f) <==> f.content.ResultContent?
  {
  }

  lemma ItemAdded(items: seq<Item>)
    requires items != []
    ensures var n := |items| - 1;
            |ResultItems(items)|
            == |ResultItems(items[..n])| + if items[n].FileItem? && items[n].file.content.ResultContent? then 1 else 0
  {
    var n := |items| - 1;
    assert forall i :: 0 <= i < n ==> items[..n][i] == items[i];
    if items[n].FileItem? && items[n].file.content.ResultContent? {
      assert ResultItems(items) == ResultItems(items[..n]) + {n};
    } else {
      assert ResultItems(items) == ResultItems(items[..n]);
    }
  }

  /** The total that the merge reports is the number of result files in the innermost directories. */
  lemma {:induction false} FolderTotal(folders: seq<Folder>, inner: seq<seq<Item>>)
    requires Reported(folders, inner)
    ensures ResultCount(SuitesOf(folders)) == CountItems(inner)
  {
    if folders != [] {
      var n := |folders| - 1;
      AllReported(folders, inner);
      assert SuitesOf(folders)[..n] == SuitesOf(folders[..n]);
      ReportedFront(folders, inner);
      FolderTotal(folders[..n], inner[..n]);
      hide SuiteOf, ResultItems, ResultsAmong, FilesIn, DistinctTree, Innermost;
      ResultsCounted(inner[n]);
    }
  }

  lemma ReportedFront(folders: seq<Folder>, inner: seq<seq<Item>>)
    requires Reported(folders, inner) && folders != []
    ensures Reported(folders[..|folders| - 1], inner[..|inner| - 1])
  {
    hide DistinctTree, Innermost, ReporterItems;
  }

  // ---------------------------------------------------------------- subdirectories

  /** An entry of a directory, or a file below it, at a path of names. */
  ghost predicate ItemAt(item: Item, path: seq<string>, content: Content)
    decreases path, 0
  {
    path != [] &&
    if |path| == 1 then item == FileItem(File(path[0], content))
    else item.FolderItem? && item.name == path[0] && At(item.items, path[1..], content)
  }

  ghost predicate At(items: seq<Item>, path: seq<string>, content: Content)
    decreases path, 1
  {
    exists i :: 0 <= i < |items| && ItemAt(items[i], path, content)
  }

  lemma AtHead(items: seq<Item>, path: seq<string>, content: Content)
    requires items != []
    ensures At(items, path, content) <==> ItemAt(items[0], path, content) || At(items[1..], path, content)
  {
    hide ItemAt;
    var rest := items[1..];
    assert forall i :: 0 <= i < |rest| ==> rest[i] == items[i + 1];
    assert forall i :: 1 <= i < |items| ==> items[i] == rest[i - 1];
  }

  /** One entry copied into a tree. */
  function CopyItem(tree: Tree, item: Item, prefix: seq<string>): Tree {
    if item.FileItem? then tree[prefix + [item.file.name] := item.file.content]
    else CopyAll(tree, item.items, prefix + [item.name])
  }

  lemma CopyHead(tree: Tree, items: seq<Item>, prefix: seq<string>)
    ensures CopyAll(tree, items, prefix)
         == if items == [] then tree else CopyAll(CopyItem(tree, items[0], prefix), items[1..], prefix)
  {
  }

  lemma {:induction false} CopyKeeps(tree: Tree, items: seq<Item>, prefix: seq<string>, p: seq<string>)
    requires p in tree
    ensures p in CopyAll(tree, items, prefix)
    decreases items
  {
    hide CopyAll;
    CopyHead(tree, items, prefix);
    if items != [] {
      if items[0].FolderItem? {
        CopyKeeps(tree, items[0].items, prefix + [items[0].name], p);
      }
      CopyKeeps(CopyItem(tree, items[0], prefix), items[1..], prefix, p);
    }
  }

  /** Copying puts every file under its path. */
  lemma {:induction false} CopyHas(tree: Tree, items: seq<Item>, prefix: seq<string>, path: seq<string>, content: Content)
    requires At(items, path, content)
    ensures prefix + path in CopyAll(tree, items, prefix)
    decreases items
  {
    hide CopyAll, At;
    NothingAt(path, content);
    if items != [] {
      CopyHead(tree, items, prefix);
      AtHead(items, path, content);
      var copied := CopyItem(tree, items[0], prefix);
      if ItemAt(items[0], path, content) {
        if |path| == 1 {
          assert path == [items[0].file.name];
        } else {
          CopyHas(tree, items[0].items, prefix + [items[0].name], path[1..], content);
          assert prefix + path == prefix + [items[0].name] + path[1..];
        }
        CopyKeeps(copied, items[1..], prefix, prefix + path);
      } else {
        CopyHas(copied, items[1..], prefix, path, content);
      }
    }
  }

  lemma NothingAt(path: seq<string>, content: Content)
    ensures !At([], path, content)
  {
  }

  /** Nothing else appears, and nothing else is replaced. */
  lemma {:induction false} CopyOnly(tree: Tree, items: seq<Item>, prefix: seq<string>, p: seq<string>)
    requires p in CopyAll(tree, items, prefix) && !(p in tree && tree[p] == CopyAll(tree, items, prefix)[p])
    ensures prefix <= p && At(items, p[|prefix|..], CopyAll(tree, items, prefix)[p])
    decreases items
  {
    hide CopyAll, At, ItemAt;
    CopyHead(tree, items, prefix);
    if items != [] {
      var copied, out := CopyItem(tree, items[0], prefix), CopyAll(tree, items, prefix);
      if p in copied && copied[p] == out[p] {
        if items[0].FolderItem? {
          CopyOnly(tree, items[0].items, prefix + [items[0].name], p);
        }
        ItemCopied(items[0], prefix, p, out[p]);
        AtHead(items, p[|prefix|..], out[p]);
      } else {
        CopyOnly(copied, items[1..], prefix, p);
        AtHead(items, p[|prefix|..], out[p]);
      }
    }
  }

  lemma ItemCopied(item: Item, prefix: seq<string>, p: seq<string>, content: Content)
    requires if item.FileItem? then p == prefix + [item.file.name] && content == item.file.content
             else prefix + [item.name] <= p && At(item.items, p[|prefix| + 1..], content)
    ensures prefix <= p && ItemAt(item, p[|prefix|..], content)
  {
    hide At;
    var path := p[|prefix|..];
    if item.FileItem? {
      assert path == [item.file.name];
    } else {
      assert path[1..] == p[|prefix| + 1..];
      AtNonEmpty(item.items, path[1..], content);
    }
  }

  lemma AtNonEmpty(items: seq<Item>, path: seq<string>, content: Content)
    requires At(items, path, content)
    ensures path != []
  {
  }

  /** A file in a subdirectory other than the history. */
  ghost predicate Below(items: seq<Item>, path: seq<string>, content: Content) {
    |path| >= 2 && path[0] != "history" && At(items, path, content)
  }

  lemma FoldersHead(tree: Tree, items: seq<Item>)
    ensures CopyFolders(tree, items) ==
            if items == [] then tree
            else CopyFolders(
              if items[0].FolderItem? && items[0].name != "history" then CopyItem(tree, items[0], []) else tree, items[1..])
  {
    if items != [] && items[0].FolderItem? {
      assert [] + [items[0].name] == [items[0].name];
    }
  }

  lemma {:induction false} FoldersKeep(tree: Tree, items: seq<Item>, p: seq<string>)
    requires p in tree
    ensures p in CopyFolders(tree, items)
    decreases items
  {
    hide CopyFolders;
    FoldersHead(tree, items);
    if items != [] {
      if items[0].FolderItem? && items[0].name != "history" {
        CopyKeeps(tree, items[0].items, [] + [items[0].name], p);
        FoldersKeep(CopyItem(tree, items[0], []), items[1..], p);
      } else {
        FoldersKeep(tree, items[1..], p);
      }
    }
  }

  lemma {:induction false} FoldersHave(tree: Tree, items: seq<Item>, path: seq<string>, content: Content)
    requires Below(items, path, content)
    ensures path in CopyFolders(tree, items)
    decreases items
  {
    hide CopyFolders, At;
    NothingAt(path, content);
    if items != [] {
      FoldersHead(tree, items);
      AtHead(items, path, content);
      if ItemAt(items[0], path, content) {
        CopyHas(tree, items[0].items, [] + [items[0].name], path[1..], content);
        assert [] + [items[0].name] + path[1..] == path;
        FoldersKeep(CopyItem(tree, items[0], []), items[1..], path);
      } else if items[0].FolderItem? && items[0].name != "history" {
        FoldersHave(CopyItem(tree, items[0], []), items[1..], path, content);
      } else {
        FoldersHave(tree, items[1..], path, content);
      }
    }
  }

  lemma {:induction false} FoldersOnly(tree: Tree, items: seq<Item>, p: seq<string>)
    requires p in CopyFolders(tree, items) && !(p in tree && tree[p] == CopyFolders(tree, items)[p])
    ensures Below(items, p, CopyFolders(tree, items)[p])
    decreases items
  {
    hide CopyFolders, At, ItemAt;
    FoldersHead(tree, items);
    if items != [] {
      var out := CopyFolders(tree, items);
      AtHead(items, p, out[p]);
      if items[0].FolderItem? && items[0].name != "history" {
        var copied := CopyItem(tree, items[0], []);
        if p in copied && copied[p] == out[p] {
          CopyOnly(tree, items[0].items, [] + [items[0].name], p);
          ItemCopied(items[0], [], p, out[p]);
          assert p[0..] == p;
          AtNonEmpty(items[0].items, p[1..], out[p]);
        } else {
          FoldersOnly(copied, items[1..], p);
        }
      } else {
        FoldersOnly(tree, items[1..], p);
      }
    }
  }

  /**
   In each of the four layouts: every file below a subdirectory other than the history is found under its
   path, and whatever is found was there before or is the file of some suite at that path.
   */
  lemma {:induction false} FoldersMerged(
    tree: Tree, folders: seq<Folder>, inner: seq<seq<Item>>, k: nat, path: seq<string>, content: Content)
    requires |inner| == |folders| && k < |folders| && Below(inner[k], path, content)
    requires forall l :: 0 <= l < |folders| ==> DistinctTree(folders[l].items) && Innermost(folders[l], inner[l])
    ensures path in CopySuites(tree, folders)
    decreases |folders|
  {
    hide CopyFolders, Below, DistinctTree, Innermost, Source;
    var n := |folders| - 1;
    SourceIs(folders[n], inner[n]);
    if k == n {
      FoldersHave(CopySuites(tree, folders[..n]), inner[n], path, content);
    } else {
      FoldersMerged(tree, folders[..n], inner[..n], k, path, content);
      FoldersKeep(CopySuites(tree, folders[..n]), inner[n], path);
    }
  }

  lemma {:induction false} FoldersFromSuites(tree: Tree, folders: seq<Folder>, inner: seq<seq<Item>>, path: seq<string>)
    requires |inner| == |folders| && path in CopySuites(tree, folders)
    requires forall l :: 0 <= l < |folders| ==> DistinctTree(folders[l].items) && Innermost(folders[l], inner[l])
    ensures (path in tree && tree[path] == CopySuites(tree, folders)[path]) ||
            exists k :: 0 <= k < |folders| && Below(inner[k], path, CopySuites(tree, folders)[path])
    decreases |folders|
  {
    hide CopyFolders, Below, DistinctTree, Innermost, Source;
    if folders != [] {
      var n := |folders| - 1;
      SourceIs(folders[n], inner[n]);
      var before, out := CopySuites(tree, folders[..n]), CopySuites(tree, folders);
      if path in before && before[path] == out[path] {
        FoldersFromSuites(tree, folders[..n], inner[..n], path);
        if k :| 0 <= k < n && Below(inner[..n][k], path, out[path]) {
          assert inner[k] == inner[..n][k];
        }
      } else {
        FoldersOnly(before, inner[n], path);
      }
    }
  }

  // ---------------------------------------------------------------- what the verification counts

  /** A result file counts for an id and a suite: by its name, its id, and its first parentSuite label. */
  lemma OwnsMeans(files: Files, name: string, id: string, parent: string)
    ensures Owns(files, name, id, parent) <==>
            name in files && |name| >= 12 && name[|name| - 12..] == "-result.json" && files[name].ResultContent? &&
            id != "" && files[name].result.historyId == id && parent != "" &&
            exists i :: 0 <= i < |files[name].result.labels| && files[name].result.labels[i] == Label("parentSuite", parent) &&
                        forall j :: 0 <= j < i ==> files[name].result.labels[j].name != "parentSuite"
  {
    if name in files && files[name].ResultContent? {
      FirstParent(files[name].result.labels, parent);
    }
  }

  lemma {:induction false} FirstParent(labels: seq<Label>, parent: string)
    ensures ParentOf(labels) == Some(parent) <==>
            exists i :: 0 <= i < |labels| && labels[i] == Label("parentSuite", parent) &&
                        forall j :: 0 <= j < i ==> labels[j].name != "parentSuite"
  {
    if labels != [] {
      var rest := labels[1..];
      FirstParent(rest, parent);
      assert forall i :: 0 <= i < |rest| ==> rest[i] == labels[i + 1];
      assert forall i :: 1 <= i < |labels| ==> labels[i] == rest[i - 1];
      if labels[0].name != "parentSuite" {
        if i :| 0 <= i < |rest| && rest[i] == Label("parentSuite", parent) && forall j :: 0 <= j < i ==> rest[j].name != "parentSuite" {
          assert labels[i + 1] == Label("parentSuite", parent);
        }
        if i :| 0 <= i < |labels| && labels[i] == Label("parentSuite", parent) && forall j :: 0 <= j < i ==> labels[j].name != "parentSuite" {
          assert rest[i - 1] == labels[i];
        }
      }
    }
  }
}
