/**
 * The workspace descriptor written to `ledfx.code-workspace`: the folders of the chosen
 * repositories, fixed settings, the tasks whose folder is present, and the welcome folder.
 */
module Workspace {
  import opened Wrappers
  import opened Seqs
  import opened Strings
  import opened Catalog

  /** A task template; only `taskLabel` (the JSON `label`) and `cwd` matter to the filter, the rest is payload. */
  datatype Task = Task(taskLabel: string, kind: string, command: string, args: Option<seq<string>>,
                       cwd: Option<string>, group: string)

  /** The `folders` value of a parsed document: an array of entries or some other JSON value. */
  datatype Folders = FolderList(entries: seq<FolderEntry>) | NotAList

  datatype Document = Document(folders: Folders, settings: map<string, string>,
                               tasksVersion: string, tasks: seq<Task>)

  const WorkspaceSettings: map<string, string> := map["workbench.startupEditor" := "readme"]
  const TasksVersion: string := "2.0.0"

  const WelcomePath: string := "__welcome__"
  const Welcome: FolderEntry := FolderEntry(WelcomePath, "_Welcome_", None)

  /** The init task's working directory: the workspace root's parent, with no named folder. */
  const InitCwd: string := "${workspaceFolder}/../"

  const InitTask: Task :=
    Task("Init Workspace (clone all repos)", "shell", "node", Some(["ledfx.setup.js"]), Some(InitCwd), "build")
  const BackendStart: Task :=
    Task("[Backend] Start", "shell", "uv", Some(["run", "ledfx", "--offline", "-vv"]),
         Some(RefOpen + "[Backend] Core" + "}"), "build")
  const FrontendStart: Task :=
    Task("[Frontend] Start", "shell", "yarn", Some(["start"]),
         Some(RefOpen + "[Frontend] Web + CC" + "}"), "build")
  const BackendInit: Task :=
    Task("[Backend] Init", "shell", "uv", Some(["run", "ledfx-loopback-install"]),
         Some(RefOpen + "[Backend] Core" + "}"), "build")
  const FrontendInit: Task :=
    Task("[Frontend] Init", "shell", "yarn", None,
         Some(RefOpen + "[Frontend] Web + CC" + "}"), "build")
  const VisualiserInit: Task :=
    Task("[Visualiser] Init", "shell", "pnpm", Some(["install"]),
         Some(RefOpen + "[Visualiser]" + "}"), "build")
  const VisualiserStart: Task :=
    Task("[Visualiser] Start", "shell", "pnpm", Some(["dev"]),
         Some(RefOpen + "[Visualiser]" + "}"), "build")

  /** The static task list, in the order it is written. */
  const TaskTemplates: seq<Task> :=
    [InitTask, BackendStart, FrontendStart, BackendInit, FrontendInit, VisualiserInit, VisualiserStart]

  // ---------------------------------------------------------------------------
  // The pattern /\$\{workspaceFolder:([^}]+)}/

  const RefOpen: string := "${workspaceFolder:"

  /** The capture of the pattern when a match starts at position `i`, if one does. */
  function MatchAt(s: string, i: nat): Option<string>
    requires i <= |s|
  {
    if |s| - i < |RefOpen| || s[i..i + |RefOpen|] != RefOpen then None
    else match IndexOfChar(s[i + |RefOpen|..], '}')
      case None => None
      case Some(k) => if k == 0 then None else Some(s[i + |RefOpen|..i + |RefOpen| + k])
  }

  /** `s` holds the text `${workspaceFolder:NAME}` at position `i`. */
  predicate RefTextAt(s: string, i: nat, name: string)
  {
    i + |RefOpen| + |name| < |s| && s[i..i + |RefOpen| + |name| + 1] == RefOpen + name + "}"
  }

  /** The pattern matches at `i` with capture `name` exactly when the text is there and `name` is non-empty and free of `}`. */
  lemma MatchAtSpec(s: string, i: nat, name: string)
    requires i <= |s|
    ensures MatchAt(s, i) == Some(name) <==> name != [] && '}' !in name && RefTextAt(s, i, name)
  {
    if MatchAt(s, i) == Some(name) {
      MatchAtText(s, i);
    }
    if name != [] && '}' !in name && RefTextAt(s, i, name) {
      RefTextMatches(s, i, name);
    }
  }

  /** A match at `i` captures a non-empty name free of `}` that stands in the text there. */
  lemma MatchAtText(s: string, i: nat)
    requires i <= |s| && MatchAt(s, i).Some?
    ensures var name := MatchAt(s, i).value; name != [] && '}' !in name && RefTextAt(s, i, name)
  {
    var start := i + |RefOpen|;
    var rest := s[start..];
    var k := IndexOfChar(rest, '}').value;
    assert MatchAt(s, i).value == rest[..k];
    assert s[i..start + k + 1] == s[i..start] + rest[..k] + [rest[k]];
  }

  /** The text `${workspaceFolder:NAME}` at `i`, with a non-empty name free of `}`, is a match capturing that name. */
  lemma RefTextMatches(s: string, i: nat, name: string)
    requires name != [] && '}' !in name && RefTextAt(s, i, name)
    ensures i <= |s| && MatchAt(s, i) == Some(name)
  {
    var start := i + |RefOpen|;
    var whole := RefOpen + name + "}";
    var rest := s[start..];
    assert s[i..start + |name| + 1] == whole;
    assert s[i..start] == RefOpen by {
      assert s[i..start] == whole[..|RefOpen|];
    }
    forall t | 0 <= t <= |name| ensures rest[t] == whole[|RefOpen| + t] {
      assert rest[t] == s[i..start + |name| + 1][|RefOpen| + t];
    }
    assert rest[|name|] == '}';
    assert rest[..|name|] == name;
    IndexOfCharAt(rest, '}', |name|);
    assert s[start..start + |name|] == rest[..|name|];
  }

  /** The first `c` is at `k` when `s[k]` is `c` and no `c` comes before it. */
  lemma IndexOfCharAt(s: string, c: char, k: nat)
    requires k < |s| && s[k] == c && c !in s[..k]
    ensures IndexOfChar(s, c) == Some(k)
    decreases k
  {
    if k > 0 {
      assert s[..k][0] == s[0];
      assert s[1..][..k - 1] == s[..k][1..];
      IndexOfCharAt(s[1..], c, k - 1);
    }
  }

  /** The leftmost match at or after position `i`. */
  function FindFrom(s: string, i: nat): (r: Option<string>)
    requires i <= |s|
    ensures r.None? <==> forall j :: i <= j <= |s| ==> MatchAt(s, j).None?
    ensures r.Some? ==> exists j :: i <= j <= |s| && MatchAt(s, j) == r &&
                                    forall k :: i <= k < j ==> MatchAt(s, k).None?
    decreases |s| - i
  {
    if MatchAt(s, i).Some? then MatchAt(s, i)
    else if i == |s| then None
    else FindFrom(s, i + 1)
  }

  /** `cwd.match(pattern)[1]`: the folder name the first match captures. */
  function FolderRef(s: string): Option<string>
  {
    FindFrom(s, 0)
  }

  /** A reference is found exactly when `${workspaceFolder:NAME}` occurs, and the leftmost one is taken. */
  lemma FolderRefSpec(s: string)
    ensures FolderRef(s).Some? ==>
      exists i :: 0 <= i <= |s| && RefTextAt(s, i, FolderRef(s).value) &&
                  FolderRef(s).value != [] && '}' !in FolderRef(s).value &&
                  forall j :: 0 <= j < i ==> MatchAt(s, j).None?
    ensures FolderRef(s).None? ==>
      forall i, name :: 0 <= i <= |s| && name != [] && '}' !in name ==> !RefTextAt(s, i, name)
  {
    if FolderRef(s).Some? {
      var i :| 0 <= i <= |s| && MatchAt(s, i) == FolderRef(s) && forall k :: 0 <= k < i ==> MatchAt(s, k).None?;
      MatchAtSpec(s, i, FolderRef(s).value);
    } else {
      forall i, name | 0 <= i <= |s| && name != [] && '}' !in name ensures !RefTextAt(s, i, name) {
        MatchAtSpec(s, i, name);
      }
    }
  }

  /** A string with no colon holds no reference, such as the init task's `${workspaceFolder}/../`. */
  lemma NoColonNoRef(s: string)
    requires ':' !in s
    ensures FolderRef(s) == None
  {
    forall j | 0 <= j <= |s| ensures MatchAt(s, j).None? {
      if |s| - j >= |RefOpen| {
        assert s[j..j + |RefOpen|][17] == s[j + 17];
      }
    }
  }

  /** `${workspaceFolder:NAME}` yields NAME. */
  lemma RefOf(name: string)
    requires name != [] && '}' !in name
    ensures FolderRef(RefOpen + name + "}") == Some(name)
  {
    var s := RefOpen + name + "}";
    assert s[0..|RefOpen| + |name| + 1] == s;
    MatchAtSpec(s, 0, name);
  }

  // ---------------------------------------------------------------------------
  // Task filtering

  /** The folder a task depends on: the reference in a non-empty `options.cwd`. */
  function TaskRef(t: Task): Option<string>
  {
    if t.cwd.Some? && t.cwd.value != "" then FolderRef(t.cwd.value) else None
  }

  /** The filter's test: no folder reference, or a reference to a selected name. */
  predicate Keep(t: Task, names: seq<string>)
  {
    match TaskRef(t)
    case None => true
    case Some(n) => n in names
  }

  /** `taskTemplates.filter(...)`: the kept tasks, in their original order. */
  function FilterTasks(tasks: seq<Task>, names: seq<string>): (kept: seq<Task>)
    ensures IsSubsequence(kept, tasks)
    ensures forall t :: t in kept <==> t in tasks && Keep(t, names)
    decreases |tasks|
  {
    if tasks == [] then []
    else
      var rest := FilterTasks(tasks[1..], names);
      assert tasks == [tasks[0]] + tasks[1..];
      if Keep(tasks[0], names) then [tasks[0]] + rest else rest
  }

  /** The init task's `${workspaceFolder}/../` holds no folder reference. */
  lemma InitRef()
    ensures TaskRef(InitTask) == None
  {
    NoColonNoRef(InitCwd);
  }

  lemma BackendRefs()
    ensures TaskRef(BackendStart) == TaskRef(BackendInit) == Some("[Backend] Core")
  {
    RefOf("[Backend] Core");
  }

  lemma FrontendRefs()
    ensures TaskRef(FrontendStart) == TaskRef(FrontendInit) == Some("[Frontend] Web + CC")
  {
    RefOf("[Frontend] Web + CC");
  }

  lemma VisualiserRefs()
    ensures TaskRef(VisualiserInit) == TaskRef(VisualiserStart) == Some("[Visualiser]")
  {
    RefOf("[Visualiser]");
  }

  /** The references of the templates: none for the init task, a folder name for the others. */
  lemma TemplateRefs()
    ensures TaskRef(InitTask) == None
    ensures TaskRef(BackendStart) == TaskRef(BackendInit) == Some("[Backend] Core")
    ensures TaskRef(FrontendStart) == TaskRef(FrontendInit) == Some("[Frontend] Web + CC")
    ensures TaskRef(VisualiserInit) == TaskRef(VisualiserStart) == Some("[Visualiser]")
  {
    InitRef();
    BackendRefs();
    FrontendRefs();
    VisualiserRefs();
  }

  /** Filtering distributes over concatenation. */
  lemma {:induction false} FilterTasksAppend(a: seq<Task>, b: seq<Task>, names: seq<string>)
    ensures FilterTasks(a + b, names) == FilterTasks(a, names) + FilterTasks(b, names)
    decreases |a|
  {
    if a == [] {
      assert a + b == b;
    } else {
      assert (a + b)[1..] == a[1..] + b;
      FilterTasksAppend(a[1..], b, names);
    }
  }

  // ---------------------------------------------------------------------------
  // Folders and the document

  /** `selectedRepos.map(repo => folderTemplates[repo.folder]).filter(Boolean)`. */
  function SelectedFolders(chosen: seq<Repo>): (folders: seq<FolderEntry>)
    ensures |folders| <= |chosen|
    ensures forall f :: f in folders <==>
      exists r :: r in chosen && r.folder in FolderTemplates && FolderTemplates[r.folder] == f
    decreases |chosen|
  {
    if chosen == [] then []
    else
      var rest := SelectedFolders(chosen[1..]);
      assert chosen == [chosen[0]] + chosen[1..];
      if chosen[0].folder in FolderTemplates then [FolderTemplates[chosen[0].folder]] + rest else rest
  }

  /** The folder list follows the chosen order: it distributes over concatenation. */
  lemma {:induction false} SelectedFoldersAppend(a: seq<Repo>, b: seq<Repo>)
    ensures SelectedFolders(a + b) == SelectedFolders(a) + SelectedFolders(b)
    decreases |a|
  {
    if a == [] {
      assert a + b == b;
    } else {
      assert (a + b)[1..] == a[1..] + b;
      SelectedFoldersAppend(a[1..], b);
    }
  }

  /** When every chosen repository has a template, nothing is dropped and positions correspond. */
  lemma {:induction false} SelectedFoldersAllTemplated(chosen: seq<Repo>)
    requires forall r :: r in chosen ==> r.folder in FolderTemplates
    ensures |SelectedFolders(chosen)| == |chosen|
    ensures forall i :: 0 <= i < |chosen| ==> SelectedFolders(chosen)[i] == FolderTemplates[chosen[i].folder]
    decreases |chosen|
  {
    if chosen != [] {
      assert forall r :: r in chosen[1..] ==> r in chosen;
      SelectedFoldersAllTemplated(chosen[1..]);
    }
  }

  /** `selectedFolders.map(f => f.name)`. */
  function Names(folders: seq<FolderEntry>): (names: seq<string>)
    ensures |names| == |folders|
    ensures forall i :: 0 <= i < |folders| ==> names[i] == folders[i].name
  {
    seq(|folders|, i requires 0 <= i < |folders| => folders[i].name)
  }

  /** The document as first written: chosen folders, fixed settings, filtered tasks. */
  function BuildDocument(chosen: seq<Repo>): Document
  {
    var folders := SelectedFolders(chosen);
    Document(FolderList(folders), WorkspaceSettings, TasksVersion, FilterTasks(TaskTemplates, Names(folders)))
  }

  /**
   * The document before the read-back: the chosen repositories' templates in order, the fixed
   * settings and version, and the templates whose folder reference is absent or names a selected folder.
   */
  lemma BuildDocumentSpec(chosen: seq<Repo>)
    ensures var d := BuildDocument(chosen);
      && d.folders.FolderList?
      && (forall f :: f in d.folders.entries <==>
            exists r :: r in chosen && r.folder in FolderTemplates && FolderTemplates[r.folder] == f)
      && d.settings == map["workbench.startupEditor" := "readme"] && d.tasksVersion == "2.0.0"
      && IsSubsequence(d.tasks, TaskTemplates)
    ensures var d := BuildDocument(chosen);
      forall t :: t in d.tasks <==>
        (t in TaskTemplates && (TaskRef(t).None? || exists f :: f in d.folders.entries && f.name == TaskRef(t).value))
  {
    var folders := SelectedFolders(chosen);
    var names := Names(folders);
    forall n ensures n in names <==> exists f :: f in folders && f.name == n {
      if n in names {
        var i :| 0 <= i < |names| && names[i] == n;
        assert folders[i] in folders;
      }
      if f :| f in folders && f.name == n {
        var i :| 0 <= i < |folders| && folders[i] == f;
        assert names[i] == n;
      }
    }
  }

  /** The entries of `folders`, a non-array counting as an empty list. */
  function Entries(doc: Document): seq<FolderEntry>
  {
    if doc.folders.FolderList? then doc.folders.entries else []
  }

  predicate HasWelcome(entries: seq<FolderEntry>)
  {
    exists k :: 0 <= k < |entries| && entries[k].path == WelcomePath
  }

  /** The read-back step: make `folders` an array, then push the welcome entry unless one has its path. */
  function WithWelcome(doc: Document): (out: Document)
    ensures out.folders.FolderList? && HasWelcome(Entries(out))
    ensures Entries(doc) <= Entries(out) && |Entries(out)| <= |Entries(doc)| + 1
    ensures out.settings == doc.settings && out.tasksVersion == doc.tasksVersion && out.tasks == doc.tasks
    ensures doc.folders.FolderList? && HasWelcome(Entries(doc)) ==> out == doc
    ensures !HasWelcome(Entries(doc)) ==> Entries(out) == Entries(doc) + [Welcome]
  {
    var entries := Entries(doc);
    if HasWelcome(entries) then doc
    else
      var pushed := entries + [Welcome];
      assert pushed[|entries|].path == WelcomePath;
      doc.(folders := FolderList(pushed))
  }

  /** Applying the welcome step again changes nothing. */
  lemma WelcomeIdempotent(doc: Document)
    ensures WithWelcome(WithWelcome(doc)) == WithWelcome(doc)
  {
  }

  /** No template uses the welcome path. */
  lemma TemplatesAvoidWelcome()
    ensures forall k :: k in FolderTemplates ==> FolderTemplates[k].path != WelcomePath
  {
  }

  /** The file contents after the whole builder has run. */
  function GeneratedDocument(chosen: seq<Repo>): Document
  {
    WithWelcome(BuildDocument(chosen))
  }

  /** The final folders are the chosen repositories' templates followed by the welcome entry. */
  lemma GeneratedFolders(chosen: seq<Repo>)
    ensures Entries(GeneratedDocument(chosen)) == SelectedFolders(chosen) + [Welcome]
    ensures GeneratedDocument(chosen).tasks == BuildDocument(chosen).tasks
  {
    var folders := SelectedFolders(chosen);
    TemplatesAvoidWelcome();
    forall f | f in folders ensures f.path != WelcomePath {
      var r :| r in chosen && r.folder in FolderTemplates && FolderTemplates[r.folder] == f;
    }
    assert forall k :: 0 <= k < |folders| ==> folders[k] in folders;
  }

  /** A task as the filter leaves it: itself when kept, nothing otherwise. */
  function KeptIf(t: Task, names: seq<string>): seq<Task>
  {
    if Keep(t, names) then [t] else []
  }

  /** The filter takes the list's tasks one at a time. */
  lemma FilterTasksCons(t: Task, ts: seq<Task>, names: seq<string>)
    ensures FilterTasks([t] + ts, names) == KeptIf(t, names) + FilterTasks(ts, names)
  {
    hide Keep;
    assert ([t] + ts)[1..] == ts;
  }

  /** The kept templates, computed entry by entry from the filter's test on each. */
  lemma FilterTemplates(names: seq<string>)
    ensures FilterTasks(TaskTemplates, names) ==
      [InitTask] + (KeptIf(BackendStart, names) + (KeptIf(FrontendStart, names) + (KeptIf(BackendInit, names)
      + (KeptIf(FrontendInit, names) + (KeptIf(VisualiserInit, names) + KeptIf(VisualiserStart, names))))))
  {
    InitRef();
    var t6 := [VisualiserStart];
    var t5 := [VisualiserInit] + t6;
    var t4 := [FrontendInit] + t5;
    var t3 := [BackendInit] + t4;
    var t2 := [FrontendStart] + t3;
    var t1 := [BackendStart] + t2;
    assert TaskTemplates == [InitTask] + t1;
    FilterTasksCons(VisualiserStart, [], names);
    assert t6 == [VisualiserStart] + [];
    assert FilterTasks(t6, names) == KeptIf(VisualiserStart, names);
    FilterTasksCons(VisualiserInit, t6, names);
    FilterTasksCons(FrontendInit, t5, names);
    FilterTasksCons(BackendInit, t4, names);
    FilterTasksCons(FrontendStart, t3, names);
    FilterTasksCons(BackendStart, t2, names);
    FilterTasksCons(InitTask, t1, names);
  }

  /** With nothing chosen only the welcome folder and the folder-independent init task remain. */
  lemma EmptyChoiceDocument()
    ensures GeneratedDocument([]) == Document(FolderList([Welcome]), WorkspaceSettings, TasksVersion, [InitTask])
  {
    var names: seq<string> := [];
    FilterTemplates(names);
    assert KeptIf(BackendStart, names) == KeptIf(BackendInit, names) == [] by {
      BackendRefs();
    }
    assert KeptIf(FrontendStart, names) == KeptIf(FrontendInit, names) == [] by {
      FrontendRefs();
    }
    assert KeptIf(VisualiserInit, names) == KeptIf(VisualiserStart, names) == [] by {
      VisualiserRefs();
    }
    assert FilterTasks(TaskTemplates, names) == [InitTask];
    GeneratedFolders([]);
    assert Names(SelectedFolders([])) == names;
  }

  /** With the backend and frontend folders present and the visualiser absent, the visualiser tasks alone are dropped. */
  lemma FrontendBackendTasks(names: seq<string>)
    requires "[Backend] Core" in names && "[Frontend] Web + CC" in names && "[Visualiser]" !in names
    ensures FilterTasks(TaskTemplates, names) == [InitTask, BackendStart, FrontendStart, BackendInit, FrontendInit]
  {
    hide *;
    FilterTemplates(names);
    FrontendBackendKept(names);
  }

  /** The filter's verdict on each folder-specific template when only the backend and frontend folders are present. */
  lemma FrontendBackendKept(names: seq<string>)
    requires "[Backend] Core" in names && "[Frontend] Web + CC" in names && "[Visualiser]" !in names
    ensures KeptIf(BackendStart, names) == [BackendStart] && KeptIf(BackendInit, names) == [BackendInit]
    ensures KeptIf(FrontendStart, names) == [FrontendStart] && KeptIf(FrontendInit, names) == [FrontendInit]
    ensures KeptIf(VisualiserInit, names) == KeptIf(VisualiserStart, names) == []
  {
    BackendRefs();
    FrontendRefs();
    VisualiserRefs();
  }

  /** Choosing the frontend and the backend keeps their four tasks and the init task, not the visualiser's. */
  lemma FrontendBackendDocument()
    ensures GeneratedDocument([Repos[0], Repos[1]]).tasks == [InitTask, BackendStart, FrontendStart, BackendInit, FrontendInit]
    ensures Entries(GeneratedDocument([Repos[0], Repos[1]])) ==
            [FolderTemplates["frontend"], FolderTemplates["backend"], Welcome]
  {
    hide FilterTasks;
    var chosen := [Repos[0], Repos[1]];
    var folders := SelectedFolders(chosen);
    assert folders == [FolderTemplates["frontend"], FolderTemplates["backend"]] by {
      SelectedFoldersAllTemplated(chosen);
    }
    assert Names(folders) == ["[Frontend] Web + CC", "[Backend] Core"];
    FrontendBackendTasks(Names(folders));
    GeneratedFolders(chosen);
  }
}
