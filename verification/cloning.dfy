/**
 * The clone orchestration over an abstract set of existing paths: for each chosen
 * repository, skip an existing folder, otherwise create its parent and clone into it;
 * then write the workspace file.
 */
module Cloning {
  import opened Wrappers
  import opened Strings
  import opened Catalog
  import opened Seqs
  import Workspace
  import Menu

  /** `path.dirname` for the slash-separated paths of the catalog. */
  function Dirname(p: string): (d: string)
    ensures d != "." && d != "/" ==> |d| < |p|
  {
    match LastIndexOfChar(p, '/')
    case None => "."
    case Some(k) => if k == 0 then "/" else p[..k]
  }

  /**
   * The directory is `.` for a path without a slash, `/` when the only slash leads,
   * and otherwise everything before the last slash.
   */
  lemma DirnameSpec(p: string)
    ensures '/' !in p ==> Dirname(p) == "."
    ensures p != [] && p[0] == '/' && '/' !in p[1..] ==> Dirname(p) == "/"
    ensures Dirname(p) == "/" ==> p != [] && p[0] == '/'
    ensures var d := Dirname(p);
      d != "." && d != "/" ==> d == p[..|d|] && p[|d|] == '/' && '/' !in p[|d| + 1..]
  {
    var r := LastIndexOfChar(p, '/');
    if r.Some? {
      var k := r.value;
      if k > 0 {
        assert p[1..][k - 1] == p[k];
        assert p[..k][0] == p[0];
      }
    }
  }

  /** The directory of `parent/child` is `parent` when `child` has no slash. */
  lemma DirnameOfJoin(parent: string, child: string)
    requires parent != "" && '/' !in child
    ensures Dirname(parent + "/" + child) == parent
  {
    var p := parent + "/" + child;
    var k := |parent|;
    assert p[k] == '/';
    assert p[k + 1..] == child;
    assert p[..k] == parent;
    var r := LastIndexOfChar(p, '/');
    assert r.Some?;
  }

  /** A directory and its ancestors up to the root. */
  function Lineage(p: string): set<string>
    decreases |p|
  {
    var d := Dirname(p);
    if d == "." || d == "/" then {p} else {p} + Lineage(d)
  }

  /** `q` is `f` or one of its ancestors: a prefix of `f` that ends just before one of its slashes. */
  predicate AncestorOrSelf(q: string, f: string)
  {
    q == f || (|q| < |f| && q == f[..|q|] && f[|q|] == '/')
  }

  /** An ancestor of an ancestor is an ancestor. */
  lemma AncestorTrans(q: string, d: string, f: string)
    requires AncestorOrSelf(q, d) && AncestorOrSelf(d, f)
    ensures AncestorOrSelf(q, f)
  {
    if q != d && d != f {
      assert f[|q|] == d[|q|];
    }
  }

  /** A path's lineage holds the path itself and ancestors of it, never a partial segment. */
  lemma {:induction false} LineagePrefixes(p: string)
    ensures forall q :: q in Lineage(p) ==> AncestorOrSelf(q, p)
    decreases |p|
  {
    var d := Dirname(p);
    if d != "." && d != "/" {
      DirnameSpec(p);
      LineagePrefixes(d);
      forall q | q in Lineage(d) ensures AncestorOrSelf(q, p) {
        AncestorTrans(q, d, p);
      }
    }
  }

  /** The parent of a path is present, or is the current directory or the root. */
  predicate ParentPresent(fs: set<string>, p: string)
  {
    var d := Dirname(p);
    d == "." || d == "/" || d in fs
  }

  /** Every existing path has its parent: true of any real directory tree. */
  predicate Closed(fs: set<string>)
  {
    forall p {:trigger ParentPresent(fs, p)} :: p in fs ==> ParentPresent(fs, p)
  }

  /** Adding a path whose parent is present keeps the tree closed. */
  lemma AddChild(fs: set<string>, p: string)
    requires Closed(fs) && ParentPresent(fs, p)
    ensures Closed(fs + {p})
  {
    forall q | q in fs + {p} ensures ParentPresent(fs + {p}, q) {
      if q != p {
        assert ParentPresent(fs, q);
      }
    }
  }

  /** The lineage of a path holds the parent of each of its members. */
  lemma {:induction false} LineageHasParents(p: string, q: string)
    requires q in Lineage(p)
    ensures ParentPresent(Lineage(p), q)
    decreases |p|
  {
    var d := Dirname(p);
    if q != p {
      LineageHasParents(d, q);
    }
  }

  /** `mkdirSync(dir, { recursive: true })`: the directory exists afterwards, nothing is removed, and only the directory and its ancestors are added. */
  function MakeDirs(fs: set<string>, dir: string): (fs': set<string>)
    ensures fs <= fs' && dir in fs'
    ensures forall q :: q in fs' && q !in fs ==> AncestorOrSelf(q, dir)
  {
    LineagePrefixes(dir);
    fs + Lineage(dir)
  }

  /** Creating a directory with its ancestors keeps the tree closed. */
  lemma MakeDirsClosed(fs: set<string>, dir: string)
    requires Closed(fs)
    ensures Closed(MakeDirs(fs, dir))
  {
    var fs' := MakeDirs(fs, dir);
    forall q | q in fs' ensures ParentPresent(fs', q) {
      if q in Lineage(dir) {
        LineageHasParents(dir, q);
      } else {
        assert ParentPresent(fs, q);
      }
    }
  }

  /** What `git` does for each folder: whether the clone fails, and whether adding the upstream remote fails. */
  datatype Git = Git(cloneFails: set<string>, upstreamFails: set<string>)

  /**
   * What each step did, in order: skipped an existing folder, created a missing parent,
   * cloned or had the clone throw, added the upstream remote or reported that it failed.
   */
  datatype Event =
    | Skipped(folder: string)
    | MadeParent(dir: string)
    | Cloned(folder: string, url: string)
    | CloneFailed(folder: string, url: string)
    | UpstreamAdded(folder: string, remote: string)
    | UpstreamFailed(folder: string, remote: string)

  /** The paths afterwards, the steps taken, and false when a clone threw (which ends the script). */
  datatype Outcome = Outcome(paths: set<string>, events: seq<Event>, ok: bool)

  /** Folder `f` received no clone in `events`. */
  predicate NeverCloned(events: seq<Event>, f: string)
  {
    forall k :: 0 <= k < |events| ==> !(events[k].Cloned? && events[k].folder == f)
  }

  /** `if (upstream)`: the remote to add, none for a missing or empty upstream (JavaScript truthiness). */
  function RemoteOf(upstream: Option<string>): (r: Option<string>)
    ensures r.Some? <==> upstream.Some? && upstream.value != ""
    ensures r.Some? ==> r == upstream
  {
    match upstream
    case Some(u) => if u == "" then None else upstream
    case None => None
  }

  /** `cloneRepo(folder, url, upstream)`: it never removes a path. The root always exists, so it is never made. */
  function CloneStep(fs: set<string>, repo: Repo, git: Git): (o: Outcome)
    ensures fs <= o.paths
  {
    if repo.folder in fs then Outcome(fs, [Skipped(repo.folder)], true)
    else
      var parent := Dirname(repo.folder);
      var made := parent != "." && parent != "/" && parent !in fs;
      var fs1 := if made then MakeDirs(fs, parent) else fs;
      var log1 := if made then [MadeParent(parent)] else [];
      if repo.folder in git.cloneFails then Outcome(fs1, log1 + [CloneFailed(repo.folder, repo.url)], false)
      else
        var log2 := log1 + [Cloned(repo.folder, repo.url)];
        var log3 := match RemoteOf(repo.upstream)
          case None => log2
          case Some(u) => log2 + [if repo.folder in git.upstreamFails then UpstreamFailed(repo.folder, u)
                                  else UpstreamAdded(repo.folder, u)];
        Outcome(fs1 + {repo.folder}, log3, true)
  }

  /**
   * One step leaves the folder present unless the clone threw, only records a skip for an existing
   * folder, and clones into this folder alone, exactly when it was absent and the clone did not throw.
   */
  lemma CloneStepSpec(fs: set<string>, repo: Repo, git: Git)
    ensures var o := CloneStep(fs, repo, git);
      && (o.ok ==> repo.folder in o.paths)
      && (o.ok <==> repo.folder in fs || repo.folder !in git.cloneFails)
      && (repo.folder in fs ==> o == Outcome(fs, [Skipped(repo.folder)], true))
      && (forall f :: f != repo.folder ==> NeverCloned(o.events, f))
      && (NeverCloned(o.events, repo.folder) <==> repo.folder in fs || repo.folder in git.cloneFails)
  {
    var o := CloneStep(fs, repo, git);
    if repo.folder !in fs && repo.folder !in git.cloneFails {
      var clone := Cloned(repo.folder, repo.url);
      assert clone in o.events;
    }
  }

  /** A step that completes reports no failed clone; one that throws ends with the failed clone. */
  lemma CloneStepFailure(fs: set<string>, repo: Repo, git: Git)
    ensures var o := CloneStep(fs, repo, git);
      o.ok ==> forall k :: 0 <= k < |o.events| ==> !o.events[k].CloneFailed?
    ensures var o := CloneStep(fs, repo, git);
      !o.ok ==> o.events != [] && o.events[|o.events| - 1] == CloneFailed(repo.folder, repo.url) && repo.folder in git.cloneFails
  {
  }

  /** A step attempts the upstream remote exactly when it cloned and the upstream is non-empty. */
  lemma CloneStepRemote(fs: set<string>, repo: Repo, git: Git)
    ensures var o := CloneStep(fs, repo, git);
      (exists k :: 0 <= k < |o.events| && (o.events[k].UpstreamAdded? || o.events[k].UpstreamFailed?)) <==>
        repo.folder !in fs && repo.folder !in git.cloneFails && repo.upstream.Some? && repo.upstream.value != ""
  {
    var o := CloneStep(fs, repo, git);
    if repo.folder !in fs && repo.folder !in git.cloneFails && RemoteOf(repo.upstream).Some? {
      assert o.events[|o.events| - 1].UpstreamAdded? || o.events[|o.events| - 1].UpstreamFailed?;
    }
  }

  /** A step creates nothing but the folder and ancestors of it: `mkdir -p` of its parent, then the clone. */
  lemma CloneStepCreatesOnlyLineage(fs: set<string>, repo: Repo, git: Git)
    ensures forall q :: q in CloneStep(fs, repo, git).paths && q !in fs ==> AncestorOrSelf(q, repo.folder)
  {
    var f := repo.folder;
    if f !in fs {
      var parent := Dirname(f);
      if parent != "." && parent != "/" && parent !in fs {
        DirnameSpec(f);
        forall q | q in MakeDirs(fs, parent) && q !in fs ensures AncestorOrSelf(q, f) {
          AncestorTrans(q, parent, f);
        }
      }
    }
  }

  /** A step keeps the tree closed under parents: `cloneRepo` creates a missing parent before cloning. */
  lemma CloneStepClosed(fs: set<string>, repo: Repo, git: Git)
    requires Closed(fs)
    ensures Closed(CloneStep(fs, repo, git).paths)
  {
    if repo.folder !in fs {
      var parent := Dirname(repo.folder);
      var fs1 := fs;
      if parent != "." && parent != "/" && parent !in fs {
        MakeDirsClosed(fs, parent);
        fs1 := MakeDirs(fs, parent);
      }
      assert ParentPresent(fs1, repo.folder);
      AddChild(fs1, repo.folder);
    }
  }

  /** `selectedRepos.forEach(repo => cloneRepo(...))`: a clone that throws ends the run. */
  function CloneAll(fs: set<string>, repos: seq<Repo>, git: Git): (o: Outcome)
    ensures fs <= o.paths
    decreases |repos|
  {
    if repos == [] then Outcome(fs, [], true)
    else
      var first := CloneStep(fs, repos[0], git);
      if !first.ok then first
      else
        var rest := CloneAll(first.paths, repos[1..], git);
        Outcome(rest.paths, first.events + rest.events, rest.ok)
  }

  /** When the run completes, every chosen folder exists. */
  lemma {:induction false} CloneAllGrows(fs: set<string>, repos: seq<Repo>, git: Git)
    ensures var o := CloneAll(fs, repos, git);
      o.ok ==> forall r :: r in repos ==> r.folder in o.paths
    decreases |repos|
  {
    if repos != [] {
      var first := CloneStep(fs, repos[0], git);
      CloneStepSpec(fs, repos[0], git);
      if first.ok {
        CloneAllGrows(first.paths, repos[1..], git);
        assert forall r :: r in repos ==> r == repos[0] || r in repos[1..];
      }
    }
  }

  /** The run keeps the tree closed under parents. */
  lemma {:induction false} CloneAllClosed(fs: set<string>, repos: seq<Repo>, git: Git)
    requires Closed(fs)
    ensures Closed(CloneAll(fs, repos, git).paths)
    decreases |repos|
  {
    if repos != [] {
      CloneStepClosed(fs, repos[0], git);
      var first := CloneStep(fs, repos[0], git);
      if first.ok {
        CloneAllClosed(first.paths, repos[1..], git);
      }
    }
  }

  /** The run creates nothing outside the chosen folders and their ancestors. */
  lemma {:induction false} CloneAllCreatesOnlyLineages(fs: set<string>, repos: seq<Repo>, git: Git)
    ensures forall q :: q in CloneAll(fs, repos, git).paths && q !in fs ==>
      exists k :: 0 <= k < |repos| && AncestorOrSelf(q, repos[k].folder)
    decreases |repos|
  {
    if repos != [] {
      CloneStepCreatesOnlyLineage(fs, repos[0], git);
      var first := CloneStep(fs, repos[0], git);
      if first.ok {
        CloneAllCreatesOnlyLineages(first.paths, repos[1..], git);
        forall q | q in CloneAll(fs, repos, git).paths && q !in fs
          ensures exists k :: 0 <= k < |repos| && AncestorOrSelf(q, repos[k].folder)
        {
          if q in first.paths {
            assert AncestorOrSelf(q, repos[0].folder);
          } else {
            var k :| 0 <= k < |repos[1..]| && AncestorOrSelf(q, repos[1..][k].folder);
            assert repos[1..][k] == repos[k + 1];
          }
        }
      }
    }
  }

  /** One unfolding of the loop: the first repository, then the rest from where it left off. */
  function Continue(first: Outcome, rest: seq<Repo>, git: Git): Outcome
  {
    if !first.ok then first
    else var r := CloneAll(first.paths, rest, git); Outcome(r.paths, first.events + r.events, r.ok)
  }

  /** The loop over a non-empty list is its first `cloneRepo` followed by the rest. */
  lemma CloneAllCons(fs: set<string>, repos: seq<Repo>, git: Git)
    requires repos != []
    ensures CloneAll(fs, repos, git) == Continue(CloneStep(fs, repos[0], git), repos[1..], git)
  {
  }

  /** Running the rest of the list after a prefix continues from the prefix's outcome. */
  lemma {:induction false} CloneAllAppend(fs: set<string>, a: seq<Repo>, b: seq<Repo>, git: Git)
    ensures CloneAll(fs, a + b, git) == Continue(CloneAll(fs, a, git), b, git)
    decreases |a|
  {
    if a == [] {
      assert a + b == b;
      var ob := CloneAll(fs, b, git);
      assert [] + ob.events == ob.events;
    } else {
      var first := CloneStep(fs, a[0], git);
      assert CloneAll(fs, a + b, git) == Continue(first, a[1..] + b, git) by {
        assert (a + b)[0] == a[0] && (a + b)[1..] == a[1..] + b;
      }
      assert CloneAll(fs, a, git) == Continue(first, a[1..], git);
      if first.ok {
        CloneAllAppend(first.paths, a[1..], b, git);
        var oa' := CloneAll(first.paths, a[1..], git);
        if oa'.ok {
          var ob := CloneAll(oa'.paths, b, git);
          assert first.events + (oa'.events + ob.events) == (first.events + oa'.events) + ob.events;
        }
      }
    }
  }

  /** After a completed run over the first `n` repositories, the next one is one more `cloneRepo` from where it left off. */
  lemma CloneAllSnoc(fs: set<string>, repos: seq<Repo>, n: nat, git: Git)
    requires n < |repos| && CloneAll(fs, repos[..n], git).ok
    ensures var o := CloneAll(fs, repos[..n], git);
      var s := CloneStep(o.paths, repos[n], git);
      CloneAll(fs, repos[..n + 1], git) == Outcome(s.paths, o.events + s.events, s.ok)
  {
    assert repos[..n + 1] == repos[..n] + [repos[n]];
    CloneAllAppend(fs, repos[..n], [repos[n]], git);
    var o := CloneAll(fs, repos[..n], git);
    CloneAllSingle(o.paths, repos[n], git);
  }

  /** The loop over one repository is that repository's `cloneRepo`. */
  lemma CloneAllSingle(fs: set<string>, repo: Repo, git: Git)
    ensures CloneAll(fs, [repo], git) == CloneStep(fs, repo, git)
  {
    var s := CloneStep(fs, repo, git);
    assert CloneAll(fs, [repo], git) == Continue(s, [], git) by {
      assert [repo][1..] == [];
      CloneAllCons(fs, [repo], git);
    }
    if s.ok {
      assert s.events + [] == s.events;
    }
  }

  /** A run that failed on the first `n` repositories has the same outcome whatever follows. */
  lemma FailedPrefix(fs: set<string>, repos: seq<Repo>, n: nat, git: Git)
    requires n <= |repos| && !CloneAll(fs, repos[..n], git).ok
    ensures CloneAll(fs, repos, git) == CloneAll(fs, repos[..n], git)
  {
    assert repos == repos[..n] + repos[n..];
    CloneAllAppend(fs, repos[..n], repos[n..], git);
  }

  /** The skip notices for a list whose folders all exist. */
  function Skips(repos: seq<Repo>): (events: seq<Event>)
    ensures |events| == |repos|
    ensures forall k :: 0 <= k < |repos| ==> events[k] == Skipped(repos[k].folder)
  {
    seq(|repos|, k requires 0 <= k < |repos| => Skipped(repos[k].folder))
  }

  /** When every folder already exists the run clones nothing, changes nothing and prints a skip notice per repository. */
  lemma {:induction false} AllPresentSkipsAll(fs: set<string>, repos: seq<Repo>, git: Git)
    requires forall r :: r in repos ==> r.folder in fs
    ensures CloneAll(fs, repos, git) == Outcome(fs, Skips(repos), true)
    decreases |repos|
  {
    if repos != [] {
      assert forall r :: r in repos[1..] ==> r in repos;
      AllPresentSkipsAll(fs, repos[1..], git);
      assert Skips(repos) == [Skipped(repos[0].folder)] + Skips(repos[1..]);
    }
  }

  /** Running the same selection again after a completed run clones nothing. */
  lemma RerunClonesNothing(fs: set<string>, repos: seq<Repo>, git: Git, git': Git)
    requires CloneAll(fs, repos, git).ok
    ensures var o := CloneAll(fs, repos, git);
      CloneAll(o.paths, repos, git') == Outcome(o.paths, Skips(repos), true)
  {
    CloneAllGrows(fs, repos, git);
    var o := CloneAll(fs, repos, git);
    AllPresentSkipsAll(o.paths, repos, git');
  }

  /** A failed upstream remote never stops the run: the paths and the verdict do not depend on it. */
  lemma {:induction false} UpstreamFailureNonFatal(fs: set<string>, repos: seq<Repo>, cloneFails: set<string>,
                                                   up1: set<string>, up2: set<string>)
    ensures CloneAll(fs, repos, Git(cloneFails, up1)).paths == CloneAll(fs, repos, Git(cloneFails, up2)).paths
    ensures CloneAll(fs, repos, Git(cloneFails, up1)).ok == CloneAll(fs, repos, Git(cloneFails, up2)).ok
    decreases |repos|
  {
    if repos != [] {
      var s1 := CloneStep(fs, repos[0], Git(cloneFails, up1));
      var s2 := CloneStep(fs, repos[0], Git(cloneFails, up2));
      assert s1.paths == s2.paths && s1.ok == s2.ok;
      if s1.ok {
        UpstreamFailureNonFatal(s1.paths, repos[1..], cloneFails, up1, up2);
      }
    }
  }

  /** A run that fails ends with the clone that threw. */
  lemma {:induction false} FailureEndsRun(fs: set<string>, repos: seq<Repo>, git: Git)
    ensures var o := CloneAll(fs, repos, git);
      !o.ok ==> o.events != [] && o.events[|o.events| - 1].CloneFailed? && o.events[|o.events| - 1].folder in git.cloneFails
    decreases |repos|
  {
    if repos != [] {
      var first := CloneStep(fs, repos[0], git);
      CloneAllCons(fs, repos, git);
      CloneStepFailure(fs, repos[0], git);
      if first.ok {
        FailureEndsRun(first.paths, repos[1..], git);
        var rest := CloneAll(first.paths, repos[1..], git);
        if !rest.ok {
          assert (first.events + rest.events)[|first.events| + |rest.events| - 1] == rest.events[|rest.events| - 1];
        }
      }
    }
  }

  /** A run that completes contains no failed clone. */
  lemma {:induction false} CompletedRunNeverFailed(fs: set<string>, repos: seq<Repo>, git: Git)
    ensures var o := CloneAll(fs, repos, git);
      o.ok ==> forall k :: 0 <= k < |o.events| ==> !o.events[k].CloneFailed?
    decreases |repos|
  {
    if repos != [] {
      var first := CloneStep(fs, repos[0], git);
      CloneAllCons(fs, repos, git);
      CloneStepFailure(fs, repos[0], git);
      if first.ok {
        CompletedRunNeverFailed(first.paths, repos[1..], git);
        var rest := CloneAll(first.paths, repos[1..], git);
        var all := first.events + rest.events;
        forall k | 0 <= k < |all| ensures rest.ok ==> !all[k].CloneFailed? {
          if k >= |first.events| {
            assert all[k] == rest.events[k - |first.events|];
          }
        }
      }
    }
  }

  /** Once a folder exists, the rest of the run never clones into it. */
  lemma {:induction false} PresentNeverCloned(fs: set<string>, repos: seq<Repo>, git: Git, f: string)
    requires f in fs
    ensures NeverCloned(CloneAll(fs, repos, git).events, f)
    decreases |repos|
  {
    if repos != [] {
      var first := CloneStep(fs, repos[0], git);
      CloneStepSpec(fs, repos[0], git);
      if first.ok {
        PresentNeverCloned(first.paths, repos[1..], git, f);
        var rest := CloneAll(first.paths, repos[1..], git);
        assert forall k :: 0 <= k < |rest.events| ==> (first.events + rest.events)[|first.events| + k] == rest.events[k];
      }
    }
  }

  /** The song detector's parent directory, which `cloneRepo` creates with `mkdir -p`. */
  const ToolsFolder := "_pipeline/tools"

  /** The song detector sits in `_pipeline/tools`, which sits in `_pipeline`. */
  lemma SongDetectorAncestry()
    ensures Dirname(SongDetectorFolder) == ToolsFolder
    ensures Dirname(ToolsFolder) == PipelineFolder
    ensures PipelineFolder in Lineage(ToolsFolder)
  {
    SongDetectorParent();
    ToolsParent();
  }

  /** The song detector's folder sits in `_pipeline/tools`. */
  lemma SongDetectorParent()
    ensures Dirname(SongDetectorFolder) == ToolsFolder
  {
    assert SongDetectorFolder == ToolsFolder + "/" + "song_detector";
    DirnameOfJoin(ToolsFolder, "song_detector");
  }

  /** `_pipeline/tools` sits in `_pipeline`, which is a top-level folder. */
  lemma ToolsParent()
    ensures Dirname(ToolsFolder) == PipelineFolder
    ensures PipelineFolder in Lineage(ToolsFolder)
  {
    assert ToolsFolder == PipelineFolder + "/" + "tools";
    DirnameOfJoin(PipelineFolder, "tools");
  }

  /** A path without a slash lives in the current directory. */
  lemma TopLevel(f: string)
    requires '/' !in f
    ensures Dirname(f) == "."
  {
    DirnameSpec(f);
  }

  /** `cloneRepo` on a folder without a slash creates no parent: it adds the folder at most. */
  lemma TopLevelStep(fs: set<string>, repo: Repo, git: Git)
    requires '/' !in repo.folder
    ensures CloneStep(fs, repo, git).paths <= fs + {repo.folder}
    ensures forall k :: 0 <= k < |CloneStep(fs, repo, git).events| ==> !CloneStep(fs, repo, git).events[k].MadeParent?
  {
    TopLevel(repo.folder);
  }

  /** Every catalog folder but the song detector is top-level: its directory is `.`, so no parent is ever created for it. */
  lemma CatalogParents()
    ensures forall i :: 0 <= i < |Repos| && i != 4 ==> Dirname(Repos[i].folder) == "."
    ensures Dirname(Repos[4].folder) == ToolsFolder
  {
    forall i | 0 <= i < |Repos| && i != 4 ensures Dirname(Repos[i].folder) == "." {
      SingleSegmentFolders();
      TopLevel(Repos[i].folder);
    }
    SongDetectorParent();
  }

  /** Handling the song detector leaves `_pipeline` present, whether it was cloned, skipped or failed. */
  lemma SongDetectorMakesPipeline(fs: set<string>, repo: Repo, git: Git)
    requires Closed(fs) && repo.folder == SongDetectorFolder
    ensures PipelineFolder in CloneStep(fs, repo, git).paths
  {
    SongDetectorAncestry();
    hide Dirname, Lineage;
    if repo.folder in fs {
      assert ParentPresent(fs, SongDetectorFolder);
    }
    if ToolsFolder in fs {
      assert ParentPresent(fs, ToolsFolder);
    }
  }

  /**
   * If the song detector comes before every `_pipeline` entry, `_pipeline` is never cloned:
   * creating the song detector's parent makes `_pipeline` exist, so its own clone is skipped.
   */
  lemma {:induction false} PipelineShadowed(fs: set<string>, repos: seq<Repo>, git: Git, i: nat)
    requires Closed(fs)
    requires i < |repos| && repos[i].folder == SongDetectorFolder
    requires forall k :: 0 <= k < i ==> repos[k].folder != PipelineFolder
    ensures NeverCloned(CloneAll(fs, repos, git).events, PipelineFolder)
    decreases i
  {
    hide CloneStep;
    var first := CloneStep(fs, repos[0], git);
    CloneStepSpec(fs, repos[0], git);
    assert PipelineFolder != SongDetectorFolder;
    assert NeverCloned(first.events, PipelineFolder);
    if first.ok {
      var rest := CloneAll(first.paths, repos[1..], git);
      if i == 0 {
        SongDetectorMakesPipeline(fs, repos[0], git);
        PresentNeverCloned(first.paths, repos[1..], git, PipelineFolder);
      } else {
        CloneStepClosed(fs, repos[0], git);
        PipelineShadowed(first.paths, repos[1..], git, i - 1);
      }
      assert forall k :: 0 <= k < |rest.events| ==> (first.events + rest.events)[|first.events| + k] == rest.events[k];
    }
  }

  /**
   * For the catalog itself: whenever the song detector is part of what ENTER hands over
   * (ticked, or nothing ticked at all), `_pipeline` is never cloned, because it comes later.
   */
  lemma SelectionShadowsPipeline(fs: set<string>, flags: seq<bool>, git: Git)
    requires Closed(fs) && |flags| == |Repos|
    requires flags[4] || true !in flags
    ensures NeverCloned(CloneAll(fs, Menu.Chosen(Repos, flags), git).events, PipelineFolder)
  {
    CatalogFoldersDistinct();
    assert forall k :: 0 <= k < 4 ==> Repos[k].folder != Repos[8].folder;
    var chosen := Menu.Chosen(Repos, flags);
    if true !in flags {
      PipelineShadowed(fs, chosen, git, 4);
    } else {
      var head := Menu.Flagged(Repos[..4], flags[..4]);
      assert Menu.Flagged([Repos[4]], [flags[4]]) == [Repos[4]];
      assert Repos[..5] == Repos[..4] + [Repos[4]] && flags[..5] == flags[..4] + [flags[4]];
      Menu.FlaggedAppend(Repos[..4], flags[..4], [Repos[4]], [flags[4]]);
      assert Repos == Repos[..5] + Repos[5..] && flags == flags[..5] + flags[5..];
      Menu.FlaggedAppend(Repos[..5], flags[..5], Repos[5..], flags[5..]);
      assert chosen == head + [Repos[4]] + Menu.Flagged(Repos[5..], flags[5..]);
      SubsequenceMembers(head, Repos[..4]);
      forall k | 0 <= k < |head| ensures chosen[k].folder != PipelineFolder {
        assert chosen[k] == head[k] && head[k] in Repos[..4];
      }
      assert chosen[|head|] == Repos[4];
      PipelineShadowed(fs, chosen, git, |head|);
    }
  }

  /** What the script changes: the existing paths, the steps it took and the workspace file. */
  class Disk {
    var paths: set<string>
    var log: seq<Event>
    var workspaceFile: Option<Workspace.Document>

    constructor (existing: set<string>)
      ensures paths == existing && log == [] && workspaceFile == None
    {
      paths := existing;
      log := [];
      workspaceFile := None;
    }

    /** `cloneRepo`: returns false where the script's clone throws. */
    method CloneRepo(repo: Repo, git: Git) returns (ok: bool)
      modifies this
      ensures paths == CloneStep(old(paths), repo, git).paths
      ensures log == old(log) + CloneStep(old(paths), repo, git).events
      ensures ok == CloneStep(old(paths), repo, git).ok
      ensures workspaceFile == old(workspaceFile)
    {
      if repo.folder in paths {
        log := log + [Skipped(repo.folder)];
        return true;
      }
      var parent := Dirname(repo.folder);
      var made := parent != "." && parent != "/" && parent !in paths;
      var events: seq<Event> := if made then [MadeParent(parent)] else [];
      if made {
        paths := MakeDirs(paths, parent);
      }
      if repo.folder in git.cloneFails {
        log := log + (events + [CloneFailed(repo.folder, repo.url)]);
        return false;
      }
      paths := paths + {repo.folder};
      events := events + [Cloned(repo.folder, repo.url)];
      var upstream := RemoteOf(repo.upstream);
      if upstream.Some? {
        var remote := upstream.value;
        events := events + [if repo.folder in git.upstreamFails then UpstreamFailed(repo.folder, remote)
                            else UpstreamAdded(repo.folder, remote)];
      }
      log := log + events;
      ok := true;
    }

    /** `selectedRepos.forEach(...)`: `cloneRepo` for each chosen repository in order, stopping where a clone throws. */
    method CloneEach(chosen: seq<Repo>, git: Git) returns (ok: bool)
      modifies this
      ensures paths == CloneAll(old(paths), chosen, git).paths
      ensures log == old(log) + CloneAll(old(paths), chosen, git).events
      ensures ok == CloneAll(old(paths), chosen, git).ok
      ensures workspaceFile == old(workspaceFile)
    {
      // Only the composition lemmas are needed here, not what a single step does.
      hide CloneStep;
      ghost var start, startLog := paths, log;
      ghost var done := Outcome(paths, [], true);
      var i := 0;
      while i < |chosen|
        invariant 0 <= i <= |chosen|
        invariant done == CloneAll(start, chosen[..i], git)
        invariant done.ok && paths == done.paths && log == startLog + done.events
        invariant workspaceFile == old(workspaceFile)
      {
        ghost var step := CloneStep(paths, chosen[i], git);
        var stepOk := CloneRepo(chosen[i], git);
        ghost var next := Outcome(paths, done.events + step.events, stepOk);
        assert next == CloneAll(start, chosen[..i + 1], git) by {
          CloneAllSnoc(start, chosen, i, git);
        }
        assert log == startLog + next.events by {
          ghost var doneLog, stepLog := done.events, step.events;
          assert (startLog + doneLog) + stepLog == startLog + (doneLog + stepLog);
        }
        if !stepOk {
          assert next == CloneAll(start, chosen, git) by {
            FailedPrefix(start, chosen, i + 1, git);
          }
          return false;
        }
        done := next;
        i := i + 1;
      }
      assert chosen[..i] == chosen;
      ok := true;
    }

    /** `runCloning`: clone in chosen order, then write the workspace file unless a clone threw. */
    method RunCloning(chosen: seq<Repo>, git: Git) returns (ok: bool)
      modifies this
      ensures paths == CloneAll(old(paths), chosen, git).paths
      ensures log == old(log) + CloneAll(old(paths), chosen, git).events
      ensures ok == CloneAll(old(paths), chosen, git).ok
      ensures workspaceFile == if ok then Some(Workspace.GeneratedDocument(chosen)) else old(workspaceFile)
    {
      ok := CloneEach(chosen, git);
      if ok {
        workspaceFile := Some(Workspace.GeneratedDocument(chosen));
      }
    }
  }
}
