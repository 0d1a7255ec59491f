/** The label the selection menu prints for a repository. */
module Labels {
  import opened Wrappers
  import opened Strings
  import opened Catalog

  /** The last `/`-separated segment of a URL (`url.split('/').pop()`): its longest suffix without a slash. */
  function LastSegment(url: string): (seg: string)
    ensures '/' !in seg
    ensures |seg| <= |url| && seg == url[|url| - |seg|..]
    ensures |seg| < |url| ==> url[|url| - |seg| - 1] == '/'
  {
    match LastIndexOfChar(url, '/')
    case None => url
    case Some(k) => url[k + 1..]
  }

  /** `s.replace(pat, '')`: only the first occurrence of `pat` is removed. */
  function RemoveFirst(s: string, pat: string): (r: string)
    ensures (forall j :: 0 <= j ==> !OccursAt(s, pat, j)) ==> r == s
    ensures forall i: nat :: OccursAt(s, pat, i) && (forall j :: 0 <= j < i ==> !OccursAt(s, pat, j)) ==>
                          r == s[..i] + s[i + |pat|..]
  {
    match IndexOf(s, pat)
    case None => s
    case Some(i) => s[..i] + s[i + |pat|..]
  }

  /**
   * The menu label: the template's non-empty `name` when the table has the folder,
   * otherwise the folder itself, otherwise the URL's last segment without its first ".git".
   */
  function MenuLabel(repo: Repo): string
  {
    var friendly := if repo.folder in FolderTemplates then FolderTemplates[repo.folder].name else "";
    if friendly != "" then friendly
    else if repo.folder != "" then repo.folder
    else RemoveFirst(LastSegment(repo.url), ".git")
  }

  /**
   * The three sources of a label, in order: a template's name, the folder, the URL's last segment
   * without ".git".
   */
  lemma MenuLabelSpec(repo: Repo)
    ensures repo.folder in FolderTemplates ==> MenuLabel(repo) == FolderTemplates[repo.folder].name
    ensures repo.folder !in FolderTemplates && repo.folder != "" ==> MenuLabel(repo) == repo.folder
    ensures repo.folder == "" ==> MenuLabel(repo) == RemoveFirst(LastSegment(repo.url), ".git")
  {
    hide *;
    if repo.folder in FolderTemplates {
      TemplatesKeyedByPath();
      TemplatedLabel(repo);
    } else if repo.folder == "" {
      FallbackLabel(repo);
    } else {
      FolderLabel(repo);
    }
  }

  /** A folder without a template is labelled with the folder itself. */
  lemma FolderLabel(repo: Repo)
    requires repo.folder !in FolderTemplates && repo.folder != ""
    ensures MenuLabel(repo) == repo.folder
  {
  }

  /** Every catalog entry is labelled with its template's name. */
  lemma CatalogLabels()
    ensures forall i :: 0 <= i < |Repos| ==> MenuLabel(Repos[i]) == FolderTemplates[Repos[i].folder].name
  {
    TemplatesCoverCatalog();
    forall i | 0 <= i < |Repos| ensures MenuLabel(Repos[i]) == FolderTemplates[Repos[i].folder].name {
      assert Repos[i] in Repos;
      TemplatedLabel(Repos[i]);
    }
  }

  /** A folder with a template is labelled with the template's name. */
  lemma TemplatedLabel(repo: Repo)
    requires repo.folder in FolderTemplates
    ensures MenuLabel(repo) == FolderTemplates[repo.folder].name
  {
    TemplatesKeyedByPath();
  }

  /** The last segment of `prefix/tail` is `tail` when `tail` has no slash. */
  lemma LastSegmentOfJoin(prefix: string, tail: string)
    requires '/' !in tail
    ensures LastSegment(prefix + "/" + tail) == tail
  {
    var url := prefix + "/" + tail;
    var seg := LastSegment(url);
    assert url[|prefix|] == '/';
    assert url[|url| - |tail|..] == tail;
  }

  /** Removing the first ".git" from `name + ".git"` gives `name` back when `name` has no dot. */
  lemma StripGitSuffix(name: string)
    requires '.' !in name
    ensures RemoveFirst(name + ".git", ".git") == name
  {
    var tail := name + ".git";
    assert OccursAt(tail, ".git", |name|) by {
      assert tail[|name|..|name| + 4] == ".git";
    }
    forall j: nat | j < |name| ensures !OccursAt(tail, ".git", j) {
      assert tail[j] == name[j];
    }
    assert tail[..|name|] + tail[|name| + 4..] == name;
  }

  /** With no folder, the label comes from the URL: no template is keyed by the empty folder. */
  lemma FallbackLabel(repo: Repo)
    requires repo.folder == ""
    ensures MenuLabel(repo) == RemoveFirst(LastSegment(repo.url), ".git")
  {
    assert "" !in FolderTemplates;
  }

  /** The last segment of `prefix/name.git` is `name.git` when `name` has no slash. */
  lemma LastSegmentOfGitUrl(prefix: string, name: string)
    requires '/' !in name
    ensures LastSegment(prefix + "/" + name + ".git") == name + ".git"
  {
    var tail := name + ".git";
    assert '/' !in tail by {
      assert forall k :: 0 <= k < |name| ==> tail[k] == name[k];
      assert tail[|name|..] == ".git";
    }
    assert prefix + "/" + name + ".git" == prefix + "/" + tail;
    LastSegmentOfJoin(prefix, tail);
  }

  /** An entry with no folder falls back to its repository name taken from the URL. */
  lemma LabelFromUrl(prefix: string, name: string, upstream: Option<string>)
    requires '/' !in name && '.' !in name
    ensures MenuLabel(Repo("", prefix + "/" + name + ".git", upstream)) == name
  {
    FallbackLabel(Repo("", prefix + "/" + name + ".git", upstream));
    LastSegmentOfGitUrl(prefix, name);
    StripGitSuffix(name);
  }
}
