/**
 * The static data of the setup script: the repositories it can clone, in
 * declaration order, and the workspace-folder entry written for each folder.
 */
module Catalog {
  import opened Wrappers
  import opened Seqs

  /** A repository the script can clone: target folder (its key), clone URL, optional second remote. */
  datatype Repo = Repo(folder: string, url: string, upstream: Option<string>)

  /** An entry of the workspace's `folders` array; `settings` is absent on some entries. */
  datatype FolderEntry = FolderEntry(path: string, name: string, settings: Option<map<string, string>>)

  const SongDetectorFolder: string := "_pipeline/tools/song_detector"
  const PipelineFolder: string := "_pipeline"

  /** The catalog, in the order the menu shows it and the clones run. */
  const Repos: seq<Repo> := [
    Repo("frontend", "https://github.com/YeonV/LedFx-Frontend-v2.git", None),
    Repo("backend", "https://github.com/LedFx/LedFx.git", None),
    Repo("_audio-visualiser", "https://github.com/Mattallmighty/audio-visualiser.git",
         Some("https://github.com/YeonV/audio-visualiser.git")),
    Repo("_react-dynamic-module", "https://github.com/YeonV/react-dynamic-module.git", None),
    Repo(SongDetectorFolder, "https://github.com/YeonV/LedFx-Builds.git", None),
    Repo("_python-for-android", "https://github.com/YeonV/python-for-android.git",
         Some("https://github.com/broccoliboy/python-for-android.git")),
    Repo("_pipeline_android", "https://github.com/YeonV/ledfx-android.git",
         Some("https://github.com/broccoliboy/ledfx-android.git")),
    Repo("_download", "https://github.com/YeonV/LedFx-Builds.git", None),
    Repo(PipelineFolder, "https://github.com/YeonV/ledfx-web.git", None)
  ]

  /** The folder-name to workspace-entry table (the script holds two identical copies of it). */
  const FolderTemplates: map<string, FolderEntry> := map[
    "frontend" := FolderEntry("frontend", "[Frontend] Web + CC", Some(map["npm.packageManager" := "yarn"])),
    "backend" := FolderEntry("backend", "[Backend] Core", None),
    "_audio-visualiser" := FolderEntry("_audio-visualiser", "[Visualiser]", Some(map["npm.packageManager" := "pnpm"])),
    "_react-dynamic-module" := FolderEntry("_react-dynamic-module", "[Dynamic Module]", Some(map["npm.packageManager" := "yarn"])),
    SongDetectorFolder := FolderEntry(SongDetectorFolder, "[Song Detector]", None),
    "_python-for-android" := FolderEntry("_python-for-android", "[Python For Android]", None),
    "_pipeline_android" := FolderEntry("_pipeline_android", "[Build Android]", None),
    "_download" := FolderEntry("_download", "[Download Page]", Some(map["npm.packageManager" := "yarn"])),
    PipelineFolder := FolderEntry(PipelineFolder, "[Build]", None)
  ]

  /** Folder names are unique keys of the catalog, so the catalog has no repeated entry. */
  lemma CatalogFoldersDistinct()
    ensures forall i, j :: 0 <= i < j < |Repos| ==> Repos[i].folder != Repos[j].folder
    ensures Distinct(Repos)
  {
  }

  /** Every catalog folder has a template. */
  lemma TemplatesCoverCatalog()
    ensures forall r :: r in Repos ==> r.folder in FolderTemplates
  {
    forall i | 0 <= i < |Repos| ensures Repos[i].folder in FolderTemplates {
    }
  }

  /** A template's path is its own non-empty key and its display name is non-empty. */
  lemma TemplatesKeyedByPath()
    ensures forall k :: k in FolderTemplates ==> FolderTemplates[k].path == k && k != "" && FolderTemplates[k].name != ""
  {
  }

  /** Every catalog folder but the song detector's is a single path segment. */
  lemma SingleSegmentFolders()
    ensures forall i :: 0 <= i < |Repos| && i != 4 ==> '/' !in Repos[i].folder
  {
    SlashFreeNames();
  }

  /** The single-segment folder names, one by one. */
  lemma SlashFreeNames()
    ensures '/' !in "frontend"
    ensures '/' !in "backend"
    ensures '/' !in "_audio-visualiser"
    ensures '/' !in "_react-dynamic-module"
    ensures '/' !in "_python-for-android"
    ensures '/' !in "_pipeline_android"
    ensures '/' !in "_download"
    ensures '/' !in "_pipeline"
  {
  }
}
