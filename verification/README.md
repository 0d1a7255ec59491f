# LedFx workspace setup script, modelled in Dafny

`ledfx-dev/ledfx.setup.js` prepares an LedFx development workspace in three stages:

- **Menu.** An interactive terminal menu lists a fixed catalog of nine repositories. UP and DOWN move a wrapping cursor, SPACE ticks or unticks the entry under the cursor, and ENTER confirms.
- **Cloning.** Each chosen repository is cloned into its folder unless that folder already exists. A missing parent directory is created first. Repositories that have an upstream fork also get an `upstream` remote.
- **Workspace file.** The script writes `ledfx.code-workspace`. It lists the chosen repositories' folder entries and keeps the tasks that hold no folder reference and those whose `${workspaceFolder:<name>}` reference names one of those folders. A `__welcome__` folder entry is then appended unless one is already there.

The model is split into modules:

| file | module | what it holds |
|---|---|---|
| `wrappers.dfy` | `Wrappers` | `Option` |
| `seqs.dfy` | `Seqs` | subsequences and distinctness |
| `strings.dfy` | `Strings` | first/last character and first substring search |
| `catalog.dfy` | `Catalog` | the repository catalog and the folder-template table (the script holds two identical copies of the table; it is defined once here) |
| `labels.dfy` | `Labels` | the menu label of a repository |
| `menu.dfy` | `Menu` | key classification, cursor and flag transitions, the ENTER rule, and the `SelectionMenu` class holding the cursor and the `selected` array |
| `workspace.dfy` | `Workspace` | workspace-folder reference extraction, task filtering, folder selection, document assembly and the welcome append |
| `cloning.dfy` | `Cloning` | `dirname`, `mkdir -p` and `cloneRepo` over a set of existing paths, the clone loop, and the `Disk` class whose methods perform them |

The filesystem is a set of existing paths. Git is a parameter naming the folders whose clone throws and those whose `git remote add` fails. Keystrokes are the strings the terminal delivers.

## Model

| member | source | states |
|---|---|---|
| Catalog.CatalogFoldersDistinct | ledfx-dev/ledfx.setup.js:8-48 | the nine catalog entries have pairwise distinct folders, so the catalog has no repeated entry |
| Catalog.TemplatesCoverCatalog | ledfx-dev/ledfx.setup.js:171-181 | every catalog folder has a folder template |
| Catalog.TemplatesKeyedByPath | ledfx-dev/ledfx.setup.js:171-181 | each template's path is its own key, no key is empty, and every display name is non-empty |
| Catalog.SingleSegmentFolders | ledfx-dev/ledfx.setup.js:8-48 | every catalog folder except the song detector's is a single path segment, without a `/` |
| Catalog.SlashFreeNames | ledfx-dev/ledfx.setup.js:8-48 | the eight single-segment catalog folder names contain no `/` |
| Strings.LastIndexOfChar | ledfx-dev/ledfx.setup.js:56 | the position found holds the character and none follows it; nothing is found only when the string lacks the character |
| Strings.IndexOf | ledfx-dev/ledfx.setup.js:128 | the position found starts an occurrence of the pattern and none starts earlier; nothing is found only when the pattern occurs nowhere |
| Strings.IndexOfChar | ledfx-dev/ledfx.setup.js:256 | the position found holds the character and none comes before it; nothing is found only when the string lacks the character |
| Labels.LastSegment | ledfx-dev/ledfx.setup.js:128 | `url.split('/').pop()` is the suffix of the URL after its last `/`: it contains no `/` and is preceded by `/` when shorter than the URL |
| Labels.RemoveFirst | ledfx-dev/ledfx.setup.js:128 | `replace('.git', '')` removes the first occurrence of the pattern and returns the string unchanged when there is none |
| Labels.CatalogLabels | ledfx-dev/ledfx.setup.js:127-128 | every catalog entry is labelled with its folder template's display name |
| Labels.MenuLabelSpec | ledfx-dev/ledfx.setup.js:127-128 | the contract of `MenuLabel`, the first truthy one of three candidates: a folder with a template gets the template's name; a non-empty folder without one gets the folder itself; an empty folder gets the URL's last segment with its first `.git` removed |
| Labels.FolderLabel | ledfx-dev/ledfx.setup.js:127-128 | a repository whose non-empty folder has no template is labelled with the folder itself |
| Labels.TemplatedLabel | ledfx-dev/ledfx.setup.js:127-128 | a repository whose folder has a template is labelled with that template's display name |
| Labels.FallbackLabel | ledfx-dev/ledfx.setup.js:127-128 | a repository with an empty folder is labelled with its URL's last segment, first `.git` removed |
| Labels.LastSegmentOfGitUrl | ledfx-dev/ledfx.setup.js:128 | the last segment of `prefix/name.git` is `name.git` when `name` has no slash |
| Labels.LastSegmentOfJoin | ledfx-dev/ledfx.setup.js:128 | the last path segment of `prefix/tail` is `tail` when `tail` has no slash |
| Labels.StripGitSuffix | ledfx-dev/ledfx.setup.js:128 | stripping `.git` from `name.git` gives `name` when `name` has no dot |
| Labels.LabelFromUrl | ledfx-dev/ledfx.setup.js:127-128 | a repository with no template and an empty folder is labelled with its URL's last segment without `.git` |
| Menu.MoveUp | ledfx-dev/ledfx.setup.js:150-152 | UP keeps the cursor in range and moves it back one, wrapping from the first entry to the last |
| Menu.ClassifySpec | ledfx-dev/ledfx.setup.js:142-159 | the contract of `Classify`: each of the five chunks the handler compares against (Ctrl+C, `\r`, the UP and DOWN escape sequences, a space) gives its own key, and exactly those do; any chunk whose length is neither 1 nor 3 is ignored |
| Menu.MoveDown | ledfx-dev/ledfx.setup.js:153-155 | DOWN keeps the cursor in range and moves it forward one, wrapping from the last entry to the first |
| Menu.UpDownInverse | ledfx-dev/ledfx.setup.js:150-155 | UP then DOWN, and DOWN then UP, return the cursor to where it was |
| Menu.DownTimes | ledfx-dev/ledfx.setup.js:153-155 | any number of DOWN presses leaves the cursor in range |
| Menu.DownTimesAdvances | ledfx-dev/ledfx.setup.js:153-155 | k ≤ n DOWN presses advance the cursor by k modulo the catalog size |
| Menu.FullCycle | ledfx-dev/ledfx.setup.js:153-155 | as many DOWN presses as there are entries bring the cursor back to where it was |
| Menu.Toggle | ledfx-dev/ledfx.setup.js:156-158 | SPACE flips the flag under the cursor and no other |
| Menu.ToggleTwice | ledfx-dev/ledfx.setup.js:156-158 | SPACE twice on the same entry restores the flags |
| Menu.ToggleAll | ledfx-dev/ledfx.setup.js:156-158 | a run of SPACE presses keeps one flag per entry |
| Menu.ToggleAllAt | ledfx-dev/ledfx.setup.js:156-158 | after a run of SPACE presses each flag is flipped exactly when it was pressed an odd number of times |
| Menu.ToggleOrderIrrelevant | ledfx-dev/ledfx.setup.js:156-158 | two runs of SPACE presses with the same press counts per entry give the same flags, whatever their order |
| Menu.Flagged | ledfx-dev/ledfx.setup.js:148 | `repos.filter((_, idx) => selected[idx])` is a subsequence of the catalog, so it keeps catalog order |
| Menu.FlaggedMembers | ledfx-dev/ledfx.setup.js:148 | an entry is kept exactly when it stands at a flagged position |
| Menu.FlaggedAppend | ledfx-dev/ledfx.setup.js:148 | the filter distributes over concatenation |
| Menu.ChosenSpec | ledfx-dev/ledfx.setup.js:148 | on ENTER the chosen list is in catalog order; with any flag set it holds exactly the flagged entries (both directions), and with none set it is the whole catalog |
| Menu.ChosenIsUnique | ledfx-dev/ledfx.setup.js:148 | any in-order sublist of the catalog holding exactly the flagged entries is the chosen list |
| Menu.Unselected | ledfx-dev/ledfx.setup.js:79 | the initial flags: one per entry, none set |
| Menu.ConfirmAtStart | ledfx-dev/ledfx.setup.js:148 | ENTER before any SPACE hands the whole catalog to cloning |
| Menu.SelectionMenu.constructor | ledfx-dev/ledfx.setup.js:79-80 | the menu starts with the cursor on the first entry and no flag set |
| Menu.SelectionMenu.Step | ledfx-dev/ledfx.setup.js:142-159 | one keystroke: Ctrl+C exits; ENTER confirms the chosen list and changes nothing; UP/DOWN move the cursor and SPACE flips the flag under it, each redrawing; any other input is ignored; the cursor stays in range |
| Workspace.MatchAtSpec | ledfx-dev/ledfx.setup.js:256 | the pattern `\$\{workspaceFolder:([^}]+)}` matches at a position exactly when `${workspaceFolder:`, a non-empty name without `}`, and `}` follow there; the capture is that name |
| Workspace.MatchAtText | ledfx-dev/ledfx.setup.js:256 | a match at a position captures a non-empty name without `}` that stands there as `${workspaceFolder:name}` |
| Workspace.RefTextMatches | ledfx-dev/ledfx.setup.js:256 | `${workspaceFolder:name}` at a position, with a non-empty name without `}`, is a match there capturing `name` |
| Workspace.FindFrom | ledfx-dev/ledfx.setup.js:256 | the search finds nothing exactly when no position matches, and otherwise returns the capture of the leftmost match |
| Workspace.FolderRefSpec | ledfx-dev/ledfx.setup.js:256-257 | `cwd.match(...)` yields the capture of the leftmost reference in the string, or nothing when the string holds no reference |
| Workspace.NoColonNoRef | ledfx-dev/ledfx.setup.js:256 | a working directory without a colon, such as `${workspaceFolder}/../`, holds no folder reference |
| Workspace.RefOf | ledfx-dev/ledfx.setup.js:256 | `${workspaceFolder:name}` refers to `name` for every non-empty name without `}` |
| Workspace.FilterTasks | ledfx-dev/ledfx.setup.js:253-264 | the kept tasks are a subsequence of the templates, and a task is kept exactly when it has no working directory, holds no reference, or refers to a selected folder name |
| Workspace.InitRef | ledfx-dev/ledfx.setup.js:183-192 | the init task refers to no folder |
| Workspace.BackendRefs | ledfx-dev/ledfx.setup.js:193-220 | both backend tasks refer to `[Backend] Core` |
| Workspace.FrontendRefs | ledfx-dev/ledfx.setup.js:202-228 | both frontend tasks refer to `[Frontend] Web + CC` |
| Workspace.VisualiserRefs | ledfx-dev/ledfx.setup.js:229-246 | both visualiser tasks refer to `[Visualiser]` |
| Workspace.TemplateRefs | ledfx-dev/ledfx.setup.js:183-247 | the folder each of the seven task templates refers to |
| Workspace.FilterTasksAppend | ledfx-dev/ledfx.setup.js:253-264 | the task filter distributes over concatenation |
| Workspace.FilterTasksCons | ledfx-dev/ledfx.setup.js:253-264 | filtering a list with a first task keeps or drops that task and filters the rest |
| Workspace.FilterTemplates | ledfx-dev/ledfx.setup.js:183-264 | the filtered template list keeps the init task always and each folder task exactly when its folder's name is selected |
| Workspace.SelectedFolders | ledfx-dev/ledfx.setup.js:250 | `map(...).filter(Boolean)` yields at most one entry per chosen repository, and exactly the templates of chosen folders that have one |
| Workspace.SelectedFoldersAppend | ledfx-dev/ledfx.setup.js:250 | folder selection distributes over concatenation |
| Workspace.SelectedFoldersAllTemplated | ledfx-dev/ledfx.setup.js:250 | when every chosen folder has a template, the selected folders are those templates in chosen order |
| Workspace.Names | ledfx-dev/ledfx.setup.js:251 | one display name per selected folder: the name at each position is that folder's `name` |
| Workspace.BuildDocumentSpec | ledfx-dev/ledfx.setup.js:250-275 | the contract of `BuildDocument`: `folders` is a list holding exactly the templates of the chosen folders that have one; the settings are `workbench.startupEditor: readme` and the task version `2.0.0`; the tasks keep template order, and a template is kept exactly when it has no folder reference or its reference names a selected folder |
| Workspace.WithWelcome | ledfx-dev/ledfx.setup.js:277-289 | the result has a folder list with a `__welcome__` entry, and when there was none it is the old entries followed by exactly `{ path: "__welcome__", name: "_Welcome_" }`; a non-list `folders` becomes a list; old entries stay as a prefix and at most one entry is added; settings and tasks are untouched; a document that already has the entry is unchanged |
| Workspace.WelcomeIdempotent | ledfx-dev/ledfx.setup.js:277-289 | appending the welcome entry twice is the same as once |
| Workspace.TemplatesAvoidWelcome | ledfx-dev/ledfx.setup.js:171-181 | no folder template uses the `__welcome__` path |
| Workspace.GeneratedFolders | ledfx-dev/ledfx.setup.js:250-289 | the final workspace folders are the selected folders followed by exactly one welcome entry |
| Workspace.EmptyChoiceDocument | ledfx-dev/ledfx.setup.js:250-289 | with nothing chosen the workspace holds only the welcome folder and the init task, with the fixed settings and task version |
| Workspace.FrontendBackendTasks | ledfx-dev/ledfx.setup.js:183-264 | with the backend and frontend names selected and the visualiser not, the kept tasks are the init task and the four backend/frontend tasks in template order |
| Workspace.FrontendBackendKept | ledfx-dev/ledfx.setup.js:193-246 | with the backend and frontend names selected and the visualiser not, the filter keeps each backend and frontend task and drops both visualiser tasks |
| Workspace.FrontendBackendDocument | ledfx-dev/ledfx.setup.js:250-289 | choosing frontend and backend yields their two folders plus the welcome entry, and five tasks |
| Cloning.Dirname | ledfx-dev/ledfx.setup.js:56 | `path.dirname` is `.`, `/`, or a strictly shorter prefix of the path (its exact value is stated by `DirnameSpec`) |
| Cloning.DirnameSpec | ledfx-dev/ledfx.setup.js:56 | `path.dirname` is `.` for a path without `/`; `/` when the only `/` leads, and only for a path that starts with `/`; otherwise it is the prefix of the path that ends just before the last `/` |
| Cloning.TopLevel | ledfx-dev/ledfx.setup.js:56-57 | a folder without `/` has parent `.` |
| Cloning.TopLevelStep | ledfx-dev/ledfx.setup.js:53-60 | `cloneRepo` on a folder without `/` logs no parent creation and adds no path but the folder |
| Cloning.CatalogParents | ledfx-dev/ledfx.setup.js:56-57 | every catalog folder but the song detector's has parent `.`; the song detector's parent is `_pipeline/tools` |
| Cloning.LineagePrefixes | ledfx-dev/ledfx.setup.js:58 | every directory `mkdir -p` creates for a path is that path or one of its ancestors: a prefix of it that ends just before one of its `/` |
| Cloning.DirnameOfJoin | ledfx-dev/ledfx.setup.js:56 | the directory of `parent/child` is `parent` when `child` has no slash |
| Cloning.LineageHasParents | ledfx-dev/ledfx.setup.js:58 | every directory `mkdir -p` creates has its own parent among those created |
| Cloning.MakeDirs | ledfx-dev/ledfx.setup.js:57-59 | after `mkdirSync(parent, { recursive: true })` the directory exists, no existing path is removed, and every path added is the directory or one of its ancestors (a prefix ending just before a `/`) |
| Cloning.MakeDirsClosed | ledfx-dev/ledfx.setup.js:57-59 | creating a directory with its ancestors keeps the tree closed under parents |
| Cloning.CloneStep | ledfx-dev/ledfx.setup.js:52-72 | `cloneRepo` never removes a path |
| Cloning.CloneStepSpec | ledfx-dev/ledfx.setup.js:52-72 | `cloneRepo` succeeds exactly when the folder existed or its clone did not throw, and then the folder exists; on an existing folder it only records a skip; it clones into no other folder, and clones into this one exactly when the folder was absent and the clone did not throw |
| Cloning.RemoteOf | ledfx-dev/ledfx.setup.js:61 | `if (upstream)`: a remote is added exactly for a present, non-empty upstream, and it is that upstream |
| Cloning.CloneStepRemote | ledfx-dev/ledfx.setup.js:53-67 | `cloneRepo` attempts `git remote add upstream` exactly when the folder was absent, the clone did not throw and the upstream is non-empty |
| Cloning.CloneStepCreatesOnlyLineage | ledfx-dev/ledfx.setup.js:53-60 | every path `cloneRepo` adds is its folder or an ancestor of it (a prefix ending just before a `/`) |
| Cloning.CloneStepFailure | ledfx-dev/ledfx.setup.js:53-68 | a step that completes records no failed clone; a step that throws ends with the failed clone of its own folder, whose clone is among the failing ones |
| Cloning.CloneStepClosed | ledfx-dev/ledfx.setup.js:52-72 | `cloneRepo` keeps the tree closed under parents, because it creates a missing parent before cloning |
| Cloning.CloneAll | ledfx-dev/ledfx.setup.js:163-166 | the clone loop never removes a path |
| Cloning.CloneAllClosed | ledfx-dev/ledfx.setup.js:163-166 | the clone loop keeps the tree closed under parents |
| Cloning.CloneAllCreatesOnlyLineages | ledfx-dev/ledfx.setup.js:163-166 | every path the clone loop adds is a chosen folder or an ancestor of one (a prefix ending just before a `/`) |
| Cloning.CloneAllCons | ledfx-dev/ledfx.setup.js:163-166 | the loop over a non-empty list is the first `cloneRepo`, then, unless it threw, the loop over the rest from that state with the steps appended |
| Cloning.CloneAllSingle | ledfx-dev/ledfx.setup.js:163-166 | the loop over one repository is exactly that repository's `cloneRepo` |
| Cloning.CloneAllGrows | ledfx-dev/ledfx.setup.js:163-166 | when the loop completes, every chosen folder exists |
| Cloning.CloneAllAppend | ledfx-dev/ledfx.setup.js:163-166 | the loop over `a + b` stops inside `a` if `a` fails, and otherwise continues over `b` from where `a` left off |
| Cloning.CloneAllSnoc | ledfx-dev/ledfx.setup.js:163-166 | after a completed prefix, the next repository is one more `cloneRepo` from the prefix's state |
| Cloning.FailedPrefix | ledfx-dev/ledfx.setup.js:163-166 | once a clone throws, the repositories after it are never touched |
| Cloning.Skips | ledfx-dev/ledfx.setup.js:69-70 | one skip notice per repository, naming its folder |
| Cloning.AllPresentSkipsAll | ledfx-dev/ledfx.setup.js:53-70 | when every chosen folder exists, the loop changes nothing, clones nothing and skips each repository in order |
| Cloning.RerunClonesNothing | ledfx-dev/ledfx.setup.js:163-166 | running the same selection again after a completed run clones nothing and changes nothing |
| Cloning.UpstreamFailureNonFatal | ledfx-dev/ledfx.setup.js:61-67 | which `git remote add` calls fail changes neither the resulting paths nor whether the run completes |
| Cloning.FailureEndsRun | ledfx-dev/ledfx.setup.js:163-166 | a run that fails ends with a failed clone of a folder whose clone throws, so nothing is attempted after it |
| Cloning.CompletedRunNeverFailed | ledfx-dev/ledfx.setup.js:163-166 | a run that completes contains no failed clone |
| Cloning.PresentNeverCloned | ledfx-dev/ledfx.setup.js:53 | once a folder exists, the rest of the run never clones into it |
| Cloning.SongDetectorAncestry | ledfx-dev/ledfx.setup.js:26-47 | the song detector's parent is `_pipeline/tools`, whose parent is `_pipeline` |
| Cloning.SongDetectorParent | ledfx-dev/ledfx.setup.js:27 | the song detector's parent directory is `_pipeline/tools` |
| Cloning.ToolsParent | ledfx-dev/ledfx.setup.js:56-58 | the parent of `_pipeline/tools` is `_pipeline`, which `mkdir -p` of `_pipeline/tools` creates |
| Cloning.SongDetectorMakesPipeline | ledfx-dev/ledfx.setup.js:53-59 | after the song detector's `cloneRepo`, `_pipeline` exists, whether the step skipped, cloned or threw |
| Cloning.PipelineShadowed | ledfx-dev/ledfx.setup.js:53-59 | if the song detector precedes every `_pipeline` entry in the chosen list, `_pipeline` is never cloned |
| Cloning.SelectionShadowsPipeline | ledfx-dev/ledfx.setup.js:148 | for the catalog as written, whenever ENTER hands over the song detector (ticked, or nothing ticked), `_pipeline` is never cloned |
| Cloning.Disk.constructor | ledfx-dev/ledfx.setup.js:52-72 | the disk starts from a given set of existing paths, with no steps taken and no workspace file |
| Cloning.Disk.CloneRepo | ledfx-dev/ledfx.setup.js:52-72 | the method's new paths, appended steps and verdict are those of `CloneStep`; the workspace file is untouched |
| Cloning.Disk.CloneEach | ledfx-dev/ledfx.setup.js:163-166 | the loop's new paths, appended steps and verdict are those of `CloneAll`, stopping at the first clone that throws; the workspace file is untouched |
| Cloning.Disk.RunCloning | ledfx-dev/ledfx.setup.js:163-289 | the new paths, steps and verdict are those of `CloneAll`; on completion the workspace file is the generated document, and it is unchanged when a clone threw |

## Left out

- Terminal I/O is not modelled: raw mode, ANSI colours, the banner and the menu redraw are reduced to the `Redraw` reaction.
- `process.exit` on Ctrl+C is the `Exit` reaction.
- After ENTER the script pauses stdin, so no further keystrokes arrive. The model's `Step` does not forbid later calls.
- Real git and the real filesystem are not modelled. Git is a parameter; `existsSync`, `mkdirSync` and the clone are set operations on a set of paths; `mkdirSync` itself never fails.
- The workspace document is modelled as a value, not as JSON text. `JSON.stringify`/`JSON.parse` are taken to round-trip, so the write-then-reread step is the identity. The `catch` around the welcome append (a read or parse failure) is not modelled.
- A task's `presentation` and `problemMatcher` fields are not modelled; they never affect filtering.
- Cloning.Dirname: does not model Node's handling of trailing slashes (Node ignores them; the model treats the text before the last `/` as the directory) or of a path starting with exactly `//` (Node's directory of `//a` is `//`, the model's is `/`). No catalog folder has either.
- Cloning.CloneStep: an empty folder is not modelled as git sees it. `git clone <url> ` with an empty folder clones into a directory named after the URL; the model adds the empty path instead. No catalog entry has an empty folder.
- Cloning.CloneStep: the root `/` is always taken to exist as a parent, so it is never made. As a folder of its own, it counts as existing only when it is in the set of paths, while `existsSync('/')` is always true. No catalog folder is absolute.
- Cloning.CloneStep: a successful clone adds only the folder itself to the set of paths, not the checked-out tree that `git clone` creates under it. So the rows on what a step or the loop adds bound only what the script creates besides the checkout. A later folder nested inside an earlier clone would exist on disk but not in the model. The catalog never lists a repository before a folder nested inside it.
- Inherited object properties are not modelled. The lookup `folderTemplates[repo.folder]` (lines 127 and 250) could also find one, such as `constructor`. The model uses a plain map, and no catalog folder has such a name.
- `index.js` is not part of this model. It is the separate project generator and is not called by the setup script.
- Empty selection: ENTER with nothing ticked hands the whole catalog to cloning (line 148), not an empty selection. The model follows the code. `Workspace.EmptyChoiceDocument` still covers an empty list reaching the workspace builder.
