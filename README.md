# dead_circuit, modelled in Dafny

This project models the host-side deployment tools and two device-side
helpers of the dead_circuit CircuitPython projects.

- **`deploy.py`** (module `Deploy`) makes a full sync. It checks that the
  board is mounted and resolves the project. It wipes the board's
  non-hidden entries, confirming each one on the console unless told not
  to, and refuses to remove more than 50. It copies the project onto the
  board. If the project has a `requirements.txt`, it creates the board's
  `lib` directory, downloads the library bundles into a cache unless the
  cache directory already exists, and copies each requirement from the
  first bundle that has it.
- **`watcher.py`** (module `Watcher`) provides a change handler. It copies
  every changed file into the board's root, except during a quiet period
  that is measured from the handler's construction.
- **`projects/neopixel_strand/code.py`** (module `NeopixelStrand`) has a
  colour generator that walks the colour wheel by an integer step. The
  strand is painted with it once (`apply_rainbow`) or on a wrapping index
  (`rainbow_loop`).
- **`projects/eightball/code.py`** (module `Eightball`) lists the answer
  images by suffix. It chooses which image to show, by an explicit index
  taken modulo the count or by a random draw.

## Shared modules

- `FileSystem` holds the host filesystem, a map from paths to files and
  directories. A path is a sequence of name components. A directory
  records its entries in `os.listdir` order.
  - `rm -rf`, `os.mkdir` and bundle downloads change the map. A download
    saves the zip file in the cache, then unpacks the archive's members
    beneath the cache in order. Each member is unpacked the way Python's
    `zipfile` does it:
    - a missing parent directory is made first with `os.makedirs`;
    - a directory member is made with `os.mkdir` unless it is already a
      directory;
    - a file member is written with `open(.., "wb")`.
  - The errors those calls raise end the extraction at the first member
    that fails. The network is a parameter, `archives`, that maps each
    reachable URL to the archive it serves.
  - Every removal, copy and download is recorded in an action log of the
    `Disk` class. Copies are not replayed on the map.
- `Projects` resolves a project name. `deploy.py` and `watcher.py` carry
  identical copies of `get_project_dir`, so it is defined once.
- `Text` gives Python's string predicates and `strip`.
- `Sequences` and `Arith` hold small general lemmas.
- `Wrappers` holds `Option` and `Result`.

## How the model is proved

Each imperative operation is a method with the source's loop. It is
proved equal to a pure function that describes the whole phase:
`PlanDeletion`, `FetchAll`, `PlanDownload`, `PlanRequirements`, `PlanProject`,
`PlanDeploy`, `Rainbows`, `Loop` and `Listed`. Lemmas then state what the
source promises about those functions.

- Console answers are a sequence of strings consumed in order. Running
  out of them is the `EndOfInput` error that `input()` raises.
- How a run ends is a `Status`:
  - `Completed`;
  - `Exited(code)`, from `sys.exit`;
  - `Failed(error)`, from an uncaught exception.
- The console-facing part of deletion is checked against an independent
  reading of the input (`Answers`, `LeadingYes`). The check
  (`ConsentsFollowAnswers`) says the first `n` decisive answers decide the
  run: every `y` grants one removal, the first `n` exits with status 1,
  and too few answers is an error.

## Quirks modelled as written

- Watcher debounce: `dispatch` never updates `last_update_at`, so the quiet
  period runs from construction only, not from the last copy.
  *Shown by* `Watcher.NoDebounceBetweenEvents` and
  `Watcher.AfterWindowEveryFileIsSent`.
- Requirement lookup: the module test of `find_requirement_location`
  looks for a file literally named `.py` inside `lib/<requirement>`.
  - On a disk where every entry lies inside a directory, that test can
    never decide a probe (`Deploy.ModuleTestNeverDecides`).
  - A single-file module `lib/<requirement>.py` is never found
    (`Deploy.SingleFileModuleIsMissed`).
- Deletion cap: the candidate count is checked before anything is
  removed, so a board with 51 visible entries keeps all of them.
- Empty project name: `os.path.join(projects_dir, "")` is the projects
  directory itself, which `isdir` accepts. Pressing Enter at the name
  prompt therefore wipes the board and copies every project onto it
  (`Projects.EmptyNameIsProjectsDir`, `Deploy.EmptyNameCopiesEveryProject`).
- Stale cache: the cache directory is created before the first download,
  so a failed download leaves a cache that later runs never refill
  (`Deploy.DownloadIsIdempotent`).
- Image suffix: the eight-ball image filter uses `'bmp'` without a dot
  and tests the whole path. An entry called `notbmp` is therefore taken
  for an image (`Eightball.BmpWithoutDot`).

## Model

| member | source | states |
|---|---|---|
| Deploy.ExitCode | deploy.py:97-102 | the process exit status is 0 exactly for a normal end or `sys.exit(0)`; `sys.exit(c)` gives `c` and an uncaught exception gives 1 |
| Deploy.ReadRequirementsFile | deploy.py:165-178 | the manifest read line by line: a missing file or a directory is the error `open` raises, otherwise the filtered entries |
| Deploy.RequirementsAppend | deploy.py:173-177 | the manifest is a line filter: concatenated manifests declare the concatenated requirements, in order, duplicates kept |
| Deploy.RequirementsMembers | deploy.py:171-178 | a string is a requirement exactly when it is the stripped form of some line and is neither empty nor starts with `#` |
| Deploy.RequirementsAreClean | deploy.py:174-177 | no requirement is empty or starts with `#`, and none has white space at either end |
| Text.LStrip | deploy.py:174 | `lstrip` removes exactly the leading white-space characters, leaving a suffix that starts with a non-space |
| Text.RStrip | deploy.py:174 | `rstrip` removes exactly the trailing white-space characters, leaving a prefix that ends with a non-space |
| Text.StripTrimsBothEnds | deploy.py:174 | `strip` leaves no white space at either end |
| Text.StripAfterRStrip | deploy.py:174 | `line.rstrip().strip()` is `line.strip()` |
| Deploy.CandidatesAppend | deploy.py:83-88 | the candidate list follows the listing: two runs of entries give the two candidate lists concatenated |
| Deploy.CandidatesMembers | deploy.py:84-88 | a path is a candidate exactly when it is `location/<name>` for a listed name that does not start with `.` |
| Deploy.CandidatesLength | deploy.py:83-88 | there are never more candidates than listed entries |
| Deploy.CollectCandidates | deploy.py:83-88 | the loop builds exactly the candidate list |
| Deploy.FirstAnswer | deploy.py:52-57 | the position of the first input that is exactly `y` or `n`, or the end of the input |
| Deploy.BeforeFirstAnswer | deploy.py:52-58 | every input before the first decisive one only re-prompts |
| Deploy.YesNoFromUser | deploy.py:49-58 | reads inputs until one is exactly `y` or `n` and answers it; all other inputs re-prompt; with none left it is the end-of-input error and every input was read |
| Deploy.Consents | deploy.py:97-102 | asking `n` questions in a row grants at most `n` removals and reads no more than the input; it completes exactly when all `n` are granted, otherwise it exits with 1 or runs out of input |
| Deploy.AnswersFromFirst | deploy.py:52-58 | the decisive answers of the input are the first one followed by those after it |
| Deploy.ConsentsFollowAnswers | deploy.py:49-58 | the questions follow the plain reading of the console: with `y` leading answers, `min(y, n)` removals are granted; the run completes when `y >= n`, exits with 1 when a `n` comes first, and otherwise runs out of input |
| Deploy.ConsentsAfterAnswer | deploy.py:52-58 | after the first decisive answer, `n` ends the questions with status 1 and `y` grants one removal and leaves the rest to the remaining input |
| Deploy.ConsentsWithoutAnswer | deploy.py:52-58 | an input with no decisive answer reads everything and ends with the end-of-input error |
| Deploy.Removals | deploy.py:97-99 | one `rm -rf` per removed path, in order |
| Deploy.DeletionCap | deploy.py:90-95 | more than 50 candidates fail with the candidate list and remove nothing; 50 or fewer pass the check |
| Deploy.DeletionRemovesPrefix | deploy.py:83-102 | what is removed is a prefix of the candidates, in order; a completed deletion removed all of them; without confirmation every candidate goes and no input is read |
| Deploy.DeclineStopsDeletion | deploy.py:97-102 | a `n` after `k` leading `y` removes exactly the first `k` candidates and exits with status 1 |
| Deploy.RemovedAreVisibleChildren | deploy.py:84-88 | every removed path is a direct child of the location whose name does not start with `.` |
| Deploy.DeletionSparesDotfiles | deploy.py:84-99 | a dotfile stays listed in the location, and everything beneath it is unchanged, whatever the answers |
| Deploy.DotfileStaysListed | deploy.py:84-99 | removing visible children keeps every dotfile listed |
| Deploy.DotfileStaysIntact | deploy.py:84-99 | removing visible children leaves every path beneath a dotfile unchanged |
| Deploy.AskRemoval | deploy.py:98 | one question advances the questioning exactly as the specification of the answers says, consuming the inputs it reads |
| Deploy.Confirm | deploy.py:98 | the condition `not user_confirm or yes_no_from_user(...)`: without confirmation it proceeds and reads nothing |
| Deploy.RemoveNext | deploy.py:99 | one `rm -rf` extends the removals so far by the next candidate |
| Deploy.RemovalStep | deploy.py:97-102 | one turn of the removal loop: the question, then the removal, or the end of the loop with the tree untouched |
| Deploy.RemoveEach | deploy.py:97-102 | the removal loop removes exactly the granted prefix, logs one removal each, and ends as the answers decide |
| Deploy.DeleteFiles | deploy.py:76-102 | `delete_files`: the listing error, the cap error, or the removals decided by the answers, exactly as `PlanDeletion` describes |
| Deploy.DownloadsInOrder | deploy.py:135-137 | the download log names each registry entry once, in registry order |
| Deploy.FetchAll | deploy.py:135-137 | downloading every bundle in turn keeps the cache a directory |
| Deploy.FetchAllLog | deploy.py:135-137 | the downloads done are a prefix of the registry, in order; the phase completes exactly when all were done |
| Deploy.FetchAllStops | deploy.py:135-137 | a phase that does not complete ends with the error of the first bundle that could not be downloaded, and the earlier downloads stand |
| Deploy.UnreachableStops | deploy.py:116 | a bundle whose URL cannot be fetched stops the phase with that URL as the error |
| Deploy.FetchAllOutside | deploy.py:113-118 | the downloads change nothing outside the cache |
| Deploy.FetchKeepsKinds | deploy.py:113-118 | one download never turns a directory into a file or a file into a directory |
| Deploy.FetchAllKeepsKinds | deploy.py:135-137 | the downloads never turn a directory into a file or a file into a directory |
| Deploy.FetchAllPlaces | deploy.py:135-137 | after a completed phase every member of every downloaded archive is in the cache with its own kind, and a file member's directory is a directory |
| Deploy.FetchOutside | deploy.py:113-118 | one download changes nothing outside the cache |
| Deploy.FetchPlaces | deploy.py:113-118 | one download places every member of its archive in the cache with its own kind |
| Deploy.FetchAllKeepsPlaced | deploy.py:135-137 | a member in place stays in place through the later downloads |
| Deploy.FetchAllFirst | deploy.py:135-137 | a phase that completes downloaded its first bundle and completed on the rest |
| Deploy.FreshCacheSupplies | deploy.py:130-160 | on a fresh cache, a bundle whose archive holds only the file `top/lib/<requirement>/<file>`, with no directory entries, is downloaded; the search then finds the requirement past the saved zip file |
| Deploy.DownloadIsIdempotent | deploy.py:130-133 | once the cache directory exists, even after a failed download, running the phase again downloads and changes nothing |
| Deploy.DownloadRequirementsBundles | deploy.py:121-137 | an existing cache returns at once; otherwise the cache is created (or `mkdir` fails) and the bundles are downloaded in turn until one fails, exactly as `PlanDownload` describes |
| Deploy.ModuleTestNeverDecides | deploy.py:154-160 | on a disk where every entry lies inside a directory, a probe that finds the requirement always returns `lib/<requirement>` |
| Deploy.SingleFileModuleIsMissed | deploy.py:158-160 | a bundle holding only `lib/<requirement>.py` misses the requirement |
| Deploy.FindRequirementLocation | deploy.py:140-162 | the search loop returns what the cache-order search describes, including listing errors |
| Deploy.LocateFirstHit | deploy.py:143-160 | the first bundle that has the requirement supplies it, after entries that are skipped or miss |
| Deploy.LocateNoLibIsFatal | deploy.py:149-151 | a bundle directory without `lib` is an error as soon as it is met, whatever later bundles hold |
| Deploy.LocateNotFound | deploy.py:143-162 | not-found exactly when every cache entry is skipped (not a directory) or misses |
| Deploy.LocateUnderLib | deploy.py:149-160 | a located path lies under `lib` of a bundle directory listed in the cache and names the requirement there |
| Deploy.CopiesFollowManifest | deploy.py:223-227 | requirements are copied in manifest order from where they were found; the first one not found ends the phase with its error and earlier copies stand |
| Deploy.Destination | deploy.py:213-216 | when it succeeds, the requirements destination is a directory |
| Deploy.RequirementsPhaseDestination | deploy.py:207-216 | without a manifest nothing changes and nothing is logged, not even `lib` is created; with one, the destination exists afterwards when it could be made outside the cache |
| Deploy.DownloadKeepsDir | deploy.py:130-137 | a directory outside the cache is still a directory after the download phase |
| Deploy.DownloadAndCopyRequirements | deploy.py:181-227 | the whole requirements phase, exactly as `PlanRequirements` describes: destination, then the downloads that unpack each bundle into the cache, then the manifest, then one copy per requirement found there |
| Deploy.Install | deploy.py:218-227 | download, read the manifest, then copy each requirement, in that order |
| Deploy.CopyEach | deploy.py:223-227 | the copy loop leaves the tree alone and logs the copies the manifest-order search decides |
| Deploy.CopiesRemoveNothing | deploy.py:223-227 | the copy loop only copies and never exits through `sys.exit` |
| Deploy.RequirementsRemoveNothing | deploy.py:218-227 | the requirements phase removes nothing and never exits through `sys.exit` |
| Deploy.RemovalsAreRemovals | deploy.py:97-99 | the removal log holds nothing but removals |
| Deploy.ProjectOrder | deploy.py:273-286 | the removals come first; a deletion that does not complete leaves only them; otherwise the project copy comes next and nothing after it removes anything; a decline leaves only removals |
| Deploy.Resolve | deploy.py:63-73 | the name is the given one or the first console input; with neither it is the end-of-input error; the project directory comes back with the remaining inputs, or the resolution error |
| Deploy.DeployOrder | deploy.py:267-286 | an unmounted target or a failed resolution does nothing and ends with its error; otherwise the removals come first, then the project copy, then downloads and requirement copies that remove nothing; a decline leaves only removals |
| Deploy.EmptyNameCopiesEveryProject | deploy.py:271-277 | an empty name typed at the prompt copies the whole projects directory onto the board once the deletion completes |
| Deploy.Run | deploy.py:256-286 | the main block: target check, project resolution (asking for the name when none is given), delete, copy, requirements, exactly as `PlanDeploy` describes |
| Deploy.DeployProject | deploy.py:273-286 | delete, then copy the project, then the requirements; a deletion that does not complete stops the run |
| Projects.GetProjectDir | deploy.py:61-73 | the joined path exactly when it is a directory; otherwise the not-found error carrying the projects listing, or the listing's own error |
| Projects.ProjectDirIsChild | watcher.py:40-52 | a project resolved from a non-empty name is a directory directly inside the projects directory; the not-found error names the requested path |
| Projects.EmptyNameIsProjectsDir | deploy.py:66-67 | the empty name resolves to the projects directory itself whenever that is a directory |
| FileSystem.ListDir | deploy.py:143 | `os.listdir` succeeds exactly on a directory and returns its entries |
| FileSystem.Without | deploy.py:99 | the parent's listing after a removal lists every other entry and not the removed one |
| FileSystem.RemoveTree | deploy.py:99 | `rm -rf p` removes exactly `p` and everything beneath it |
| FileSystem.MakeDir | deploy.py:130-131 | `os.mkdir` succeeds exactly when the path is new and its parent is a directory; it adds only that directory and changes no other entry but its parent |
| FileSystem.RemoveAllKeeps | deploy.py:97-99 | an entry no removal reaches keeps its contents |
| FileSystem.RemoveAllKeepsName | deploy.py:97-99 | a directory that no removal reaches keeps listing an entry that is not removed |
| FileSystem.Disk.Remove | deploy.py:99 | one `rm -rf`, logged |
| FileSystem.Disk.Copy | deploy.py:105-110 | one `cp -rp`, logged and not replayed on the tree |
| FileSystem.Disk.MakeDirectory | deploy.py:130-131 | `os.mkdir`, or its error with nothing changed |
| FileSystem.Basename | deploy.py:115 | `os.path.basename` is the suffix after the last `/` and holds none |
| FileSystem.WriteFile | deploy.py:116 | `open(p, "wb")` succeeds exactly when the parent is a directory and `p` is not one |
| FileSystem.WriteFileEffect | deploy.py:116 | after `open(p, "wb")`, `p` holds the written lines, its parent lists it after its old entries, and no other entry changes and no kind changes |
| FileSystem.MakeDirs | deploy.py:118 | `os.makedirs` ends with `p` a new directory, keeps every entry and changes no entry's kind |
| FileSystem.MakeDirsOutside | deploy.py:118 | `os.makedirs` below an existing directory changes nothing outside it |
| FileSystem.MakeDirsUnderFile | deploy.py:118 | `os.makedirs` beneath a file fails with not-a-directory at that file, however deep the path |
| FileSystem.ExtractMemberEffect | deploy.py:118 | one member unpacks to its path with its own kind, written lines for a file, inside a directory; a directory member over a file, a file member over a directory and a member beneath a file are the errors `mkdir` and `open` raise |
| FileSystem.ExtractKeepsKinds | deploy.py:118 | unpacking never turns a directory into a file or a file into a directory |
| FileSystem.ExtractPlacesMember | deploy.py:118 | after a complete extraction every member is at its path with its own kind, and a file member's directory is a directory |
| FileSystem.ExtractStops | deploy.py:118 | a failed extraction fails with the error of its first failing member, after the members before it were unpacked |
| FileSystem.ExtractOutside | deploy.py:118 | unpacking into a directory changes nothing outside it |
| FileSystem.Fetch | deploy.py:113-118 | an unreachable URL is its own error; a download succeeds only when the cache is a directory and the zip's name is a fresh file name |
| FileSystem.Disk.Download | deploy.py:113-118 | one bundle download: the tree becomes the saved and unpacked one and the download is logged, or the error leaves both alone |
| Watcher.CheckDirectoryExists | watcher.py:55-58 | passes exactly on an existing directory, otherwise the no-directory error |
| Watcher.Handler.constructor | watcher.py:65-73 | records the destination, the construction time and the window (5 seconds by default) |
| Watcher.NewHandler | watcher.py:65-73 | constructing a handler fails unless the destination is an existing directory, and otherwise records it, the construction time and the window |
| Watcher.Handler.SendFile | watcher.py:76-83 | one copy of the file into the destination itself |
| Watcher.Handler.Dispatch | watcher.py:85-91 | at most one copy; the handler's fields never change |
| Watcher.Handler.DispatchAll | watcher.py:85-91 | handing the arrivals to `dispatch` one by one issues exactly the copies `Sent` describes and changes neither the tree nor the handler |
| Watcher.WindowBoundary | watcher.py:86-90 | an event before the end of the window is dropped, a file event exactly at its end is copied, and a directory event is never copied |
| Watcher.AfterWindowEveryFileIsSent | watcher.py:85-91 | after the window, every file event is copied, in arrival order, and nothing else is |
| Watcher.WithinWindowNothingIsSent | watcher.py:86-88 | nothing is copied while the window after construction lasts |
| Watcher.SentAreFileEvents | watcher.py:89-91 | every copy sends the source of some file event into the destination root, and there are no more copies than events |
| Watcher.NoDebounceBetweenEvents | watcher.py:72-91 | two file events one second apart, after the window, are both copied: the window does not restart |
| Watcher.Start | watcher.py:123-140 | the project is resolved first; the handler is built for the board only when that succeeds, and fails when the board is not a directory |
| NeopixelStrand.EffectiveStep | projects/neopixel_strand/code.py:25-28 | the step used is the absolute value of the requested one |
| NeopixelStrand.Clamp | projects/neopixel_strand/code.py:50-52 | every component is clamped into [0, 255], unchanged when already there |
| NeopixelStrand.StepTransitions | projects/neopixel_strand/code.py:34-52 | one transition fires, with priority blue, red, green at 0: the falling component loses the step, the rising one gains it, the third is 1 exactly when the falling one reached 0; all stay in [0, 255] |
| NeopixelStrand.StepKeepsShape | projects/neopixel_strand/code.py:34-52 | a step from an in-range colour with a zero component gives one again, never black |
| NeopixelStrand.RainbowInvariant | projects/neopixel_strand/code.py:30-52 | every yielded colour is in range, has a zero component and is not black; the first is (255, 0, 0) |
| NeopixelStrand.RainbowsAreRainbow | projects/neopixel_strand/code.py:31-32 | the first `count` colours are the yielded ones, in order |
| NeopixelStrand.RainbowNext | projects/neopixel_strand/code.py:31-52 | each colour is one step after the previous |
| NeopixelStrand.Advance | projects/neopixel_strand/code.py:34-52 | the in-place update of the three components is one step |
| NeopixelStrand.Next | projects/neopixel_strand/code.py:31-52 | `next(...)` yields the `k`-th colour and moves the state on to the next |
| NeopixelStrand.IterRainbowColors | projects/neopixel_strand/code.py:23-52 | the first `count` colours, each the `k`-th colour of the wheel at the effective step (20 by default) |
| NeopixelStrand.ApplyRainbow | projects/neopixel_strand/code.py:55-65 | pixel `i`, for `i` from 0 to the length, receives the `i`-th colour, each written once in index order |
| NeopixelStrand.Put | projects/neopixel_strand/code.py:64 | one pixel write extends the painted prefix |
| NeopixelStrand.Index | projects/neopixel_strand/code.py:75-81 | the painted index always lies in [0, length) |
| NeopixelStrand.IndexIsMod | projects/neopixel_strand/code.py:78-79 | the index in frame `f` is `f` modulo the length |
| NeopixelStrand.IndexInFirstSweep | projects/neopixel_strand/code.py:75-79 | in the first sweep frame `f` paints pixel `f` |
| NeopixelStrand.LastFrame | projects/neopixel_strand/code.py:76-79 | the last frame that painted a pixel painted that pixel |
| NeopixelStrand.Loop | projects/neopixel_strand/code.py:76-79 | painting frames never changes the strand's length |
| NeopixelStrand.LoopAppend | projects/neopixel_strand/code.py:77 | one more frame repaints exactly the pixel at its index |
| NeopixelStrand.LoopShowsLatest | projects/neopixel_strand/code.py:76-79 | each pixel shows the colour of the latest frame that painted it, or its initial colour when none has |
| NeopixelStrand.LastFrameIsRecent | projects/neopixel_strand/code.py:76-79 | the latest frame that painted a pixel is less than one sweep back |
| NeopixelStrand.Paint | projects/neopixel_strand/code.py:77 | one frame's pixel write |
| NeopixelStrand.NextIndex | projects/neopixel_strand/code.py:78-79 | `i += 1; i %= len(pixels)` moves to the next frame's index |
| NeopixelStrand.RainbowLoop | projects/neopixel_strand/code.py:66-81 | after `frames` frames the index is `frames` modulo the length, and the strand is the initial one repainted by those frames' colours |
| NeopixelStrand.FirstSweepIsApplyRainbow | projects/neopixel_strand/code.py:55-81 | after exactly one sweep the loop has painted pixel `j` with the `j`-th colour, as `apply_rainbow` does |
| Eightball.DirPrefix | projects/eightball/code.py:16 | the prefix ends with `/`; it is the directory itself exactly when that already ends with `/`, and otherwise the directory plus `/` |
| Eightball.ListDirectory | projects/eightball/code.py:15-25 | fails exactly when the prefixed directory does not exist; otherwise returns the filtered paths in listing order |
| Eightball.CollectPaths | projects/eightball/code.py:17-25 | the loop builds exactly the filtered paths |
| Eightball.ListedAppend | projects/eightball/code.py:18-25 | listing order is kept: two runs of entries list as the two results concatenated |
| Eightball.ListedMembers | projects/eightball/code.py:18-24 | a path is listed exactly when it is the prefix plus some entry and, with a truthy extension, the whole path ends with it |
| Eightball.ListedWithoutExtension | projects/eightball/code.py:23-24 | without an extension every entry is listed, in order, as prefix plus name, so the lengths agree |
| Eightball.BmpWithoutDot | projects/eightball/code.py:70 | with the main block's `'bmp'`, an entry `notbmp` is listed and `a.txt` is not |
| Eightball.ChooseImage | projects/eightball/code.py:44-48 | with images, the index is valid; an explicit index is congruent to the requested one modulo the count; a random one is the draw; with none, each path is its error |
| Eightball.ExplicitIndexWraps | projects/eightball/code.py:47 | an index in range is kept, and a negative one counts back from the end |

## Left out

- Shell semantics of `rm -rf` and `cp -rp`, including the `*` glob of the project copy: these are foreign processes. A copy is a logged action and is not replayed on the filesystem, so the model does not see what a copy puts on the board.
- FileSystem.Disk.Remove: always succeeds. A non-zero exit of `rm -rf`, which `check_call` turns into `CalledProcessError` and which ends the run, is not modelled.
- FileSystem.Disk.Copy: always succeeds. A failing `cp -rp` ends the run in the source through `check_output`. This failure is not modelled: an empty project, whose `*` does not expand, or a full board would stop the run before the requirements phase.
- FileSystem.Fetch: the network and the zip format are the `archives` parameter, and an unreachable URL is one error, `DownloadFailed`. A response that is not a zip archive is the same error. In the source, such a response leaves its saved file behind.
- FileSystem.Fetch: a download that fails part-way leaves the tree as it was before the download. In the source, the saved zip file and the members unpacked before the failing one stay on disk. The run ends with that exception either way.
- FileSystem.ExtractMember: member paths are taken as already cleaned name components. `zipfile`'s removal of drive letters, leading `/`, `.` and `..` is not modelled. A member with an empty path names the extraction directory, whose parent is taken to exist.
- FileSystem.MakeDirs: only the outcome of a missing parent is modelled. Races that `os.makedirs` tolerates are not.
- Deploy.Find and Deploy.Locate: a requirement name is one path component. In the source, a manifest line such as `a/b` makes `os.path.join(lib_dir, requirement)` name a nested path.
- Projects.GetProjectDir: a name is one path component, and only the empty name is treated specially. In the source, names such as `..`, `a/b` or an absolute path resolve elsewhere through `os.path.join`.
- The watchdog `Observer`, its busy loop and `watch_directory`: these are concurrency and third-party plumbing. `Watcher.Start` stops where the observer would start.
- argparse, logging, the console prompts' text and the `print` output: these are I/O. Parsed options are parameters, and console input is a sequence of strings.
- `os.path.abspath` and `os.path.join` on strings: paths are component sequences from the root, and the destination of `send_file` is the handler's `to_dir` itself.
- `time.time()` returns a float: time is a whole number of seconds passed in by the caller.
- Floating point on the board: brightness scaling, the default float step sizes of `apply_rainbow` and `rainbow_loop`, the fade steps and the accelerometer magnitude. The hardware and display calls are left out too.
- NeopixelStrand.ApplyRainbow: takes an integer step as a parameter instead of computing the float `(255 * 2.9) / len(pixels)`, so the division by zero on an empty strand is not modelled.
- NeopixelStrand.RainbowLoop: requires a non-empty strand; on an empty one the source fails at the first write (or computing the default step).
- NeopixelStrand.RainbowLoop and NeopixelStrand.IterRainbowColors: the endless loops are run for a given number of frames or colours.
- Eightball.ChooseImage: `random.randint` is the injected `draw`, required to lie in range as `randint` guarantees. The image opening, the `OnDiskBitmap` failure and its `del images[i]`, and the splash `pop` are display code.
- The other projects' scripts: these are top-level hardware scripts with nothing to state beyond their constants.
