# emptydir, modelled in Dafny

`emptydir` deletes directories that hold nothing worth keeping. A directory is
"empty" when every direct entry's name, with ASCII letters lowercased, is on a fixed
list of seven junk names: `.ds_store`, `.ipynb_checkpoints`, `.jekyll-cache`,
`.venv`, `__pycache__`, `desktop.ini` and `thumbs.db`.
- A directory inside a `.git` directory is never deleted.
- A directory whose contents cannot be listed is not deleted either.

Given a root, the pruner works in two phases:
1. It walks the tree contents-first, so each directory is judged after everything below it. Every approved directory goes to `remove_dir_all`, and each call counts one deletion or one error.
2. It climbs from the root's parent towards `/`, deleting each ancestor the decision approves. It stops at the first ancestor the decision refuses.

The project has these modules:

- `FileTree` (`file_tree.dfy`): the filesystem.
  - A path is the sequence of its components below `/`.
  - The filesystem is a map from existing paths to `File` or `Dir`, closed under parents.
  - `ListingOf` is what `read_dir` yields for a path.
  - `RemoveTree` is the effect of a successful `remove_dir_all`.
- `Deletability` (`can_be_deleted.dfy`): the decision `can_be_deleted`.
  - It is specified by the predicate `Approves`.
  - Its helpers: ASCII lowercasing, the `.git` test, and turning the listing into a name set.
- `ReasonDisplay` (`reason_display.dfy`): the `Display` text of a `Reason`. This covers the sort of the `NotEmpty` entries, the decimal count and the "entry"/"entries" choice.
- `Emptydir` (`emptydir.dfy`): the pruner.
  - `WalkDir` produces a contents-first walk.
  - The class `Pruner` holds the filesystem, the two counters and a ghost log of deleted paths, which are the lines `emptydir` prints. Its methods run the two loops.
  - The functions `WalkFold`, `Climb` and `Run` replay the same steps, and each method is proved to end in the state they describe.
  - The walk is computed up front, on the tree as it was before the run, whereas `walkdir` yields entries lazily while the loop removes directories. The two agree because a removal only takes the subtree of a directory the walk yields after all of its contents, so no entry it has yet to yield is removed.
- `EmptydirProofs` (`emptydir_proofs.dfy`): what a run does, independent of the order in which the walk lists siblings.
  - `FateOf` gives the fate of each directory of the original tree: `Deleted`, `RemoveFailed` or `Rejected`. A directory is approved when it lies outside `.git` and each direct entry is junk or is a subdirectory the walk deleted earlier.
  - The walk removes exactly the `Deleted` subtrees and counts each fate once.
  - A second run, with the same removals failing as in the first, deletes nothing.
  - Nothing under `.git` is ever logged as deleted.
- `EmptydirScenarios` (`scenarios.dfy`): the situations of the pruner's unit tests, proved for every contents-first walk order.
  - The tests create a fresh temporary directory with a random name. The model places it at `/tmp/t`.
  - Its parent `/tmp` also holds an unrelated file, so the climb stops there.
- `EmptydirCascade` (`cascade.dfy`): the climb at work. A run started at an empty directory deletes it, and then deletes the parent this left empty. A removal that fails during the climb is counted, and the climb goes on to the next ancestor.

How the environment enters the model:
- The filesystem is the parameter `fs`.
- Failures of `remove_dir_all` come from the parameter `failing`: a removal fails exactly when its path is in that set. A failed removal leaves the tree unchanged.
- Console output is the ghost `log`.

Points where the model follows particular details of the code:
- `can_be_deleted` (`src/can_be_deleted.rs:79-135`) has no hard-coded never-delete path, so the model has none.
- `NotEmpty` carries the offending names in hash-set order (`src/can_be_deleted.rs:128-131`). They are sorted only when displayed (`src/can_be_deleted.rs:56-62`). So `CanBeDeleted` promises each name exactly once, in no particular order, and `Display` sorts them.
- `emptydir` treats the `DeleteDecision` as a `bool` (`src/emptydir.rs:23`, `src/emptydir.rs:51`). The model reads "approved" as `decision == CanDelete`.

Consequences of the code as written, which the model keeps:
- The `.git` protection applies to each path the pruner judges. A `.git` directory nested inside a directory that is itself approved goes with that directory's recursive removal. An example is a `.venv` whose only content is another `.venv` holding `.git`.
- The climb starts at the root's parent whether or not the root exists. A missing root whose existing parent holds only junk gets that parent deleted. `NonexistentRootUntouched` covers the tested situation, where the parent is missing too.
- Entry names are compared after ASCII lowercasing only. Non-ASCII letters are compared as they are.

## Model

| member | source | states |
|---|---|---|
| FileTree.Parent | src/emptydir.rs:48 | `Path::parent`: there is a parent exactly when the path is not `/`, and appending the last component to it gives the path back |
| FileTree.ListingOf | src/can_be_deleted.rs:15 | `read_dir` succeeds exactly on an existing directory, and then yields exactly one entry per direct child; on a file or a missing path it fails |
| FileTree.RemoveTree | src/emptydir.rs:29 | a successful `remove_dir_all(p)` leaves exactly the paths not at or below `p`, each with its kind unchanged |
| FileTree.RemoveTreeWellFormed | src/emptydir.rs:29 | removing a subtree leaves a filesystem in which every path still sits inside an existing directory |
| Deletability.AsciiLower | src/can_be_deleted.rs:17 | `to_ascii_lowercase`: same length, no ASCII capital left, each capital moved to its small letter, every other character unchanged |
| Deletability.AsciiLowerIdempotent | src/can_be_deleted.rs:17 | lowercasing an already lowercased name changes nothing |
| Deletability.AsciiLowerIgnoresCase | src/can_be_deleted.rs:17 | two names that differ only in the case of ASCII letters lowercase to the same name |
| Deletability.IsInGitRepository | src/can_be_deleted.rs:23-28 | true exactly when some component of the path, the path's own name included, is `.git` |
| Deletability.GetNamesInDirectory | src/can_be_deleted.rs:8-21 | succeeds exactly when the directory opens and every entry is readable, and then returns exactly the set of lowercased entry names; otherwise returns the opening error, or the error of one of the unreadable entries |
| Deletability.CollectNames | src/can_be_deleted.rs:129-130 | collecting a set into a vector yields every element of the set exactly once and nothing else |
| Deletability.CanBeDeleted | src/can_be_deleted.rs:79-135 | rules applied in order: `.git` anywhere gives `InGitRepository` before any listing; a listing error gives `CannotListContents` with that error; lowercased names that are all junk give `CanDelete`; otherwise `NotEmpty` holds each lowercased non-junk name exactly once and is non-empty; `CanDelete` exactly when `Approves` |
| Deletability.Approves | src/can_be_deleted.rs:94-127 | the decision is `CanDelete` exactly when no component of the path is `.git`, the directory could be listed, and every entry could be read and has an allow-listed name once lowercased |
| Deletability.DeletableNamesAreLowercase | src/can_be_deleted.rs:116-124 | every allow-listed name is already lowercase, so lowercasing only the entry names compares case-insensitively |
| Deletability.ApprovesIgnoresCase | src/can_be_deleted.rs:232-244 | the decision is the same when every entry name is replaced by its lowercased form, so `.DS_Store` is as deletable as `.ds_store` |
| Deletability.EmptyDirectoryApproved | src/can_be_deleted.rs:167-178 | an empty directory outside `.git` may be deleted |
| Deletability.GitPathsNeverApproved | src/can_be_deleted.rs:246-270 | a path with a `.git` component, and every path below it, is refused whatever its listing holds |
| ReasonDisplay.LexLeTotal | src/can_be_deleted.rs:58 | any two names are ordered one way or the other |
| ReasonDisplay.LexLeTransitive | src/can_be_deleted.rs:58 | the name order is transitive |
| ReasonDisplay.LexLeAntisymmetric | src/can_be_deleted.rs:58 | two names ordered both ways are equal |
| ReasonDisplay.Insert | src/can_be_deleted.rs:58 | inserting into a sorted sequence keeps it sorted and adds exactly that one element |
| ReasonDisplay.SortEntries | src/can_be_deleted.rs:57-58 | `sort_by_key` yields a sorted permutation of the entries |
| ReasonDisplay.SortedPermutationUnique | src/can_be_deleted.rs:57-58 | two sorted permutations of the same entries are equal, so the sorted order is determined by the entries alone |
| ReasonDisplay.DecimalString | src/can_be_deleted.rs:51-52 | the count is written as a non-empty string of decimal digits that starts with `0` only for zero |
| ReasonDisplay.DecimalRoundTrip | src/can_be_deleted.rs:51-52 | the digits written for a count read back as that count |
| ReasonDisplay.HeaderReportsCount | src/can_be_deleted.rs:49-54 | the header gives the number of entries in decimal, followed by " entry:" when there is one and " entries:" otherwise |
| ReasonDisplay.Header | src/can_be_deleted.rs:49-54 | the header of the `NotEmpty` text is a single line ending in a colon |
| ReasonDisplay.Bullets | src/can_be_deleted.rs:60-62 | no entries write nothing; otherwise the text opens a new line with `  - `, and each entry takes at least those five characters |
| ReasonDisplay.Display | src/can_be_deleted.rs:45-76 | the `NotEmpty` text is the header for the number of entries, followed by the entries in a sorted arrangement of exactly those entries; the text for a listing error ends with that error's message |
| ReasonDisplay.DisplayIndependentOfOrder | src/can_be_deleted.rs:56-62 | the same entries collected in any order give the same text |
| ReasonDisplay.DisplayNotEmptyLines | src/can_be_deleted.rs:48-64 | the text of `NotEmpty(entries)` has one line per entry after the header; the entry lines are `  - ` followed by the entries in sorted order, each as often as it occurs |
| Emptydir.WalkDir | src/emptydir.rs:18-22 | the walk yields every directory at or below the root and nothing else; no directory comes before anything below it; a missing root or a file yields nothing |
| Emptydir.Remove | src/emptydir.rs:29-43 | removing an approved directory raises exactly one counter by one: the deleted count exactly when the removal succeeds, and then the path is gone and logged; a failed removal changes neither the tree nor the log |
| Emptydir.Visit | src/emptydir.rs:23-43 | one walked directory is counted once if the decision on the current tree approves it, and leaves the state as it was otherwise |
| Emptydir.WalkFold | src/emptydir.rs:25-44 | the walk loop never lowers a counter, counts each walked directory at most once, and extends the log by one path per deletion |
| Emptydir.Climb | src/emptydir.rs:48-68 | the climb never lowers a counter, counts each ancestor it reaches at most once, and extends the log by one path per deletion |
| Emptydir.Run | src/emptydir.rs:17-74 | a run counts at most one deletion or error per walked directory and per ancestor of the root, and logs exactly one path per deletion |
| Emptydir.Pruner.constructor | src/emptydir.rs:25-26 | a pruner on a filesystem starts with both counters at zero and nothing logged |
| Emptydir.Pruner.RemoveDirAll | src/emptydir.rs:29 | `remove_dir_all` succeeds exactly on an existing directory outside the failing set, and then removes that subtree; on failure nothing changes |
| Emptydir.Pruner.IsApproved | src/emptydir.rs:23 | a directory is approved exactly when `can_be_deleted` on the current filesystem returns `CanDelete` |
| Emptydir.Pruner.RemoveAndCount | src/emptydir.rs:29-43 | a removal that succeeds removes the subtree, logs the path and adds one to the deleted count; a failed one adds one to the error count and changes nothing else |
| Emptydir.Pruner.DeleteWalked | src/emptydir.rs:25-44 | the walk loop judges each walked directory on the filesystem as the earlier removals left it, and removes and counts the approved ones in walk order |
| Emptydir.Pruner.ClimbParents | src/emptydir.rs:46-68 | the climb starts at the root's parent and removes and counts each approved ancestor, carrying on after a failed removal; it stops at the first refused ancestor or after `/` |
| Emptydir.Pruner.Emptydir | src/emptydir.rs:17-74 | `emptydir(root)` takes a contents-first walk of the tree as it was, runs the walk loop and then the climb from zero counters, and returns the two counters |
| EmptydirProofs.ApprovedIff | src/can_be_deleted.rs:94-134 | an existing directory is approved exactly when it is outside `.git` and every direct entry name is junk |
| EmptydirProofs.JunkOnlyDirectoryDeleted | src/emptydir.rs:18-44 | a directory outside `.git` whose entries all have junk names is deleted by the walk unless its removal fails |
| EmptydirProofs.KeptEntryKeepsDirectory | src/can_be_deleted.rs:126-131 | a directory with a non-junk entry that is a file, or a directory the walk does not delete, is never removed by the walk itself |
| EmptydirProofs.WalkFates | src/emptydir.rs:18-44 | after a contents-first walk, exactly the subtrees of the directories whose fate is `Deleted` are gone; the deleted count rises by their number and the error count by the number with fate `RemoveFailed` |
| EmptydirProofs.WalkOrderIrrelevant | src/emptydir.rs:18-44 | any two contents-first walks of the same tree end with the same filesystem and the same counts, whatever order they list siblings in |
| EmptydirProofs.NoFailuresNoRemoveFailed | src/emptydir.rs:34-42 | when no removal fails, no directory has the fate `RemoveFailed`, so the error count stays zero |
| EmptydirProofs.RemoveConsistent | src/emptydir.rs:29-43 | one removal keeps the log in step with the deleted count and keeps every logged path free of survivors below it |
| EmptydirProofs.RunConsistent | src/emptydir.rs:17-74 | after a run, the log has one path per deletion; no logged path is at or above a later one, so descendants are logged before their ancestors; nothing at or below a logged path is left |
| EmptydirProofs.ClimbShrinks | src/emptydir.rs:48-68 | the climb only removes paths; whatever is left is unchanged |
| EmptydirProofs.ClimbFrame | src/emptydir.rs:48-68 | everything below a path that the climb keeps, where that path is deeper than the climb's start, survives the climb |
| EmptydirProofs.ClimbAgain | src/emptydir.rs:48-68 | climbing again on the climb's result, from the same start and with the same removals failing, removes nothing and logs nothing |
| EmptydirProofs.RunLeavesNothingToDelete | src/emptydir.rs:17-74 | after a run, no directory at or below the root has the fate `Deleted` any more |
| EmptydirProofs.RunTwiceDeletesNothing | src/emptydir.rs:17-74 | running again on the result of a run, with the same removals failing, leaves the tree unchanged, with zero deletions and nothing logged |
| EmptydirProofs.RunLogsNoGitPath | src/can_be_deleted.rs:94-96 | no path with a `.git` component is ever logged as deleted, in the walk or in the climb |
| EmptydirScenarios.WalkEntriesDistinct | src/emptydir.rs:18-22 | a contents-first walk lists no directory twice |
| EmptydirScenarios.ClimbStopsAtKeptEntry | src/emptydir.rs:50-53 | the climb reaching a directory with a non-junk entry stops there and changes nothing |
| EmptydirScenarios.NonexistentRootUntouched | src/emptydir.rs:110-120 | a root that does not exist, in a parent that does not exist either, yields `{0, 0}` and changes nothing |
| EmptydirScenarios.EmptyRootDeleted | src/emptydir.rs:122-137 | an empty root is deleted as the only deletion, with no errors |
| EmptydirScenarios.DirectoryWithFileKept | src/emptydir.rs:139-157 | a root whose own name is not junk, holding only files, one of them not junk, is left untouched with `{0, 0}` |
| EmptydirScenarios.MixedEntriesKept | src/emptydir.rs:199-217 | a root holding `.DS_Store` and `greeting.txt` is left untouched with `{0, 0}` |
| EmptydirScenarios.SafeOnlyRootDeleted | src/emptydir.rs:159-197 | a root whose entries are all junk is removed as a single deletion, along with the non-junk files nested inside its junk subdirectories |
| EmptydirScenarios.JunkSubdirDeleted | src/emptydir.rs:219-259 | a junk-only subdirectory beside `greeting.txt` is the one deletion; the root and the file remain |
| EmptydirCascade.ParentDeletedByClimb | src/emptydir.rs:46-68 | a run from an empty `/tmp/t/a`, the only entry of `/tmp/t`, deletes `a` in the walk and then `/tmp/t` in the climb; it counts `{2, 0}`, logs `a` before `/tmp/t`, and stops at `/tmp` |
| EmptydirCascade.ClimbFailureCounted | src/emptydir.rs:55-65 | the same run with the removal of `/tmp/t` failing counts `{1, 1}` and leaves `/tmp/t`, now empty, in place |
| EmptydirCascade.ChainClimbPastFailure | src/emptydir.rs:60-67 | after a failed removal in the climb, the error is counted and the climb continues at the parent |
| EmptydirCascade.ClimbGoesOnAfterFailure | src/emptydir.rs:55-67 | a run from an empty `/tmp/.venv/.venv/a` whose climb fails to remove `/tmp/.venv/.venv` still deletes `/tmp/.venv` above it, and with it the directory that failed; it counts `{2, 1}` |

## Left out

- Idempotence is proved only for a second run in which the same removals fail as in the first. A removal that fails once and succeeds later is not covered: a directory left in place by a failed removal can then be deleted by the second run.
- Symbolic links, `walkdir`'s handling of them, and any filesystem object other than a file or a directory are not modelled. The tree holds only files and directories.
- Errors that `walkdir` reports during the walk are not modelled. The source drops them with `filter_map(|e| e.ok())`. In the model every directory of the tree can be read, so it has no such errors.
- Entries that exist but cannot be read are modelled for `can_be_deleted`, through `EntryFailed`. `ListingOf` never produces one, so the pruner's filesystem has none.
- A `remove_dir_all` that fails partway is modelled as changing nothing. The real call may already have removed part of the subtree.
- The counters are unbounded naturals. `u32` wrap-around past 4294967295 removals is not modelled.
- Races between judging and removing, and concurrent runs, are not modelled. The model is sequential.
- The printed text is not modelled. The model does not produce the deleted paths on standard output, the coloured error messages or the `io::Error` text. The ghost `log` records the deleted paths in order, and an `io::Error` is kept only as a message string.
- `OsString` names that are not valid UTF-8, and `to_string_lossy`, are not modelled. Names are plain strings.
- Relative paths, `.` and `..` components, and canonicalisation are not modelled. Every path is absolute and already in normal form.
- `src/main.rs` (the command-line entry point and its summary message) is not part of this model.
- The test `it_doesnt_delete_my_do_not_backup` (`src/emptydir.rs:98-108`) is not modelled. Its outcome depends on a particular user's home directory.
- ReasonDisplay.DisplayNotEmptyLines: the line-by-line reading of the `NotEmpty` text holds only for entry names without a newline character. Unix file names may contain one, and such a name would span two lines of the text.
- Case folding covers ASCII letters only, as `to_ascii_lowercase` does. Names that differ in other letters count as different.
