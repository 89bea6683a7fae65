# compare_and_replace in Dafny

A model of `compare_and_replace.py`, a console tool that compares the
old and new versions of files and directories. For each path argument
it works out the pair `cur` / `cur.new` and dispatches on what exists
there:

- a missing candidate is reported and skipped;
- a missing current object receives the candidate;
- a current or candidate object that is neither a regular file nor a
  directory is skipped;
- a file facing a directory is skipped;
- two files go to the file workflow;
- two directories go to the directory workflow.

The file workflow removes an identical candidate. Otherwise it shows the
pair and asks: `y` replaces the current file, `b` replaces it after
moving the current file to `cur.bak`, `n` skips and `q` quits.

The directory workflow walks both trees in sorted order and skips vim
swap files (`.*.swp`). It records a verb for every item except a
directory present on both sides, which it descends into instead:
delete, create, alter or leave. An item present on both sides that is neither a
regular file on both sides nor a directory on both sides stops the run. If nothing would be deleted, created or
altered, the candidate tree is removed. Otherwise a summary of the four
groups is printed. The operator can then examine groups (`d c a l`),
install the candidate tree (`y`) or skip it (`n`).

The model has seven modules:

- `Wrappers` has the optional value used by the differ's reference and
  the console reader.
- `Paths` has Python's string order, sorting a set of names, and the
  swap-file pattern.
- `FileSystem` is the filesystem as a map from path to node (file bytes,
  directory entries, or anything else `lstat` can show). It also has
  `get_type` and the mutations the tool performs.
- `TreeDiff` is the tree differ (`recurse_on_rel_path`). Its reference
  is `Classify`, which says independently, path by path, which verb an
  item deserves.
- `Aggregate` holds the grouping by verb, the "no effect" test and the
  printed summary.
- `Prompt` is `get_input` over a finite sequence of console lines. Running
  out of lines is where Python's `input` raises `EOFError`.
- `CompareAndReplace` holds the two workflows and the argument loop. A
  run's state is a `Session`: the filesystem, the unread console lines,
  the viewer calls made and the summaries printed. A run ends with
  `Next` or with `Stop` and a reason: quit, kind clash, end of input, or
  a rename that cannot happen.

## Model

| member | source | states |
|---|---|---|
| Paths.SortedSeq | compare_and_replace.py:126 | The names of one level are visited in strictly increasing string order, each exactly once, and all of them are visited. |
| FileSystem.KindOf | compare_and_replace.py:69-76 | `get_type` answers 'dir' exactly for a directory, 'reg' exactly for a regular file and 'other' for anything else `lstat` can show. The three answers are told apart by the node alone. |
| TreeDiff.Diff | compare_and_replace.py:113-157 | `recurse_on_rel_path('.')` over the two roots. It has no contract of its own. What it computes is stated by `TreeDiff.DiffSucceedsIffCompatible`, `TreeDiff.DiffKeysExplained` and `TreeDiff.DiffMatchesClassify`. |
| TreeDiff.DiffNames | compare_and_replace.py:126-155 | The loop over one level's sorted names, merging each item's keys in visiting order. It has no contract of its own. It is tied to the reference by `TreeDiff.DiffNamesSucceeds`, `TreeDiff.DiffNamesSound` and `TreeDiff.DiffNamesComplete`. |
| TreeDiff.DiffEntry | compare_and_replace.py:127-155 | One item: delete, create, leave or alter, a descent into two directories, or the `assert` on any other pair. It has no contract of its own. It is tied to the reference by `TreeDiff.DiffEntrySucceeds`, `TreeDiff.DiffEntrySound` and `TreeDiff.DiffEntryComplete`. |
| TreeDiff.Classify | compare_and_replace.py:129-155 | The reference definition, path by path: the verb an item deserves, or none for a swap file on the way, a path on neither side, two directories, or a clash. It has no contract of its own; it is the partner the differ is proved against. |
| TreeDiff.Compatible | compare_and_replace.py:137-151 | The reference definition of "no clash": every non-swap item present on both sides is a regular file on both sides, or a directory on both sides whose contents are compatible. It has no contract of its own; it is the partner of `TreeDiff.DiffSucceedsIffCompatible`. |
| TreeDiff.LevelNames | compare_and_replace.py:116-126 | A level lists exactly the names present on either side that are not swap files, in sorted order. |
| TreeDiff.DiffSucceedsIffCompatible | compare_and_replace.py:129-151 | The differ stops on its `assert` exactly when some non-swap item, at any depth, is present on both sides but is neither a regular file on both sides nor a directory on both sides: a file facing a directory, and anything facing an `Other` object, including two `Other` objects. |
| TreeDiff.DiffKeysExplained | compare_and_replace.py:113-157 | Every recorded key belongs to a path from the roots whose independent classification is the recorded verb. |
| TreeDiff.DiffKeysRooted | compare_and_replace.py:127-157 | Every recorded key starts with "./" because the walk starts at ".". |
| TreeDiff.DiffCoversClassified | compare_and_replace.py:129-155 | Every path the reference classifies gets a key in the differ's map. |
| TreeDiff.DiffMatchesClassify | compare_and_replace.py:129-155 | For every path of real names, a key is recorded exactly when the reference classifies the path, and with the reference's verb. Delete means only in the current tree, create means only in the candidate, and leave or alter compares the bytes of two files. Directories on both sides get no key of their own. |
| TreeDiff.PathKeyInjective | compare_and_replace.py:127 | Two different paths of slash-free names never share a key, so no recorded action overwrites another. |
| TreeDiff.ClassifiedPathAvoidsSwapFiles | compare_and_replace.py:121-123 | No recorded path runs through a name matching `.*.swp`. |
| TreeDiff.DiffOfIdenticalTrees | compare_and_replace.py:137-148 | A tree of files and directories compared with an identical copy compares without a clash and leaves every item. |
| Aggregate.Group | compare_and_replace.py:159-166 | A path is in the group of a verb exactly when the differ recorded that verb for it, and each group is in sorted order. |
| Aggregate.GroupsPartition | compare_and_replace.py:165-166 | The four groups partition the recorded paths: no path is in two groups, every path is in its verb's group, and no group repeats a path. |
| Aggregate.NoEffectIffOnlyLeave | compare_and_replace.py:170 | "Have no effect" is reported exactly when every recorded item would be left. |
| Aggregate.Render | compare_and_replace.py:168-186 | The summary says "no effect" exactly when nothing would be deleted, created or altered. Otherwise it has the four sections in the order delete, create, alter, leave. |
| Aggregate.RenderKeepsGroups | compare_and_replace.py:176-186 | "(nothing)" appears exactly for an empty group. A count appears exactly for a `leave` group of more than ten paths, and it is the group's size. Every other listing gives back its group line by line once "./" is put in front. |
| Aggregate.ShownPath | compare_and_replace.py:186 | The corrected display drops exactly the leading "./", so the key can be recovered from the line. |
| Aggregate.ReplaceDotSlash | compare_and_replace.py:186 | The display as written: `str.replace` removes every "./", scanning from the left. The line is never longer than the key, and a line for a key starting with "./" is at least two characters shorter than the key. |
| Aggregate.ReplaceDotSlashAgreesOnPlainKeys | compare_and_replace.py:186 | On a key whose only "./" is the leading one, the display as written and the corrected display give the same line. |
| Aggregate.ReplaceDotSlashConflates | compare_and_replace.py:186 | The display as written shows the keys "./x./y" and "./xy" both as "xy". The corrected display keeps them apart. |
| Prompt.GetInput | compare_and_replace.py:229-235 | The answer is the first line in the valid set, and every earlier line is rejected. There is no answer exactly when no line is valid. |
| Prompt.GetInputSkips | compare_and_replace.py:229-235 | Rejected lines at the front only delay the answer by their number. |
| Prompt.GetInputNarrowed | compare_and_replace.py:229-235 | An answer valid for a narrower set of responses is read at the same line when asking for that narrower set. |
| FileSystem.Remove | compare_and_replace.py:82 | The removed path is gone and every other path is as it was. |
| FileSystem.Rename | compare_and_replace.py:41 | The destination holds what the source held, the source is gone, and nothing else changes. |
| FileSystem.BackupThenReplace | compare_and_replace.py:90-100 | With `b`, `cur` holds the candidate, `cur.bak` holds the old current object, and the candidate path is gone. Any older backup is dropped and nothing else changes. |
| FileSystem.InstallTree | compare_and_replace.py:193-194 | With `y` on directories, `cur` holds the candidate tree, the candidate path is gone, and nothing else changes. |
| CompareAndReplace.Counterpart | compare_and_replace.py:27-32 | The candidate is always the current path plus ".new". An argument ending in ".new" is the candidate. Any other argument is the current path. |
| CompareAndReplace.CounterpartOfCandidate | compare_and_replace.py:27-32 | Naming an argument by its candidate path gives the same pair. |
| CompareAndReplace.HandleFiles | compare_and_replace.py:78-108 | Identical files: the candidate is removed, nothing is asked and nothing else changes. Different files: the pair is shown once, then the first valid answer decides. `y` puts the candidate at `cur`. `b` also keeps the old file at `cur.bak`. `n` changes nothing. `q` and the end of input stop the run unchanged. |
| CompareAndReplace.GroupVerb | compare_and_replace.py:200-205 | The table from `d`, `c`, `a`, `l` to the group examined. A helper without a contract: the selection loop only calls it on those four letters. |
| CompareAndReplace.Inspect | compare_and_replace.py:206-209 | One viewer call per path of the group, in order, on the two paths under the two roots. It has no contract of its own. What examining does is stated by `CompareAndReplace.Examine` and `CompareAndReplace.SelectionDecidedByFirstYesOrNo`. |
| CompareAndReplace.Examine | compare_and_replace.py:206-209 | Examining a group only adds viewer calls: the filesystem, the unread lines and the printed summaries stay as they were, and earlier viewer calls are kept. |
| CompareAndReplace.Select | compare_and_replace.py:188-209 | The selection loop only reads console lines from the front and only adds viewer calls. |
| CompareAndReplace.SelectionDecidedByFirstYesOrNo | compare_and_replace.py:188-209 | Examining groups changes nothing. The loop ends as the first `y` or `n` among the lines says: `y` installs the candidate tree and `n` leaves both trees. With neither, the run stops at the end of input with the filesystem as it was. |
| CompareAndReplace.HandleDirs | compare_and_replace.py:110-209 | A kind clash stops the run with nothing changed. If every item would be left, only the candidate tree is removed and nothing is asked. Otherwise the first `y` or `n` decides. Only the pair of paths can change. |
| CompareAndReplace.Settle | compare_and_replace.py:168-198 | After a comparison without a clash, the summary of the groups is recorded as printed. A summary with no effect removes the candidate without a question. Any other summary leads to the selection loop, decided by the first `y` or `n`. |
| CompareAndReplace.IdenticalTreesRemoveCandidate | compare_and_replace.py:170-174 | A directory holding only regular files and directories, at every level, compared with an identical copy loses the copy, keeps its own contents, and reads no console line. Identical trees holding a symbolic link to a file or a fifo are excluded: the source stops on its `assert` for them. |
| CompareAndReplace.ProcessArg | compare_and_replace.py:34-67 | A missing candidate, an object that is neither a regular file nor a directory, or two objects of different kinds change nothing. A missing current object receives the candidate; the empty current path stops the run. Two regular files give exactly the outcome of `HandleFiles`, two directories exactly that of `HandleDirs`. Only the pair and its backup path can change. |
| CompareAndReplace.Dispatch | compare_and_replace.py:44-67 | With both objects present: a pair that is not two regular files or two directories changes nothing, two files run the file workflow and two directories the directory workflow. Only the pair and its backup path can change. |
| CompareAndReplace.Run | compare_and_replace.py:21-67 | Over all arguments, only the arguments' pairs and backup paths can change, and the console is read from the front. |
| CompareAndReplace.MissingCandidateSkipped | compare_and_replace.py:34-37 | An argument whose candidate is missing is skipped and the run carries on with the next one. |

## Left out

- Argument parsing and the `-d dir_prefix` option (lines 13-25): the
  model takes the final list of paths.
- The viewer (`gdiff`, lines 222-227) is recorded as a `View` of two
  paths. Its shell command and return code are not modelled; it is
  assumed to change nothing.
- All console text and stderr messages, and the exact wording of the
  prompts and the summary. The summary is a `Report` value.
- `sys.exit(1)`, the `assert`s and uncaught exceptions are modelled as
  the `Stop` reasons. Process exit codes are not modelled.
- `filecmp.cmp(shallow=False)` is modelled as equality of the byte
  sequences.
- `os.scandir` order does not matter, because the names are sorted.
  Python's string order on code points is modelled as lexicographic
  order on `char`.
- Symbolic links: an entry that is neither a regular file nor a
  directory is `Other`. The source's `is_dir()` at line 145 follows
  symbolic links. So it descends when both entries are directories or
  links to directories: two links, or a real directory facing a link.
  The model treats every such pair that involves a link as a kind clash.
- `os.path.exists` on a broken symbolic link, and `shutil.rmtree`
  refusing a link to a directory, are not modelled.
- The filesystem is a flat map from the paths the tool names to their
  objects. Arguments that overlap (one inside another's tree) are not
  modelled.
- Failures of `os.rename` and `os.remove` other than renaming onto the
  empty path, such as permissions or a missing parent directory, are
  not modelled.
- The commented-out viewer variants (lines 211-220) are not modelled.
- `stderr` and the `main()` call (lines 237-240) are not modelled.
- Aggregate.Render: the summary lists each path through the corrected
  display `ShownPath`, which drops only the leading "./". Line 186
  removes every "./" (`ReplaceDotSlash`), so for a key with a further
  "./" the model's summary differs from what the program prints. See
  "## Findings".
- CompareAndReplace.Run: its contract states the frame and the reading
  of the console but not a per-argument outcome. The per-argument
  contracts are those of `ProcessArg`.

## Findings

| source | as written | input that shows it | evidently intended | confidence | as-written member | corrected member |
|---|---|---|---|---|---|---|
| compare_and_replace.py:186 | `item_path.replace("./", "")` removes every "./" in the relative path, not only the leading one. | A directory `x.` holding a file `y` next to a file `xy`: the keys "./x./y" and "./xy" are both listed as "xy". | Drop only the leading "./" that every key carries, so each line names one item. | medium, not executed | Aggregate.ReplaceDotSlashConflates | Aggregate.ShownPath |

The summary in the model (`Aggregate.Render`) uses the corrected display.
`Aggregate.RenderKeepsGroups` proves that every listed line gives back
its key.
