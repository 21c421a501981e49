# Paerius in Dafny

Paerius packs a Composer `vendor` directory into a single Phar archive.
Before it archives, it prunes the vendor tree:

- it walks every leaf file below the vendor directory;
- it deletes each file that sits below a deny-listed directory (`tests`, `.git`, …), has a deny-listed lower-cased extension (`md`, `pyc`, …), or has a deny-listed exact name (`LICENSE`, `Makefile`, …);
- directories themselves are never deleted by this pass.

After pruning, it picks a compression (forced by a prefix of the caller's option, or detected from what the runtime supports) and writes a stub that maps the archive under its base name and requires its `autoload.php`.

This project models that core:

- `PhpStrings`: the PHP string built-ins the code relies on (`rtrim`, `trim`, `substr`, `explode`, `strtolower`, `stripos`), over ASCII case mapping, plus `Implode`: the code never calls `implode`, but joining segments with `/` is how the proofs describe the path string the iterator builds level by level.
- `PruneFilter`: the three deny lists, `pathinfo(…, PATHINFO_EXTENSION)` and the filter callback, on the strings the iterator hands it.
- `FileTree`: the vendor directory as a map from segment paths to files and directories. It holds:
  - the path string the iterator renders for each entry;
  - which leaves the filter marks;
  - the specification of the prune pass (`Pruned`) and of `remove` (`Without`).
- `Settings`: the constructor's path normalisation and directory checks, the archive path, the compression choice and the stub.
- `Packer`: the class `Paerius` with its fields. Its methods are:
  - the recursive `remove`, with its listing loop as `RemoveChildren`;
  - the filtered leaves-only walk of `cleanupVendorDir` (`Walk` and `Visit`);
  - `build`, which returns what it would hand to the Phar writer.

`is_dir` on the working and vendor path strings is a parameter `isDir`, the set of path strings that name directories.
The vendor tree is the state of the `Paerius` object.
Directory listings are read in an unspecified order: the walk and `remove` take the entries of a directory in any order (`:|`), and every contract holds for every order.

## Model

| member | source | states |
|---|---|---|
| PruneFilter.Filter | src/Paerius.php:96-114 | an entry with children is always accepted, so the walk descends; a `.` or `..` leaf is never accepted |
| PruneFilter.LastDotBeforeSpec | src/Paerius.php:104 | the scan finds a dot with no dot after it, or reports that there is no dot |
| PruneFilter.ExtensionSpec | src/Paerius.php:104 | the extension is the dot-free tail after the last dot, and empty when the name has no dot |
| PruneFilter.ExtensionOf | src/Paerius.php:104 | `base.ext` has extension `ext` for any dot-free `ext`, so `.gitignore` has extension `gitignore` |
| PruneFilter.ExtensionWithoutDot | src/Paerius.php:104 | a name without a dot has the empty extension |
| PruneFilter.DeniedNameExamples | src/Paerius.php:104-110 | `NOTES.MD` (extension lower-cased), `.gitignore` (extension) and `LICENSE` (exact name) are marked |
| PruneFilter.KeptNameExamples | src/Paerius.php:104-110 | exact names are case-sensitive, so `license` is not marked by name; directory names are not matched against the entry's own name, so neither is a file named `tests` |
| FileTree.RenderIsImplode | src/Paerius.php:90 | the path string of an entry is the vendor path, a separator and its segments joined by separators |
| FileTree.RenderTail | src/Paerius.php:105 | cutting the vendor path's length off an entry's path string leaves a separator and the joined segments |
| FileTree.DirnamesOfRender | src/Paerius.php:103-105 | the directory names the filter recovers from a directory's path string are exactly its segments (`['']` at the vendor root) |
| FileTree.MarkedIff | src/Paerius.php:102-110 | a leaf is marked iff some directory strictly between the vendor root and it is deny-listed (whole-segment match), or its own lower-cased extension or exact name is deny-listed; this holds for every vendor path |
| FileTree.NoDeniedSegmentAtRoot | src/Paerius.php:105-106 | a file directly in the vendor root has no directory name that matches the list |
| FileTree.DirectoryExamples | src/Paerius.php:105-106 | `pkg/tests/t.ext` lies below a deny-listed directory; `pkg/mytests/t.ext`, `pkg/tests` and `pkg/.DS_Store` do not (the entry's own name is not a directory name) |
| FileTree.Pruned | src/Paerius.php:83-94 | after the prune pass every directory is still there, every survivor is unchanged, and a leaf file survives iff it is not marked |
| FileTree.PrunedSurvivors | src/Paerius.php:83-114 | a file survives the prune pass iff no directory above it is deny-listed and neither its lower-cased extension nor its exact name is |
| FileTree.DeniedDirectoryEmptied | src/Paerius.php:83-114 | a deny-listed directory survives the pass, but only directories remain below it |
| FileTree.PrunedIdempotent | src/Paerius.php:83-94 | a second prune pass deletes nothing further |
| FileTree.PrunedWellFormed | src/Paerius.php:83-94 | pruning leaves a well-formed tree: every remaining entry still sits in a remaining directory |
| FileTree.NothingBelowLeaf | src/Paerius.php:139-141 | nothing lies strictly below a missing path or a file |
| FileTree.WithoutLeaf | src/Paerius.php:128-142 | `remove` of a missing path changes nothing; `remove` of a file deletes that file alone |
| FileTree.WithoutWellFormed | src/Paerius.php:128-142 | removing a whole subtree leaves a well-formed tree |
| FileTree.ChildNamed | src/Paerius.php:131 | each name a directory lists is one of its entries |
| FileTree.BelowIsUnderChild | src/Paerius.php:131-134 | every entry strictly below a directory lies under one of the names the directory lists |
| FileTree.SubtreeShrinks | src/Paerius.php:133 | an entry below a child has fewer entries at or under it than its parent had before, so the recursion of `remove` and of the walk ends |
| PhpStrings.RTrimSpec | src/Paerius.php:41 | `rtrim` keeps the longest prefix not ending in the separator, and strips only separators |
| PhpStrings.RTrimIdempotent | src/Paerius.php:41 | trimming the trailing separators a second time changes nothing |
| PhpStrings.LTrimSpec | src/Paerius.php:105 | `ltrim` keeps the longest suffix not starting with the separator, and strips only separators |
| PhpStrings.TrimOneLeading | src/Paerius.php:105 | text that neither starts nor ends with the separator trims back to itself after one leading separator is added |
| PhpStrings.Substr | src/Paerius.php:105 | `substr` from a start inside the text gives the rest after that start, and the empty string past the end |
| PhpStrings.SubstrAfter | src/Paerius.php:105 | `substr` from the length of a prefix gives back the separator and the text that follow it |
| PhpStrings.ExplodeSpec | src/Paerius.php:105 | `explode` gives at least one piece, and no piece holds the separator |
| PhpStrings.ExplodeSeparatorFreePrefix | src/Paerius.php:105 | separator-free text glued in front only lengthens the first piece |
| PhpStrings.ExplodeImplode | src/Paerius.php:105 | splitting what was joined gives back the pieces when none holds the separator |
| PhpStrings.ImplodeExplode | src/Paerius.php:105 | joining the pieces of a split gives back the text |
| PhpStrings.ImplodeAppend | src/Paerius.php:90 | appending a piece appends one separator and the piece |
| PhpStrings.ImplodeEnds | src/Paerius.php:105 | joined non-empty pieces start with the first piece's first character and end with the last piece's last character |
| PhpStrings.FindCI | src/Paerius.php:67-73 | the search returns the first case-insensitive occurrence at or after the start, or none |
| PhpStrings.Stripos | src/Paerius.php:67-73 | `stripos` returns the first case-insensitive occurrence, or none when there is no occurrence anywhere |
| PhpStrings.StriposAtStart | src/Paerius.php:67-73 | `stripos($s, 'bz') === 0` is exactly "`s` starts with `bz`, ignoring case" |
| Settings.Configure | src/Paerius.php:40-45 | on success: the working path is the given path without its trailing separators; the vendor path is the working path plus `/vendor`; both are directories; the base name is the one given. On failure, checked in this order: if the trimmed working path is not a directory the error names exactly that path; otherwise, if the trimmed path plus `/vendor` is not a directory the error names exactly that path; otherwise the error is the missing base name |
| Settings.ConfigureSucceeds | src/Paerius.php:40-45 | construction succeeds iff the right-trimmed working path and its `vendor` child are directories and a base name is given |
| Settings.ConfigureIgnoresTrailingSeparators | src/Paerius.php:41 | a trailing separator on the working path makes no difference |
| Settings.ArchiveBesideVendor | src/Paerius.php:54 | the archive path (working path, `/`, base name) equals the vendor path (working path plus `/vendor`) exactly when the base name is `vendor` |
| Settings.DefaultArchivePath | src/Paerius.php:16 | with the default base name, the archive is `vendor.phar` in the normalised working directory |
| Settings.StubAliasRoundTrip | src/Paerius.php:75 | the base name is read back verbatim from the stub, so distinct base names give distinct stubs |
| Settings.StubRequiresAutoload | src/Paerius.php:75 | the stub requires `phar://<baseName>/autoload.php` |
| Settings.SelectCompression | src/Paerius.php:67-73 | forced: bzip2 iff the option starts with `bz` (any case); gzip iff it starts with `gz` and not `bz`; otherwise none. Automatic: bzip2 iff `BZIP2` is supported; gzip iff `GZ` is and `BZIP2` is not; otherwise none |
| Settings.ForcedIgnoresSupport | src/Paerius.php:67-73 | a forced option decides alone: the supported list is not consulted |
| Settings.CompressionExamples | src/Paerius.php:67-73 | `gzip` forces gzip even where bzip2 is supported; `none` and the empty string force none; `BZ2` forces bzip2; detection prefers `BZIP2` and matches names exactly |
| Packer.PostOrderAppend | src/Paerius.php:131-137 | two deletion logs in post-order, where nothing in the first is an ancestor of anything in the second, stay in post-order when concatenated |
| Packer.RemoveChildStep | src/Paerius.php:131-135 | removing one more listed child advances the removal loop, and that child has fewer entries at or under it than `src` had |
| Packer.RemoveLogStep | src/Paerius.php:131-135 | the deletion log, extended with one more child's log, lists exactly the entries under the children handled so far, in post-order |
| Packer.RemoveLogFinish | src/Paerius.php:137 | logging the directory after everything below it keeps the log in post-order and completes the subtree |
| Packer.RemoveFinish | src/Paerius.php:136-137 | once every listed child is gone, removing the directory leaves the tree without the whole subtree |
| Packer.WalkStep | src/Paerius.php:88-91 | a child not yet visited is still there; it has fewer entries at or under it than its directory had; pruning below it advances the walk over its parent |
| Packer.PrunedBelowLeaf | src/Paerius.php:90 | below a leaf file, pruning deletes the file itself iff it is marked, and nothing else |
| Packer.WalkFinish | src/Paerius.php:83-94 | once every listed child has been visited, the walk has pruned the whole directory |
| Packer.PrunedBelowWellFormed | src/Paerius.php:83-94 | pruning below any directory keeps the tree well formed |
| Packer.Paerius.constructor | src/Paerius.php:40-45 | the fields hold the configuration `Configure` computes, and the vendor tree is the one given |
| Packer.Paerius.Remove | src/Paerius.php:128-142 | nothing at or below `src` remains and everything else is unchanged (a missing path is a no-op); each deleted path is logged exactly once, children before their directory |
| Packer.Paerius.RemoveChildren | src/Paerius.php:130-136 | the listing loop removes every listed entry of `src` with all below it, keeps `src`, and logs exactly those entries, in post-order |
| Packer.Paerius.Walk | src/Paerius.php:83-94 | the walk below `dir` deletes exactly the marked leaf files below `dir` |
| Packer.Paerius.Visit | src/Paerius.php:88-91 | one entry of the walk: a directory is walked, a marked leaf file is removed, anything else is kept |
| Packer.Paerius.CleanupVendorDir | src/Paerius.php:83-94 | the vendor tree becomes `Pruned` of the old tree, and the vendor root is still a directory |
| Packer.Paerius.Build | src/Paerius.php:53-76 | prunes the vendor tree, then yields the archive path `working/baseName`, the compression `SelectCompression` picks and the stub for the base name |

## Left out

- Writing the archive is not modelled: creating the `Phar`, its metadata with `date('c')`, the SHA1 signature, `buildFromDirectory`, `compressFiles` and `setStub`. `Build` returns the path, compression and stub it would pass on, and omits `build`'s boolean result.
- Packer.Paerius.Build: does not delete a stale archive at the archive path (src/Paerius.php:55-57). When the base name holds no `/`, the archive lies directly in the working directory, outside the vendor tree, which is the only file system the model holds. The base name is any string, though: one such as `vendor/app.phar` puts the archive inside the vendor tree, and the source would then delete that file before pruning. The model does not capture that deletion, so `Build`'s contract speaks only of the pruned tree.
- `is_dir` on the working and vendor path strings is the parameter `isDir`. Inside the vendor tree, `is_dir` and `is_file` are lookups in the tree.
- The tree has regular files and directories only:
  - symbolic links are not modelled, nor is the iterator's refusal to descend into them;
  - permissions are not modelled;
  - failures of `opendir`, `readdir`, `unlink` and `rmdir` (PHP warnings) are not modelled.
- The `.` and `..` entries are not stored in the tree. The filter's refusal of them is proved on `Filter`, and `remove` skips them by construction.
- Packer.Paerius.Remove: a directory is listed once, when it is opened. Whether `readdir` also reports entries removed during the listing does not arise here: removing a child never adds or removes a sibling.
- The deny lists are public static arrays that other code may reassign. The model fixes them to their declared values.
- `strtolower` maps ASCII letters only. Locale-dependent case mapping is not modelled.
- `DIRECTORY_SEPARATOR` is `/`. `remove` hard-codes `/`, so on a platform with another separator its paths would mix separators; that case is not modelled.
- Packer.Paerius.constructor: requires that `Configure` succeeds. The constructor's exceptions are modelled by `Configure`'s errors:
  - `WorkingPathNotDirectory` and `VendorPathNotDirectory` for the two `RuntimeException`s;
  - `NullBaseName` for the type error that passing `null` as the base name raises at `setBaseName`.
- The getters `getBaseName`, `getVendorPath` and `getWorkingPath` are the class's fields. They are constant because only the constructor's setters assign them.
- Worked examples of the filter are stated on the name rule (`DeniedLeafName`) and the directory rule (`BelowDeniedDirectory`). `MarkedIff` proves these rules equal to the filter's verdict on every leaf, so the examples are not also stated on literal path strings.
