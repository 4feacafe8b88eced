# backup_zip in Dafny

A model of `backup_zip.py`, a small command-line tool that packs a directory
into a ZIP archive. On the way it skips service directories such as `.git` and
`node_modules`, and it never stores the archive it is writing.

The model covers:

- **`should_exclude`** (`Exclusion.ShouldExclude`). A relative path, given as its
  list of segments, is excluded exactly when one whole segment is in the
  exclusion set.
- **The exclusion set built in `main`** (`Exclusion.Excludes`). The `--exclude`
  value is split on commas. Each token is stripped of Python whitespace, tokens
  that strip to nothing are dropped, and the six built-in names are added. Python's
  `str.split`, `str.join` and `str.strip` are modelled in `Text`.
- **`zip_dir`** (`Archiver.ZipDir`). This is a method that walks the tree with an
  explicit stack of directories still to visit, top at the end, as `os.walk` does.
  At each directory it prunes the excluded sub-directories before they are
  pushed. The loop over the directory's files (`Archiver.WriteFiles`) appends an
  entry and bumps the counter for every file that is neither excluded nor the
  archive itself.
- **The walk's specification.** The method is proved equal to a recursive
  specification, `Archiver.Walk`. That specification is proved to be an
  order-preserving filter of the unpruned listing `FileTree.Listing` of every file
  in the tree (`Archiver.WalkIsFilteredListing`). The consequences follow as
  lemmas: what is archived, what never is, and how many entries there are.
- **`is_output_file`** (`Archiver.IsOutputFile`). A file's identity (device and
  inode, in effect) is an abstract `FileId`. The archive's identity is an
  `Option<FileId>`, and `None` stands for `os.path.samefile` raising
  `FileNotFoundError`. In that case no file counts as the archive.
- **The relative paths.** `Paths` covers the segment list the walk derives from
  `os.path.relpath(root, src).split(os.sep)`, including the root's `['.']`
  becoming `[]`. It also covers the name an entry is stored under, and the
  `basename`, `dirname` and `join` calls that build the default output path
  (`Cli`).

The directory tree is a datatype: a `File` has a name and an identity, a `Dir`
has a name and its children in the order the operating system lists them. An
archive entry is the file's relative path, as segments, together with its
identity. The archive being written is the sequence of entries in write order.

## Model

| member | source | states |
|---|---|---|
| Exclusion.ShouldExclude | src/backup_zip.py:13-15 | a path is excluded iff some whole segment of it is in the set; the empty path (the root) is never excluded |
| Exclusion.ExcludedPrefix | src/backup_zip.py:38 | once a directory's path is excluded, every path beneath it is excluded too |
| Exclusion.NoExcludedAncestor | src/backup_zip.py:42-44 | a path that is not excluded has no excluded ancestor |
| Exclusion.Excludes | src/backup_zip.py:59-60 | the set always contains the six defaults and never the empty string; every other member has no comma and no surrounding whitespace |
| Exclusion.ExcludesOfTokens | src/backup_zip.py:59-60 | for an option made of comma-joined tokens, a name is excluded iff it is a default or is the non-empty stripped form of one of the tokens |
| Exclusion.ExcludesOfTwo | src/backup_zip.py:59-60 | an option `a,b` with two names free of commas and surrounding whitespace excludes exactly the defaults plus `a` and `b` |
| Exclusion.NoOptionMeansDefaults | src/backup_zip.py:56-60 | the option's default value `""` gives exactly the six defaults |
| Text.Split | src/backup_zip.py:59 | `str.split` on one character gives one more piece than there are separators, and no piece contains the separator |
| Text.JoinSplit | src/backup_zip.py:59 | joining the pieces of a split with the separator gives back the string |
| Text.SplitJoin | src/backup_zip.py:59 | splitting a join of separator-free pieces gives back the pieces |
| Text.LeadingSpaces | src/backup_zip.py:59 | counts exactly the whitespace run at the start of a string |
| Text.TrailingSpaces | src/backup_zip.py:59 | counts exactly the whitespace run at the end of a string |
| Text.Strip | src/backup_zip.py:59 | `str.strip` leaves no whitespace at either end and gives `""` exactly for an all-whitespace string |
| Text.StripSurrounded | src/backup_zip.py:59 | `str.strip` removes any surrounding whitespace and nothing else |
| Text.StripStripped | src/backup_zip.py:59 | a string without surrounding whitespace is returned unchanged |
| Text.StripIdempotent | src/backup_zip.py:59 | stripping twice is stripping once |
| FileTree.Listing | src/backup_zip.py:33 | the unpruned top-down listing: each entry lies strictly below the directory's path |
| FileTree.ListingAll | src/backup_zip.py:33 | the listings of sibling directories: each entry lies strictly below their parent's path |
| FileTree.FileCountSplit | src/backup_zip.py:33 | a directory's files are its own files plus the files of its sub-directories |
| FileTree.ListingCount | src/backup_zip.py:33 | the unpruned listing has exactly one entry per file in the tree |
| FileTree.ListingAllCount | src/backup_zip.py:33 | the same, for a sequence of sibling directories |
| Archiver.Filter | src/backup_zip.py:43-46 | the kept entries, in order: an entry is in the result iff it is in the input, its path is not excluded and it is not the archive |
| Archiver.FilterAppend | src/backup_zip.py:33-49 | filtering distributes over concatenation, so the walk's order is preserved |
| Archiver.KeptDirs | src/backup_zip.py:38 | a sub-directory survives pruning iff its path `parts + [d]` is not excluded |
| Archiver.FileEntriesFiltered | src/backup_zip.py:40-46 | the file loop writes exactly the kept files of the directory, in listing order |
| Archiver.PrunedListingEmpty | src/backup_zip.py:38 | nothing beneath an excluded path survives the filter |
| Archiver.WalkIsFilteredListing | src/backup_zip.py:33-49 | the pruned walk archives exactly the kept entries of the unpruned listing, in the same order |
| Archiver.WalkAllIsFilteredListing | src/backup_zip.py:38 | walking only the surviving sub-directories gives the kept entries of all sub-directories' listings |
| Archiver.ArchivedIff | src/backup_zip.py:33-49 | an entry is archived iff it is a file of the tree whose path has no excluded segment and which is not the archive |
| Archiver.NoArchivedUnderExcluded | src/backup_zip.py:38-44 | no archived file has an excluded segment in any ancestor directory's path, or in its own |
| Archiver.OutputNeverArchived | src/backup_zip.py:45-46 | no file with the archive's identity is ever archived |
| Archiver.UnknownOutputSkipsNothing | src/backup_zip.py:25-29 | when the archive's identity cannot be determined, every file outside the excluded paths is archived |
| Archiver.PrunedDirArchivesNothing | src/backup_zip.py:38 | a directory reached at an excluded path contributes no entry |
| Archiver.ArchivedAtMostFileCount | src/backup_zip.py:31-50 | the archive holds at most one entry per file of the tree, so a tree without files gives 0 |
| Archiver.RemainingPush | src/backup_zip.py:33 | pushing a directory on the walk's stack puts its walk before what the stack held |
| Archiver.PushDirsRemaining | src/backup_zip.py:33-38 | pushing the surviving sub-directories last-first makes them walked next, in listing order |
| Archiver.VisitTop | src/backup_zip.py:33-49 | one visit (pop, write the files, push the surviving sub-directories) leaves the rest of the archive unchanged and shrinks the work left |
| Archiver.PushDirsUnexcluded | src/backup_zip.py:38 | pushing only surviving sub-directories keeps every directory on the stack at a non-excluded path |
| Archiver.WriteFiles | src/backup_zip.py:40-49 | the file loop appends exactly the kept files of the directory, and the counter stays equal to the number of entries |
| Archiver.ZipDir | src/backup_zip.py:17-50 | fails iff the source is missing or not a directory, before anything is written; otherwise the entries are exactly the walk's, and the returned count equals their number; its loop invariant keeps every directory it visits at a non-excluded path |
| Paths.RelPartsOfRelPath | src/backup_zip.py:35-37 | the segments computed from the relative path are the names descended through; the root gets `[]` |
| Paths.FileListingEntry | src/backup_zip.py:42 | each entry of a directory's file listing is the directory's path plus one of its file names |
| Paths.FilesAndSubdirsIn | src/backup_zip.py:33 | the files and sub-directories listed for a directory are among its children |
| Paths.ListingNames | src/backup_zip.py:35-42 | in a tree of valid names, every listed path is made of valid names |
| Paths.ListingAllNames | src/backup_zip.py:35-42 | the same, for a sequence of sibling directories |
| Paths.ArchivedNamesDistinct | src/backup_zip.py:47-48 | in a tree of valid names, two archived files share a stored name only if they share a relative path |
| Paths.ArcNameDeterminesPath | src/backup_zip.py:47-48 | two entries stored under the same name have the same relative path |
| Paths.SepEnd | src/backup_zip.py:67-68 | the position just after the last separator; no separator follows it |
| Paths.BaseName | src/backup_zip.py:67 | `basename` is the longest separator-free tail of the path: all of it, or what follows a separator |
| Paths.RStripSeps | src/backup_zip.py:68 | removes exactly the trailing separators |
| Paths.DirName | src/backup_zip.py:68 | `dirname` is the part of the path up to its last separator with the trailing separators removed, kept whole when it is separators only |
| Paths.JoinSplitsBack | src/backup_zip.py:69 | `join(dir, name)` has `dirname` `dir` and `basename` `name` |
| Paths.SepEndAfter | src/backup_zip.py:69 | after a separator-free name, the last separator is the one that ends the directory part |
| Cli.OutPath | src/backup_zip.py:63-69 | a non-empty `--out` is used as given, a missing or empty one gives the default path; the output path is never empty |
| Cli.DefaultOutBesideSource | src/backup_zip.py:66-69 | the default archive lies in the source's parent (or `.`) and is named `<base>_<ts>.zip`, with `backup` when there is no base name |
| Cli.NameHasNoSep | src/backup_zip.py:69 | the default archive name `<base>_<ts>.zip` has no separator when the base name and the timestamp have none |
| Cli.DefaultsNeverArchived | src/backup_zip.py:59-60 | whatever `--exclude` says, no segment of an archived path is one of the six defaults |
| Scenarios.DefaultsKeepOnlySources | src/backup_zip.py:11 | a tree with `.git/config`, `src/a.py` and `node_modules/x/y.js` archives only `src/a.py` |
| Scenarios.TopLevelPruned | src/backup_zip.py:38 | at that tree's top `.git` and `node_modules` are pruned and only `src` is descended into |
| Scenarios.SourcesSubtree | src/backup_zip.py:40-49 | the `src` directory of that tree yields the single entry `src/a.py` |
| Scenarios.TmpLogsOption | src/backup_zip.py:59-60 | `--exclude "tmp,logs"` gives the defaults plus `tmp` and `logs` |
| Scenarios.ExtraExcludesKeepReadme | src/backup_zip.py:59-60 | under `--exclude "tmp,logs"`, a tree with `tmp/cache.bin`, `logs/out.log` and `readme.md` archives only `readme.md` |
| Scenarios.ReadmeOnly | src/backup_zip.py:38-44 | the same tree walked with `tmp` and `logs` in the exclusion set archives only `readme.md` |
| Scenarios.ArchiveInsideSourceSkipped | src/backup_zip.py:45-46 | an archive written inside the source tree is not stored in itself |

## Left out

- Filesystem access is not modelled: `os.walk`, `os.path.isdir`, `abspath` and `samefile`. The tree is a datatype given to `ZipDir`, the listing order is taken as the operating system returns it, and file identity is an abstract number.
- Making paths absolute is not modelled (src/backup_zip.py:18-19). Relative paths are modelled from the segments down.
- Failing to create the archive (src/backup_zip.py:32) is not modelled: a missing parent directory, no permission, or an output path that names a directory. `ZipDir` assumes the archive can be opened.
- `IsOutputFile`'s `None` is decided once for the whole run. In the source, `ZipFile(out_path, "w")` creates the archive before the walk, so `samefile` raising `FileNotFoundError` normally means the file being looked at is missing (a broken symbolic link, say), and `zf.write` then fails anyway. The run-wide `None` corresponds to the archive vanishing during the walk. A per-file missing target is not modelled.
- Tree names are not constrained by the datatype. `Paths.RelPartsOfRelPath`, `Paths.ArcNameDeterminesPath` and `Paths.ArchivedNamesDistinct` assume names a directory listing can return (`ValidTree`, `ValidName`).
- Symbolic links are not modelled. `os.walk` lists a link to a directory under `dirs` but does not descend into it, and the tree datatype has no links.
- The ZIP container and DEFLATE compression (`zipfile.ZipFile`, `zf.write`) are not modelled. Writing a file is appending its entry to a sequence, so the archive's bytes, and the empty archive file that is created before the walk, are not modelled.
- The in-place assignment `dirs[:] = ...` is modelled as the function `KeptDirs`, whose result is pushed on the walk's stack. Aliasing with the list `os.walk` holds is not modelled.
- I/O errors part-way through the walk are not modelled; they depend on the running system. This includes the errors `os.walk` silently ignores, a file that disappears before it is written, and a permission failure.
- Command-line parsing, printing, the exit status and the top-level exception handler are not modelled (src/backup_zip.py:52-58, 71-80). `ZipDir`'s `SourceNotFound` outcome stands for the raised `FileNotFoundError`.
- The timestamp of the default output name comes from the wall clock (src/backup_zip.py:66). It is a parameter of `Cli.DefaultOutPath`.
- Path separators are POSIX only (`/`). Windows drive letters and `\` separators are not modelled.
- `src/extra_v66.py` is not part of this model. It hashes host information and the current time, and it has no logic that the archiver uses.
