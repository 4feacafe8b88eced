/** `zip_dir`: a top-down walk of the source directory that prunes excluded
    sub-directories before descending, skips excluded files and the archive
    itself, and stores every other file under its path relative to the source. */
module Archiver {
  import opened FileTree
  import opened Exclusion

  /** `is_output_file`: whether a file is the archive being written. `out` is
      the archive's identity, `None` when `os.path.samefile` cannot determine
      it (it raised `FileNotFoundError`), in which case no file is the archive. */
  predicate IsOutputFile(id: FileId, out: Option<FileId>) {
    match out
    case None => false
    case Some(o) => o == id
  }

  /** Whether an entry of the unpruned listing ends up in the archive. */
  predicate Kept(e: Entry, excludes: set<string>, out: Option<FileId>) {
    !ShouldExclude(e.parts, excludes) && !IsOutputFile(e.id, out)
  }

  /** The entries of `es` that are kept, in order. */
  function Filter(es: seq<Entry>, excludes: set<string>, out: Option<FileId>): (r: seq<Entry>)
    ensures |r| <= |es|
    ensures forall e :: e in r <==> e in es && Kept(e, excludes, out)
  {
    if es == [] then []
    else (if Kept(es[0], excludes, out) then [es[0]] else []) + Filter(es[1..], excludes, out)
  }

  lemma AppendAssoc(a: seq<Entry>, b: seq<Entry>, c: seq<Entry>)
    ensures a + (b + c) == (a + b) + c
  {
  }

  lemma {:induction false} FilterAppend(a: seq<Entry>, b: seq<Entry>, excludes: set<string>, out: Option<FileId>)
    ensures Filter(a + b, excludes, out) == Filter(a, excludes, out) + Filter(b, excludes, out)
  {
    if a != [] {
      assert (a + b)[1..] == a[1..] + b;
      FilterAppend(a[1..], b, excludes, out);
    } else {
      assert a + b == b;
    }
  }

  /** The entries the loop over `files` writes for the directory at `parts`. */
  function FileEntries(files: seq<FileNode>, parts: seq<string>, excludes: set<string>, out: Option<FileId>): seq<Entry>
  {
    if files == [] then []
    else
      var rel := parts + [files[0].name];
      (if ShouldExclude(rel, excludes) || IsOutputFile(files[0].id, out) then []
       else [Entry(rel, files[0].id)])
      + FileEntries(files[1..], parts, excludes, out)
  }

  /** The pruning of `dirs` before descent: a sub-directory survives exactly
      when its path is not excluded, and the survivors keep their order. */
  function KeptDirs(dirs: seq<DirNode>, parts: seq<string>, excludes: set<string>): (r: seq<DirNode>)
    ensures SizeAll(r) <= SizeAll(dirs)
    ensures forall d :: d in r <==> d in dirs && !ShouldExclude(parts + [d.name], excludes)
  {
    if dirs == [] then []
    else if ShouldExclude(parts + [dirs[0].name], excludes) then KeptDirs(dirs[1..], parts, excludes)
    else [dirs[0]] + KeptDirs(dirs[1..], parts, excludes)
  }

  /** What the walk archives from directory `d`, reached at relative path
      `parts`: its own files, then each sub-directory that survived pruning. */
  function Walk(d: DirNode, parts: seq<string>, excludes: set<string>, out: Option<FileId>): seq<Entry>
    decreases Size(d), 1
  {
    FileEntries(Files(d.children), parts, excludes, out)
    + WalkAll(KeptDirs(Subdirs(d.children), parts, excludes), parts, excludes, out)
  }

  function WalkAll(ds: seq<DirNode>, parts: seq<string>, excludes: set<string>, out: Option<FileId>): seq<Entry>
    decreases SizeAll(ds), 2
  {
    if ds == [] then []
    else Walk(ds[0], parts + [ds[0].name], excludes, out) + WalkAll(ds[1..], parts, excludes, out)
  }

  /** The file loop writes exactly the kept files of the directory. */
  lemma {:induction false} FileEntriesFiltered(files: seq<FileNode>, parts: seq<string>, excludes: set<string>, out: Option<FileId>)
    ensures FileEntries(files, parts, excludes, out) == Filter(FileListing(files, parts), excludes, out)
  {
    if files != [] {
      FileEntriesFiltered(files[1..], parts, excludes, out);
      var l := FileListing(files, parts);
      assert l[1..] == FileListing(files[1..], parts);
    }
  }

  /** Nothing beneath an excluded path is kept. */
  lemma PrunedListingEmpty(es: seq<Entry>, parts: seq<string>, excludes: set<string>, out: Option<FileId>)
    requires ShouldExclude(parts, excludes)
    requires forall e :: e in es ==> |e.parts| > |parts| && e.parts[..|parts|] == parts
    ensures Filter(es, excludes, out) == []
  {
    forall e | e in es ensures !Kept(e, excludes, out) {
      ExcludedPrefix(parts, e.parts[|parts|..], excludes);
      assert parts + e.parts[|parts|..] == e.parts;
    }
  }

  /** Pruning equals filtering: the walk archives exactly the kept entries of
      the unpruned listing, in the same order. */
  lemma {:induction false} WalkIsFilteredListing(d: DirNode, parts: seq<string>, excludes: set<string>, out: Option<FileId>)
    ensures Walk(d, parts, excludes, out) == Filter(Listing(d, parts), excludes, out)
    decreases Size(d), 1
  {
    var files := Files(d.children);
    var dirs := Subdirs(d.children);
    FileEntriesFiltered(files, parts, excludes, out);
    WalkAllIsFilteredListing(dirs, parts, excludes, out);
    FilterAppend(FileListing(files, parts), ListingAll(dirs, parts), excludes, out);
  }

  lemma {:induction false} WalkAllIsFilteredListing(ds: seq<DirNode>, parts: seq<string>, excludes: set<string>, out: Option<FileId>)
    ensures WalkAll(KeptDirs(ds, parts, excludes), parts, excludes, out) == Filter(ListingAll(ds, parts), excludes, out)
    decreases SizeAll(ds), 2
  {
    if ds != [] {
      var d, p := ds[0], parts + [ds[0].name];
      assert SizeAll(ds) == Size(d) + SizeAll(ds[1..]);
      WalkAllIsFilteredListing(ds[1..], parts, excludes, out);
      FilterAppend(Listing(d, p), ListingAll(ds[1..], parts), excludes, out);
      if ShouldExclude(p, excludes) {
        PrunedListingEmpty(Listing(d, p), p, excludes, out);
      } else {
        WalkIsFilteredListing(d, p, excludes, out);
      }
    }
  }

  /** A file is archived exactly when it is in the tree, no segment of its
      relative path is excluded and it is not the archive itself. */
  lemma ArchivedIff(root: DirNode, excludes: set<string>, out: Option<FileId>, e: Entry)
    ensures e in Walk(root, [], excludes, out) <==>
      e in Listing(root, []) && !ShouldExclude(e.parts, excludes) && !IsOutputFile(e.id, out)
  {
    WalkIsFilteredListing(root, [], excludes, out);
  }

  /** No archived file has an excluded ancestor directory. */
  lemma NoArchivedUnderExcluded(root: DirNode, excludes: set<string>, out: Option<FileId>, e: Entry, k: nat)
    requires e in Walk(root, [], excludes, out)
    requires k <= |e.parts|
    ensures !ShouldExclude(e.parts[..k], excludes)
  {
    ArchivedIff(root, excludes, out, e);
    NoExcludedAncestor(e.parts, k, excludes);
  }

  /** The archive never contains itself. */
  lemma OutputNeverArchived(root: DirNode, excludes: set<string>, out: FileId, e: Entry)
    requires e in Walk(root, [], excludes, Some(out))
    ensures e.id != out
  {
    ArchivedIff(root, excludes, Some(out), e);
  }

  /** When the archive's identity cannot be determined no file is skipped
      as being the archive: every file outside the excluded paths is stored. */
  lemma UnknownOutputSkipsNothing(root: DirNode, excludes: set<string>, e: Entry)
    requires e in Listing(root, [])
    requires !ShouldExclude(e.parts, excludes)
    ensures e in Walk(root, [], excludes, None)
  {
    ArchivedIff(root, excludes, None, e);
  }

  /** A directory reached at an excluded path contributes nothing. */
  lemma PrunedDirArchivesNothing(d: DirNode, parts: seq<string>, excludes: set<string>, out: Option<FileId>)
    requires ShouldExclude(parts, excludes)
    ensures Walk(d, parts, excludes, out) == []
  {
    WalkIsFilteredListing(d, parts, excludes, out);
    PrunedListingEmpty(Listing(d, parts), parts, excludes, out);
  }

  /** The archive holds at most one entry per file of the tree; a tree without
      files gives an empty archive. */
  lemma ArchivedAtMostFileCount(d: DirNode, parts: seq<string>, excludes: set<string>, out: Option<FileId>)
    ensures |Walk(d, parts, excludes, out)| <= FileCount(d)
  {
    WalkIsFilteredListing(d, parts, excludes, out);
    ListingCount(d, parts);
  }

  /** A directory still to be walked, with its path relative to the source. */
  datatype Pending = Pending(dir: DirNode, parts: seq<string>)

  /** What the directories on the stack (top at the end) still contribute. */
  function Remaining(stack: seq<Pending>, excludes: set<string>, out: Option<FileId>): seq<Entry>
  {
    if stack == [] then []
    else
      var top := stack[|stack| - 1];
      Walk(top.dir, top.parts, excludes, out) + Remaining(stack[..|stack| - 1], excludes, out)
  }

  function StackSize(stack: seq<Pending>): nat {
    if stack == [] then 0 else StackSize(stack[..|stack| - 1]) + Size(stack[|stack| - 1].dir)
  }

  /** Pushing a directory puts its walk in front of what the stack held. */
  lemma RemainingPush(stack: seq<Pending>, p: Pending, excludes: set<string>, out: Option<FileId>)
    ensures Remaining(stack + [p], excludes, out) == Walk(p.dir, p.parts, excludes, out) + Remaining(stack, excludes, out)
    ensures StackSize(stack + [p]) == StackSize(stack) + Size(p.dir)
  {
    assert (stack + [p])[..|stack|] == stack;
  }

  /** One iteration of the walk: popping the top directory, writing its
      files and pushing its surviving sub-directories leaves the rest of the
      archive to come unchanged, and shrinks the work left. */
  lemma VisitTop(stack: seq<Pending>, excludes: set<string>, out: Option<FileId>)
    requires stack != []
    ensures var top := stack[|stack| - 1];
      var dirs := KeptDirs(Subdirs(top.dir.children), top.parts, excludes);
      var next := PushDirs(stack[..|stack| - 1], dirs, top.parts);
      Remaining(stack, excludes, out) ==
        FileEntries(Files(top.dir.children), top.parts, excludes, out) + Remaining(next, excludes, out)
      && StackSize(next) < StackSize(stack)
  {
    var top := stack[|stack| - 1];
    var below := stack[..|stack| - 1];
    var dirs := KeptDirs(Subdirs(top.dir.children), top.parts, excludes);
    PushDirsRemaining(below, dirs, top.parts, excludes, out);
  }

  /** Outcome of a run: the source is missing or not a directory, or the
      number of files written together with the archive's entries. */
  datatype Outcome = SourceNotFound | Archived(total: nat, entries: seq<Entry>)

  /** The stack after visiting a directory at `parts` whose surviving
      sub-directories are `dirs`: they are pushed last-first, so the first of
      them is walked next. */
  function PushDirs(stack: seq<Pending>, dirs: seq<DirNode>, parts: seq<string>): (r: seq<Pending>)
  {
    if dirs == [] then stack
    else PushDirs(stack, dirs[1..], parts) + [Pending(dirs[0], parts + [dirs[0].name])]
  }

  lemma {:induction false} PushDirsRemaining(stack: seq<Pending>, dirs: seq<DirNode>, parts: seq<string>, excludes: set<string>, out: Option<FileId>)
    ensures Remaining(PushDirs(stack, dirs, parts), excludes, out) == WalkAll(dirs, parts, excludes, out) + Remaining(stack, excludes, out)
    ensures StackSize(PushDirs(stack, dirs, parts)) == StackSize(stack) + SizeAll(dirs)
  {
    if dirs != [] {
      var rest := PushDirs(stack, dirs[1..], parts);
      var p := Pending(dirs[0], parts + [dirs[0].name]);
      PushDirsRemaining(stack, dirs[1..], parts, excludes, out);
      RemainingPush(rest, p, excludes, out);
      AppendAssoc(Walk(p.dir, p.parts, excludes, out), WalkAll(dirs[1..], parts, excludes, out), Remaining(stack, excludes, out));
      assert SizeAll(dirs) == Size(p.dir) + SizeAll(dirs[1..]);
    }
  }

  /** Pushing only surviving sub-directories keeps every directory on the
      stack at a path that is not excluded. */
  lemma {:induction false} PushDirsUnexcluded(stack: seq<Pending>, dirs: seq<DirNode>, parts: seq<string>, excludes: set<string>)
    requires forall p :: p in stack ==> !ShouldExclude(p.parts, excludes)
    requires forall d :: d in dirs ==> !ShouldExclude(parts + [d.name], excludes)
    ensures forall p :: p in PushDirs(stack, dirs, parts) ==> !ShouldExclude(p.parts, excludes)
  {
    if dirs != [] {
      PushDirsUnexcluded(stack, dirs[1..], parts, excludes);
    }
  }

  /** The loop over one directory's `files`: each file that is neither
      excluded nor the archive itself is written (`zf.write` appends it to
      `archive`) and counted. */
  method WriteFiles(files: seq<FileNode>, parts: seq<string>, excludes: set<string>, out: Option<FileId>,
                    archive: seq<Entry>, count: nat)
    returns (archive': seq<Entry>, count': nat)
    requires count == |archive|
    ensures archive' == archive + FileEntries(files, parts, excludes, out)
    ensures count' == |archive'|
  {
    archive', count' := archive, count;
    var i := 0;
    while i < |files|
      invariant i <= |files|
      invariant count' == |archive'|
      invariant archive' + FileEntries(files[i..], parts, excludes, out) == archive + FileEntries(files, parts, excludes, out)
    {
      var f := files[i];
      assert files[i..][1..] == files[i + 1..];
      var relParts := parts + [f.name];
      if !ShouldExclude(relParts, excludes) && !IsOutputFile(f.id, out) {
        AppendAssoc(archive', [Entry(relParts, f.id)], FileEntries(files[i + 1..], parts, excludes, out));
        archive' := archive' + [Entry(relParts, f.id)];
        count' := count' + 1;
      }
      i := i + 1;
    }
  }

  /** `zip_dir`. `src` is what the source path names (`None`: nothing),
      `out` the archive's identity as `os.path.samefile` sees it. The check
      that the source is a directory comes before the archive is opened;
      the walk then keeps a stack of directories still to visit, as
      `os.walk` does, and the archive's entries are returned with the count.
      No directory at an excluded path is ever put on the stack, so none is
      visited. */
  method ZipDir(src: Option<Node>, out: Option<FileId>, excludes: set<string>) returns (r: Outcome)
    ensures r.SourceNotFound? <==> !(src.Some? && src.value.Dir?)
    ensures r.Archived? ==> r.entries == Walk(src.value, [], excludes, out)
    ensures r.Archived? ==> r.total == |r.entries|
  {
    if !(src.Some? && src.value.Dir?) {
      return SourceNotFound;
    }
    var root: DirNode := src.value;
    ghost var goal := Walk(root, [], excludes, out);
    var archive: seq<Entry> := [];
    var totalFiles := 0;
    var stack := [Pending(root, [])];
    assert Remaining(stack, excludes, out) == goal by {
      assert stack[..0] == [];
    }
    while stack != []
      invariant totalFiles == |archive|
      invariant archive + Remaining(stack, excludes, out) == goal
      invariant forall p :: p in stack ==> !ShouldExclude(p.parts, excludes)
      decreases StackSize(stack)
    {
      VisitTop(stack, excludes, out);
      ghost var written := archive;
      var top := stack[|stack| - 1];
      stack := stack[..|stack| - 1];
      var parts := top.parts;
      var dirs := KeptDirs(Subdirs(top.dir.children), parts, excludes);
      var files := Files(top.dir.children);
      archive, totalFiles := WriteFiles(files, parts, excludes, out, archive, totalFiles);
      PushDirsUnexcluded(stack, dirs, parts, excludes);
      stack := PushDirs(stack, dirs, parts);
      ghost var fileEntries := FileEntries(files, parts, excludes, out);
      ghost var later := Remaining(stack, excludes, out);
      AppendAssoc(written, fileEntries, later);
    }
    return Archived(totalFiles, archive);
  }
}
