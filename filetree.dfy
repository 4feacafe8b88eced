/** The directory tree the archiver walks, as `os.walk` sees it, and the
    unpruned listing of every file in it. */
module FileTree {

  datatype Option<T> = None | Some(value: T)

  /** Identity of a file on disk (device and inode, in effect). */
  type FileId = nat

  /** A directory entry: a file with its identity, or a directory with its
      listing in the order the operating system returns it. */
  datatype Node = File(name: string, id: FileId) | Dir(name: string, children: seq<Node>)

  /** An archive entry: the file's path relative to the source root, as
      segments, and the file that was stored under it. */
  datatype Entry = Entry(parts: seq<string>, id: FileId)

  /** A node known to be a directory, or a file. */
  type DirNode = d: Node | d.Dir? witness Dir("", [])
  type FileNode = f: Node | f.File? witness File("", 0)

  /** Number of nodes in a tree; used to bound the walk. */
  function Size(n: Node): nat {
    match n
    case File(_, _) => 1
    case Dir(_, cs) => 1 + SizeAll(cs)
  }

  function SizeAll(cs: seq<Node>): nat {
    if cs == [] then 0 else Size(cs[0]) + SizeAll(cs[1..])
  }

  /** The `dirs` list `os.walk` yields for a directory: its sub-directories,
      in listing order. */
  function Subdirs(cs: seq<Node>): (r: seq<DirNode>)
    ensures SizeAll(r) <= SizeAll(cs)
  {
    if cs == [] then []
    else if cs[0].Dir? then [cs[0]] + Subdirs(cs[1..])
    else Subdirs(cs[1..])
  }

  /** The `files` list `os.walk` yields for a directory: its non-directory
      entries, in listing order. */
  function Files(cs: seq<Node>): (r: seq<FileNode>)
  {
    if cs == [] then []
    else if cs[0].File? then [cs[0]] + Files(cs[1..])
    else Files(cs[1..])
  }

  /** Number of files anywhere in a tree. */
  function FileCount(n: Node): nat {
    match n
    case File(_, _) => 1
    case Dir(_, cs) => FileCountAll(cs)
  }

  function FileCountAll(cs: seq<Node>): nat {
    if cs == [] then 0 else FileCount(cs[0]) + FileCountAll(cs[1..])
  }

  /** One entry per file of `files`, named relative to the directory at `parts`. */
  function FileListing(files: seq<FileNode>, parts: seq<string>): (r: seq<Entry>)
    ensures |r| == |files|
    ensures forall e :: e in r ==> |e.parts| == |parts| + 1 && e.parts[..|parts|] == parts
  {
    if files == [] then []
    else [Entry(parts + [files[0].name], files[0].id)] + FileListing(files[1..], parts)
  }

  /** Every file beneath directory `d` (found at relative path `parts`), in the
      order a top-down walk without pruning would visit it: the directory's own
      files first, then each sub-directory's in listing order. */
  function Listing(d: DirNode, parts: seq<string>): (r: seq<Entry>)
    ensures forall e :: e in r ==> |e.parts| > |parts| && e.parts[..|parts|] == parts
    decreases Size(d), 1
  {
    FileListing(Files(d.children), parts) + ListingAll(Subdirs(d.children), parts)
  }

  /** The listings of the sub-directories `ds` of the directory at `parts`. */
  function ListingAll(ds: seq<DirNode>, parts: seq<string>): (r: seq<Entry>)
    ensures forall e :: e in r ==> |e.parts| > |parts| && e.parts[..|parts|] == parts
    decreases SizeAll(ds), 2
  {
    if ds == [] then []
    else
      var sub := Listing(ds[0], parts + [ds[0].name]);
      assert forall e :: e in sub ==> e.parts[..|parts|] == (parts + [ds[0].name])[..|parts|];
      sub + ListingAll(ds[1..], parts)
  }

  /** A directory's files split into its own and those of its sub-directories. */
  lemma {:induction false} FileCountSplit(cs: seq<Node>)
    ensures FileCountAll(cs) == |Files(cs)| + FileCountAll(Subdirs(cs))
  {
    if cs != [] {
      FileCountSplit(cs[1..]);
    }
  }

  /** The unpruned listing holds exactly one entry per file in the tree. */
  lemma {:induction false} ListingCount(d: DirNode, parts: seq<string>)
    ensures |Listing(d, parts)| == FileCount(d)
    decreases Size(d), 1
  {
    FileCountSplit(d.children);
    ListingAllCount(Subdirs(d.children), parts);
  }

  lemma {:induction false} ListingAllCount(ds: seq<DirNode>, parts: seq<string>)
    ensures |ListingAll(ds, parts)| == FileCountAll(ds)
    decreases SizeAll(ds), 2
  {
    if ds != [] {
      ListingCount(ds[0], parts + [ds[0].name]);
      ListingAllCount(ds[1..], parts);
    }
  }
}
