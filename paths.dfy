/** The pieces of POSIX `os.path` the archiver relies on: relative paths and
    their segments, `basename`, `dirname` and `join`. */
module Paths {
  import opened Text
  import opened FileTree
  import opened Exclusion
  import opened Archiver

  /** `os.sep`. */
  const Sep: char := '/'

  /** A name a directory listing can return: not empty, not `.` or `..`, and
      without a separator. */
  predicate ValidName(n: string) {
    n != "" && n != "." && n != ".." && Sep !in n
  }

  /** `os.path.relpath` of the directory or file at segments `parts` below the
      source root: `.` for the root itself. */
  function RelPath(parts: seq<string>): string {
    if parts == [] then "." else Join(parts, Sep)
  }

  /** The segment list the walk computes from a relative path:
      `relpath.split(os.sep)`, with the root's `['.']` replaced by `[]`. */
  function RelParts(rel: string): seq<string> {
    var ps := Split(rel, Sep);
    if ps == ["."] then [] else ps
  }

  /** The segments the walk computes are the segments it descended through;
      in particular the root gets the empty list. */
  lemma RelPartsOfRelPath(parts: seq<string>)
    requires forall n :: n in parts ==> ValidName(n)
    ensures RelParts(RelPath(parts)) == parts
  {
    if parts != [] {
      SplitJoin(parts, Sep);
      assert ValidName(parts[0]);
    } else {
      SplitFree(".", Sep);
    }
  }

  /** The name an entry is stored under: its relative path, which `zipfile`
      writes with `/` between segments. */
  function ArcName(e: Entry): string {
    Join(e.parts, '/')
  }

  /** An archive name determines the entry's path. */
  lemma ArcNameDeterminesPath(e1: Entry, e2: Entry)
    requires |e1.parts| >= 1 && |e2.parts| >= 1
    requires forall n :: n in e1.parts ==> ValidName(n)
    requires forall n :: n in e2.parts ==> ValidName(n)
    requires ArcName(e1) == ArcName(e2)
    ensures e1.parts == e2.parts
  {
    SplitJoin(e1.parts, Sep);
    SplitJoin(e2.parts, Sep);
  }

  /** Every segment is a name a directory listing can return. */
  predicate AllValid(parts: seq<string>) {
    forall n :: n in parts ==> ValidName(n)
  }

  /** A tree whose every node beneath `n`, `n` included, has a valid name. */
  predicate ValidTree(n: Node) {
    ValidName(n.name) && (n.Dir? ==> forall c :: c in n.children ==> ValidTree(c))
  }

  /** Each entry of a directory's file listing is named after one of its files. */
  lemma {:induction false} FileListingEntry(files: seq<FileNode>, parts: seq<string>, e: Entry)
    requires e in FileListing(files, parts)
    ensures exists f :: f in files && e.parts == parts + [f.name]
  {
    if e != FileListing(files, parts)[0] {
      FileListingEntry(files[1..], parts, e);
      var f :| f in files[1..] && e.parts == parts + [f.name];
      assert f in files;
    }
  }

  /** The files and sub-directories `os.walk` reports are children of the directory. */
  lemma {:induction false} FilesAndSubdirsIn(cs: seq<Node>)
    ensures forall f :: f in Files(cs) ==> f in cs
    ensures forall d :: d in Subdirs(cs) ==> d in cs
  {
    if cs != [] {
      FilesAndSubdirsIn(cs[1..]);
    }
  }

  /** In a tree of valid names, every path of the unpruned listing is made of
      valid names. */
  lemma {:induction false} ListingNames(d: DirNode, parts: seq<string>, e: Entry)
    requires AllValid(parts)
    requires forall c :: c in d.children ==> ValidTree(c)
    requires e in Listing(d, parts)
    ensures AllValid(e.parts)
    decreases Size(d), 1
  {
    var files := Files(d.children);
    var dirs := Subdirs(d.children);
    FilesAndSubdirsIn(d.children);
    if e in FileListing(files, parts) {
      FileListingEntry(files, parts, e);
      var f :| f in files && e.parts == parts + [f.name];
      assert ValidTree(f);
    } else {
      ListingAllNames(dirs, parts, e);
    }
  }

  lemma {:induction false} ListingAllNames(ds: seq<DirNode>, parts: seq<string>, e: Entry)
    requires AllValid(parts)
    requires forall d :: d in ds ==> ValidTree(d)
    requires e in ListingAll(ds, parts)
    ensures AllValid(e.parts)
    decreases SizeAll(ds), 2
  {
    if ds != [] {
      var p := parts + [ds[0].name];
      assert SizeAll(ds) == Size(ds[0]) + SizeAll(ds[1..]);
      assert ValidTree(ds[0]);
      if e in Listing(ds[0], p) {
        ListingNames(ds[0], p, e);
      } else {
        ListingAllNames(ds[1..], parts, e);
      }
    }
  }

  /** In a tree of valid names, two archived files are stored under the same
      name only when they have the same relative path. */
  lemma ArchivedNamesDistinct(root: DirNode, excludes: set<string>, out: Option<FileId>, e1: Entry, e2: Entry)
    requires forall c :: c in root.children ==> ValidTree(c)
    requires e1 in Walk(root, [], excludes, out) && e2 in Walk(root, [], excludes, out)
    requires ArcName(e1) == ArcName(e2)
    ensures e1.parts == e2.parts
  {
    ArchivedIff(root, excludes, out, e1);
    ArchivedIff(root, excludes, out, e2);
    ListingNames(root, [], e1);
    ListingNames(root, [], e2);
    ArcNameDeterminesPath(e1, e2);
  }

  /** `p.rfind('/') + 1`: the length of `p` up to and including its last separator. */
  function SepEnd(p: string): (i: nat)
    ensures i <= |p|
    ensures i > 0 ==> p[i - 1] == Sep
    ensures Sep !in p[i..]
  {
    if p == [] then 0
    else if p[|p| - 1] == Sep then |p|
    else
      var i := SepEnd(p[..|p| - 1]);
      assert p[i..] == p[..|p| - 1][i..] + [p[|p| - 1]];
      i
  }

  /** `os.path.basename`: what follows the last separator. */
  function BaseName(p: string): (r: string)
    ensures Sep !in r
    ensures |r| <= |p| && r == p[|p| - |r|..]
    ensures |r| == |p| || p[|p| - |r| - 1] == Sep
  {
    p[SepEnd(p)..]
  }

  predicate AllSeps(s: string) {
    forall k :: 0 <= k < |s| ==> s[k] == Sep
  }

  /** `s.rstrip('/')`. */
  function RStripSeps(s: string): (r: string)
    ensures |r| <= |s|
    ensures r == [] || r[|r| - 1] != Sep
    ensures r == s[..|r|]
    ensures AllSeps(s[|r|..])
  {
    if s == [] || s[|s| - 1] != Sep then s
    else
      var r := RStripSeps(s[..|s| - 1]);
      assert s[..|s| - 1][..|r|] == s[..|r|];
      assert s[|r|..] == s[..|s| - 1][|r|..] + [Sep];
      r
  }

  /** `os.path.dirname`: everything up to the last separator, with trailing
      separators removed unless it consists of separators only. */
  function DirName(p: string): (r: string)
    ensures r == [] || AllSeps(r) || r[|r| - 1] != Sep
    ensures |r| <= SepEnd(p) && r == p[..|r|]
    ensures AllSeps(p[|r|..SepEnd(p)])
    ensures AllSeps(r) ==> r == p[..SepEnd(p)]
  {
    var head := p[..SepEnd(p)];
    if head != [] && !AllSeps(head) then
      var r := RStripSeps(head);
      assert r == p[..|r|];
      assert p[|r|..SepEnd(p)] == head[|r|..];
      r
    else head
  }

  /** `os.path.join(a, b)` for two components. */
  function PathJoin(a: string, b: string): string {
    if b != [] && b[0] == Sep then b
    else if a == [] || a[|a| - 1] == Sep then a + b
    else a + [Sep] + b
  }

  /** Joining a directory that `dirname` could return with a plain name
      gives a path whose `dirname` is that directory and whose `basename` is
      that name. */
  lemma JoinSplitsBack(dir: string, name: string)
    requires dir != []
    requires AllSeps(dir) || dir[|dir| - 1] != Sep
    requires name != [] && Sep !in name
    ensures BaseName(PathJoin(dir, name)) == name
    ensures DirName(PathJoin(dir, name)) == dir
  {
    var p := PathJoin(dir, name);
    var head := if dir[|dir| - 1] == Sep then dir else dir + [Sep];
    assert p == head + name;
    assert SepEnd(p) == |head| by {
      SepEndAfter(head, name);
    }
    assert p[..|head|] == head;
    if dir[|dir| - 1] != Sep {
      assert !AllSeps(head) by {
        if |dir| >= 1 { assert head[|dir| - 1] == dir[|dir| - 1]; }
      }
      var r := RStripSeps(head);
      assert RStripSeps(dir) == dir;
      assert head[..|head| - 1] == dir;
    }
  }

  /** The separator ending `head` is the last one when `name` has none. */
  lemma SepEndAfter(head: string, name: string)
    requires head != [] && head[|head| - 1] == Sep
    requires Sep !in name
    ensures SepEnd(head + name) == |head|
    decreases |name|
  {
    if name != [] {
      var p := head + name;
      assert p[..|p| - 1] == head + name[..|name| - 1];
      assert p[|p| - 1] == name[|name| - 1];
      SepEndAfter(head, name[..|name| - 1]);
    } else {
      assert head + name == head;
    }
  }
}
