/** The parts of `main` that compute values: the output path (the timestamp
    of the default name is a parameter, since it reads the wall clock) and
    the guarantee that the built-in exclusions hold whatever `--exclude` says. */
module Cli {
  import opened FileTree
  import opened Paths
  import opened Exclusion
  import opened Archiver

  /** The default archive path for a source whose absolute path is `absSrc`:
      `<parent>/<base>_<ts>.zip`, with `backup` for a source without a base
      name and `.` for one without a parent. */
  function DefaultOutPath(absSrc: string, ts: string): string {
    var base := if BaseName(absSrc) == "" then "backup" else BaseName(absSrc);
    var parent := if DirName(absSrc) == "" then "." else DirName(absSrc);
    PathJoin(parent, base + "_" + ts + ".zip")
  }

  /** `--out` when it is given and not empty (an empty value is falsy and
      falls back to the default), the default path otherwise. */
  function OutPath(outArg: Option<string>, absSrc: string, ts: string): (r: string)
    ensures outArg.Some? && outArg.value != "" ==> r == outArg.value
    ensures !(outArg.Some? && outArg.value != "") ==> r == DefaultOutPath(absSrc, ts)
    ensures r != ""
  {
    if outArg.Some? && outArg.value != "" then outArg.value else DefaultOutPath(absSrc, ts)
  }

  /** The default archive lands in the source's parent directory, named after
      the source (or `backup`) with the timestamp and `.zip` appended. */
  lemma DefaultOutBesideSource(absSrc: string, ts: string)
    requires Sep !in ts
    ensures DirName(DefaultOutPath(absSrc, ts)) == (if DirName(absSrc) == "" then "." else DirName(absSrc))
    ensures BaseName(DefaultOutPath(absSrc, ts)) ==
      (if BaseName(absSrc) == "" then "backup" else BaseName(absSrc)) + "_" + ts + ".zip"
  {
    var base := if BaseName(absSrc) == "" then "backup" else BaseName(absSrc);
    var parent := if DirName(absSrc) == "" then "." else DirName(absSrc);
    var name := base + "_" + ts + ".zip";
    NameHasNoSep(base, ts);
    JoinSplitsBack(parent, name);
  }

  /** The default archive name has no separator when the timestamp has none. */
  lemma NameHasNoSep(base: string, ts: string)
    requires Sep !in base && Sep !in ts
    ensures Sep !in base + "_" + ts + ".zip"
  {
    var name := base + "_" + ts + ".zip";
    forall k | 0 <= k < |name|
      ensures name[k] != Sep
    {
      if k < |base| { assert name[k] == base[k]; }
      else if k == |base| { assert name[k] == '_'; }
      else if k < |base| + 1 + |ts| { assert name[k] == ts[k - |base| - 1]; }
      else { assert name[k] == ".zip"[k - |base| - 1 - |ts|]; }
    }
  }

  /** Whatever `--exclude` says, no archived file lies under one of the
      built-in excluded directories or is named like one. */
  lemma DefaultsNeverArchived(root: DirNode, arg: string, out: Option<FileId>, e: Entry, k: nat)
    requires e in Walk(root, [], Excludes(arg), out)
    requires k < |e.parts|
    ensures e.parts[k] !in DefaultExcludes
  {
    ArchivedIff(root, Excludes(arg), out, e);
  }
}
