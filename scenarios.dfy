/** Concrete runs of the walk on small trees. */
module Scenarios {
  import opened FileTree
  import opened Exclusion
  import opened Archiver
  import opened Text

  /** `proj/.git/config`, `proj/src/a.py` and `proj/node_modules/x/y.js`
      with the default exclusions: only `src/a.py` is archived. */
  lemma DefaultsKeepOnlySources()
    ensures Walk(Dir("proj", [Dir(".git", [File("config", 1)]),
                              Dir("src", [File("a.py", 2)]),
                              Dir("node_modules", [Dir("x", [File("y.js", 3)])])]),
                 [], DefaultExcludes, None)
            == [Entry(["src", "a.py"], 2)]
  {
    var src: DirNode := Dir("src", [File("a.py", 2)]);
    TopLevelPruned();
    SourcesSubtree();
    assert [] + ["src"] == ["src"];
    assert [src][1..] == [];
    assert WalkAll([src], [], DefaultExcludes, None) == [Entry(["src", "a.py"], 2)];
  }

  /** At the top of that tree `.git` and `node_modules` are pruned and there
      are no files. */
  lemma TopLevelPruned()
    ensures var cs: seq<Node> := [Dir(".git", [File("config", 1)]),
                                  Dir("src", [File("a.py", 2)]),
                                  Dir("node_modules", [Dir("x", [File("y.js", 3)])])];
            Files(cs) == [] &&
            KeptDirs(Subdirs(cs), [], DefaultExcludes) == [Dir("src", [File("a.py", 2)])]
  {
    var git: DirNode := Dir(".git", [File("config", 1)]);
    var src: DirNode := Dir("src", [File("a.py", 2)]);
    var nm: DirNode := Dir("node_modules", [Dir("x", [File("y.js", 3)])]);
    var cs := [git, src, nm];
    assert cs[1..] == [src, nm];
    assert [src, nm][1..] == [nm];
    assert [nm][1..] == [];
    assert Subdirs([nm]) == [nm];
    assert Subdirs([src, nm]) == [src, nm];
    assert Subdirs(cs) == cs;
    assert Files([nm]) == [];
    assert Files([src, nm]) == [];
    assert Files(cs) == [];
    assert ShouldExclude([] + [".git"], DefaultExcludes);
    assert !ShouldExclude([] + ["src"], DefaultExcludes);
    assert ShouldExclude([] + ["node_modules"], DefaultExcludes);
    assert KeptDirs([nm], [], DefaultExcludes) == [];
    assert KeptDirs([src, nm], [], DefaultExcludes) == [src];
  }

  /** The `src` directory of the tree above, walked on its own. */
  lemma SourcesSubtree()
    ensures Walk(Dir("src", [File("a.py", 2)]), ["src"], DefaultExcludes, None)
            == [Entry(["src", "a.py"], 2)]
  {
    var src: DirNode := Dir("src", [File("a.py", 2)]);
    var a := File("a.py", 2);
    assert [a][1..] == [];
    assert !ShouldExclude(["src"] + ["a.py"], DefaultExcludes);
    assert Files(src.children) == [a];
    assert Subdirs(src.children) == [];
    assert ["src"] + ["a.py"] == ["src", "a.py"];
    assert FileEntries([a], ["src"], DefaultExcludes, None) == [Entry(["src", "a.py"], 2)];
  }

  /** `--exclude "tmp,logs"` excludes the defaults and the two names. */
  lemma TmpLogsOption()
    ensures Excludes("tmp,logs") == DefaultExcludes + {"tmp", "logs"}
  {
    assert "tmp,logs" == "tmp" + [','] + "logs";
    ExcludesOfTwo("tmp", "logs");
  }

  /** `tmp/cache.bin`, `logs/out.log` and `readme.md` under
      `--exclude "tmp,logs"`: only `readme.md` is archived. */
  lemma ExtraExcludesKeepReadme()
    ensures Walk(Dir("root", [Dir("tmp", [File("cache.bin", 1)]),
                              Dir("logs", [File("out.log", 2)]),
                              File("readme.md", 3)]),
                 [], Excludes("tmp,logs"), None)
            == [Entry(["readme.md"], 3)]
  {
    TmpLogsOption();
    ReadmeOnly();
  }

  /** The same tree walked with the defaults, `tmp` and `logs` excluded. */
  lemma ReadmeOnly()
    ensures Walk(Dir("root", [Dir("tmp", [File("cache.bin", 1)]),
                              Dir("logs", [File("out.log", 2)]),
                              File("readme.md", 3)]),
                 [], DefaultExcludes + {"tmp", "logs"}, None)
            == [Entry(["readme.md"], 3)]
  {
    var e := DefaultExcludes + {"tmp", "logs"};
    var tmp: DirNode := Dir("tmp", [File("cache.bin", 1)]);
    var logs: DirNode := Dir("logs", [File("out.log", 2)]);
    var readme: FileNode := File("readme.md", 3);
    var cs := [tmp, logs, readme];
    assert cs[1..] == [logs, readme];
    assert [logs, readme][1..] == [readme];
    assert [readme][1..] == [];
    assert Subdirs([readme]) == [];
    assert Subdirs([logs, readme]) == [logs];
    assert Subdirs(cs) == [tmp, logs];
    assert Files([readme]) == [readme];
    assert Files([logs, readme]) == [readme];
    assert Files(cs) == [readme];
    assert ShouldExclude([] + ["tmp"], e);
    assert ShouldExclude([] + ["logs"], e);
    assert [tmp, logs][1..] == [logs];
    assert [logs][1..] == [];
    assert KeptDirs([logs], [], e) == [];
    assert KeptDirs([tmp, logs], [], e) == [];
    assert !ShouldExclude([] + ["readme.md"], e);
    assert [] + ["readme.md"] == ["readme.md"];
    assert FileEntries([readme], [], e, None) == [Entry(["readme.md"], 3)];
  }

  /** The archive lying inside the source tree is skipped. */
  lemma ArchiveInsideSourceSkipped()
    ensures Walk(Dir("root", [File("data.txt", 1), File("backup.zip", 7)]), [], DefaultExcludes, Some(7))
            == [Entry(["data.txt"], 1)]
  {
    var data: FileNode := File("data.txt", 1);
    var zip: FileNode := File("backup.zip", 7);
    var cs := [data, zip];
    assert cs[1..] == [zip];
    assert [zip][1..] == [];
    assert Files([zip]) == [zip];
    assert Files(cs) == cs;
    assert Subdirs([zip]) == [];
    assert Subdirs(cs) == [];
    assert !ShouldExclude([] + ["data.txt"], DefaultExcludes);
    assert FileEntries([zip], [], DefaultExcludes, Some(7)) == [];
    assert [] + ["data.txt"] == ["data.txt"];
    assert FileEntries(cs, [], DefaultExcludes, Some(7)) == [Entry(["data.txt"], 1)];
  }
}
