/** Which path segments the archiver skips: the built-in defaults, the
    per-segment test, and the exclusion set built from `--exclude`. */
module Exclusion {
  import opened Text

  /** The six directory names that are always excluded. */
  const DefaultExcludes: set<string> :=
    {".git", "__pycache__", ".venv", "node_modules", "dist", "build"}

  /** `should_exclude`: a relative path (its segments) is excluded when one of
      its segments is an element of `excludes`. A segment is compared whole,
      so containing an excluded name as a substring does not count. */
  function ShouldExclude(parts: seq<string>, excludes: set<string>): (r: bool)
    ensures r <==> exists i :: 0 <= i < |parts| && parts[i] in excludes
  {
    if parts == [] then false
    else parts[0] in excludes || ShouldExclude(parts[1..], excludes)
  }

  /** A longer path is excluded whenever a prefix of it is: pruning a
      directory rules out everything beneath it. */
  lemma ExcludedPrefix(prefix: seq<string>, rest: seq<string>, excludes: set<string>)
    requires ShouldExclude(prefix, excludes)
    ensures ShouldExclude(prefix + rest, excludes)
  {
    var i :| 0 <= i < |prefix| && prefix[i] in excludes;
    assert (prefix + rest)[i] == prefix[i];
  }

  /** A path that is not excluded has no excluded ancestor directory. */
  lemma NoExcludedAncestor(parts: seq<string>, k: nat, excludes: set<string>)
    requires !ShouldExclude(parts, excludes)
    requires k <= |parts|
    ensures !ShouldExclude(parts[..k], excludes)
  {
    assert forall i :: 0 <= i < k ==> parts[..k][i] == parts[i];
  }

  /** The user's part of the exclusion set: each comma-separated token of the
      `--exclude` value, stripped, dropping tokens that strip to nothing. */
  function ParseExcludes(arg: string): set<string> {
    set t | t in Split(arg, ',') && Strip(t) != "" :: Strip(t)
  }

  /** The exclusion set a run uses: the parsed `--exclude` tokens together
      with the defaults. */
  function Excludes(arg: string): (r: set<string>)
    ensures DefaultExcludes <= r
    ensures "" !in r
    ensures forall x :: x in r && x !in DefaultExcludes ==> ',' !in x && Stripped(x)
  {
    ParseExcludes(arg) + DefaultExcludes
  }

  /** An option naming the tokens `toks` (joined by commas, each possibly
      padded with whitespace) excludes exactly the defaults and the non-blank
      stripped tokens. */
  lemma ExcludesOfTokens(toks: seq<string>, x: string)
    requires |toks| >= 1
    requires forall t :: t in toks ==> ',' !in t
    ensures x in Excludes(Join(toks, ',')) <==>
      x in DefaultExcludes || (x != "" && exists t :: t in toks && Strip(t) == x)
  {
    SplitJoin(toks, ',');
  }

  /** `--exclude "a,b"` for two names without commas or surrounding
      whitespace adds exactly those two names to the defaults. */
  lemma ExcludesOfTwo(a: string, b: string)
    requires a != "" && b != ""
    requires ',' !in a && ',' !in b
    requires Stripped(a) && Stripped(b)
    ensures Excludes(a + [','] + b) == DefaultExcludes + {a, b}
  {
    var toks := [a, b];
    assert toks[1..] == [b];
    assert Join(toks, ',') == a + [','] + b;
    StripStripped(a);
    StripStripped(b);
    forall x
      ensures x in Excludes(a + [','] + b) <==> x in DefaultExcludes + {a, b}
    {
      ExcludesOfTokens(toks, x);
      if x == a {
        assert toks[0] == a;
      } else if x == b {
        assert toks[1] == b;
      }
    }
  }

  /** Without `--exclude` (its default is the empty string) only the defaults apply. */
  lemma NoOptionMeansDefaults()
    ensures Excludes("") == DefaultExcludes
  {
    assert Split("", ',') == [""];
    assert ParseExcludes("") == {};
  }
}
