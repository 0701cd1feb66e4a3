/** File paths as the comparison script uses them: the extension test of the
    loader and `resolve_under_base`, which places relative command-line paths
    under the script's directory. */
module Paths {
  import opened Text

  /** A POSIX path after parsing: whether it starts at the root, and its
      segments (none of them empty or "."). */
  datatype Path = Path(absolute: bool, parts: seq<string>)

  /** `Path.name`: the last segment, or "" for the root and the empty path. */
  function Name(p: Path): string {
    if p.parts == [] then "" else p.parts[|p.parts| - 1]
  }

  /** `str.rfind(c)`: the index of the last `c` in `s`, or -1. */
  function LastIndexOf(s: string, c: char): (i: int)
    ensures -1 <= i < |s|
    ensures i >= 0 ==> s[i] == c
    ensures forall k :: i < k < |s| ==> s[k] != c
    decreases |s|
  {
    if s == [] then -1
    else if s[|s| - 1] == c then |s| - 1
    else LastIndexOf(s[..|s| - 1], c)
  }

  /** `PurePath.suffix` of a file name: from the last dot on, provided that dot
      is neither the first nor the last character of the name; "" otherwise. */
  function Suffix(name: string): string {
    var i := LastIndexOf(name, '.');
    if 0 < i < |name| - 1 then name[i..] else ""
  }

  /** `path.suffix.lower() == ".csv"`. */
  predicate IsCsvSuffix(suffix: string) {
    LowerAscii(suffix) == ".csv"
  }

  /** The extension test accepts a file name exactly when it is longer than
      four characters and ends in ".csv" in any mix of cases; in particular a
      file called just ".csv" has no suffix and is refused. */
  lemma CsvNameIff(name: string)
    ensures IsCsvSuffix(Suffix(name)) <==> |name| > 4 && LowerAscii(name[|name| - 4..]) == ".csv"
  {
    var n := |name|;
    var i := LastIndexOf(name, '.');
    if IsCsvSuffix(Suffix(name)) {
      assert |Suffix(name)| == 4;
      assert 0 < i && Suffix(name) == name[i..];
      assert i == n - 4;
    }
    if n > 4 && LowerAscii(name[n - 4..]) == ".csv" {
      var tail := name[n - 4..];
      assert LowerChar(tail[0]) == '.' && LowerChar(tail[1]) == 'c';
      assert LowerChar(tail[2]) == 's' && LowerChar(tail[3]) == 'v';
      assert name[n - 4] == '.';
      assert forall k :: n - 4 < k < n ==> name[k] != '.' by {
        forall k | n - 4 < k < n
          ensures name[k] != '.'
        {
          assert name[k] == tail[k - (n - 4)];
        }
      }
      assert i == n - 4;
    }
  }

  /** `base / p` in pathlib: an absolute right-hand side replaces the base,
      a relative one is appended to it. */
  function Join(base: Path, p: Path): Path {
    if p.absolute then p else Path(base.absolute, base.parts + p.parts)
  }

  /** `resolve_under_base`: an absolute argument is used as it is; a relative
      one is taken relative to `baseDir`. */
  function ResolveUnderBase(arg: Path, baseDir: Path): Path {
    if arg.absolute then arg else Join(baseDir, arg)
  }

  /** What `resolve_under_base` promises: absolute arguments come back
      unchanged, relative ones land under the base directory, keep its root
      and end with the argument's own segments. */
  lemma ResolveMeaning(arg: Path, baseDir: Path)
    ensures arg.absolute ==> ResolveUnderBase(arg, baseDir) == arg
    ensures !arg.absolute ==>
      var r := ResolveUnderBase(arg, baseDir);
      && r.absolute == baseDir.absolute
      && |r.parts| == |baseDir.parts| + |arg.parts|
      && r.parts[..|baseDir.parts|] == baseDir.parts
      && r.parts[|baseDir.parts|..] == arg.parts
  {
  }

  /** Under an absolute base every resolved path is absolute, and resolving
      again changes nothing. */
  lemma ResolveIdempotent(arg: Path, baseDir: Path)
    requires baseDir.absolute
    ensures ResolveUnderBase(arg, baseDir).absolute
    ensures ResolveUnderBase(ResolveUnderBase(arg, baseDir), baseDir) == ResolveUnderBase(arg, baseDir)
  {
  }

  /** The explicit absolute test is redundant under pathlib's `/`, which
      already lets an absolute right-hand side win. */
  lemma ResolveIsJoin(arg: Path, baseDir: Path)
    ensures ResolveUnderBase(arg, baseDir) == Join(baseDir, arg)
  {
  }
}
