/** `fs-helpers.ts`: `normalizeHomeDir` and `normalizeFilePath`. The home directory, the
    working directory and the platform's path separator are parameters. */
module FsHelpers {
  import opened JsString

  /** `normalizeHomeDir`: a leading `~` becomes the home directory followed by `/`. */
  function NormalizeHomeDir(path: string, homedir: string): (r: string)
    ensures path != [] && path[0] == '~' ==> r == homedir + "/" + path[1..]
    ensures (path == [] || path[0] != '~') ==> r == path
  {
    if path[..if |path| < 1 then |path| else 1] == "~" then homedir + "/" + path[1..] else path
  }

  /** Expanding twice is expanding once, as long as the home directory does not itself
      start with `~`. */
  lemma NormalizeHomeDirIdempotent(path: string, homedir: string)
    requires homedir == [] || homedir[0] != '~'
    ensures NormalizeHomeDir(NormalizeHomeDir(path, homedir), homedir) == NormalizeHomeDir(path, homedir)
  {
    var once := NormalizeHomeDir(path, homedir);
    if path != [] && path[0] == '~' {
      assert once[0] == (if homedir == [] then '/' else homedir[0]);
    }
  }

  /** `s` with every `from` replaced by `to`, as `replaceAll` with one-character strings. */
  function ReplaceAll(s: string, from: char, to: char): (r: string)
    ensures |r| == |s|
    ensures forall i :: 0 <= i < |s| ==> r[i] == if s[i] == from then to else s[i]
    ensures from != to ==> from !in r
  {
    seq(|s|, i requires 0 <= i < |s| => if s[i] == from then to else s[i])
  }

  /** `p` without its trailing separators. */
  function TrimTrailing(p: string, sep: char): (r: string)
    ensures |r| <= |p| && r == p[..|r|]
    ensures r == [] || r[|r| - 1] != sep
  {
    if p != [] && p[|p| - 1] == sep then TrimTrailing(p[..|p| - 1], sep) else p
  }

  /** `basename(p)`: the last segment of `p`, trailing separators ignored. */
  function Basename(p: string, sep: char): (r: string)
    ensures sep !in r
  {
    var parts := Split(TrimTrailing(p, sep), sep);
    parts[|parts| - 1]
  }

  /** `normalizeFilePath`: a path under the working directory is made relative to the
      working directory's parent, with `/` separators; any other path is kept. */
  function NormalizeFilePath(filePath: string, cwd: string, sep: char): (r: string)
    ensures !StartsWith(filePath, cwd) ==> r == filePath
    ensures StartsWith(filePath, cwd) ==> |r| == |Basename(cwd, sep)| + |filePath| - |cwd|
    ensures StartsWith(filePath, cwd) && sep != '/' ==> sep !in r
    ensures StartsWith(filePath, cwd) ==> r[..|Basename(cwd, sep)|] == Basename(cwd, sep)
  {
    if !StartsWith(filePath, cwd) then filePath
    else
      var base := Basename(cwd, sep);
      var r := ReplaceAll(base + filePath[|cwd|..], sep, '/');
      assert forall i :: 0 <= i < |base| ==> (base + filePath[|cwd|..])[i] == base[i] != sep;
      r
  }

  /** The working directory itself becomes its base name. */
  lemma NormalizeCwd(cwd: string, sep: char)
    ensures NormalizeFilePath(cwd, cwd, sep) == Basename(cwd, sep)
  {
    assert cwd[|cwd|..] == [];
  }

  /** A path `cwd<sep>rel` becomes `basename(cwd)/rel`, with the separators in `rel`
      turned into `/`. */
  lemma NormalizeBelowCwd(cwd: string, rel: string, sep: char)
    ensures NormalizeFilePath(cwd + [sep] + rel, cwd, sep) == Basename(cwd, sep) + "/" + ReplaceAll(rel, sep, '/')
  {
    var p := cwd + [sep] + rel;
    assert p[..|cwd|] == cwd;
    assert p[|cwd|..] == [sep] + rel;
    var base := Basename(cwd, sep);
    var r := NormalizeFilePath(p, cwd, sep);
    var expected := base + "/" + ReplaceAll(rel, sep, '/');
    assert |r| == |expected|;
    forall i | 0 <= i < |r| ensures r[i] == expected[i] {
      if i < |base| {
        assert (base + p[|cwd|..])[i] == base[i];
      } else if i > |base| {
        assert (base + p[|cwd|..])[i] == rel[i - |base| - 1];
      }
    }
  }
}
