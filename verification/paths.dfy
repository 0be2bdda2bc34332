/** The platform path conventions `System.IO.Path` exposes, and `Path.GetFileName`. */
module Paths {

  /** `Path.DirectorySeparatorChar`, `AltDirectorySeparatorChar` and `VolumeSeparatorChar`
      of the platform the client runs on ('\\', '/', ':' on Windows; all '/' on Unix). */
  datatype Platform = Platform(directorySeparator: char, altDirectorySeparator: char, volumeSeparator: char)

  predicate IsSeparator(platform: Platform, c: char) {
    c == platform.directorySeparator || c == platform.altDirectorySeparator || c == platform.volumeSeparator
  }

  /** `Path.GetFileName(path)`: the text after the last separator, or the whole path when it
      has none. */
  function GetFileName(platform: Platform, path: string): (name: string)
    ensures forall i :: 0 <= i < |name| ==> !IsSeparator(platform, name[i])
    ensures |name| <= |path| && path[|path| - |name|..] == name
    ensures |name| < |path| ==> IsSeparator(platform, path[|path| - |name| - 1])
    decreases |path|
  {
    if |path| == 0 then ""
    else if IsSeparator(platform, path[|path| - 1]) then ""
    else
      var prefix := path[..|path| - 1];
      var rest := GetFileName(platform, prefix);
      assert path[|path| - |rest| - 1..] == prefix[|prefix| - |rest|..] + [path[|path| - 1]];
      rest + [path[|path| - 1]]
  }

  /** The file name of a path built as `dir + sep + name` is `name`. */
  lemma {:induction false} GetFileNameOfJoined(platform: Platform, dir: string, name: string)
    requires forall i :: 0 <= i < |name| ==> !IsSeparator(platform, name[i])
    ensures GetFileName(platform, dir + [platform.directorySeparator] + name) == name
  {
    var path := dir + [platform.directorySeparator] + name;
    if |name| > 0 {
      assert path[..|path| - 1] == dir + [platform.directorySeparator] + name[..|name| - 1];
      GetFileNameOfJoined(platform, dir, name[..|name| - 1]);
      assert name[..|name| - 1] + [name[|name| - 1]] == name;
    }
  }
}
