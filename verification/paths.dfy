/** POSIX-style path helpers standing in for `path.join` and `path.basename`. */
module Paths {
  import Strings

  /** `path.join(dir, name)` for a single path segment; an empty segment
      leaves `dir` as it is. */
  function Join(dir: string, name: string): string
  {
    if name == "" then dir else dir + "/" + name
  }

  /** `path.basename(p)`: the text after the last '/'. */
  function BaseName(p: string): (r: string)
    ensures '/' !in r
    ensures Strings.IsSuffix(r, p)
  {
    p[Strings.LastIndexOfChar(p, '/') + 1..]
  }

  /** The base name of a joined path is the segment that was joined. */
  lemma BaseNameOfJoin(dir: string, name: string)
    requires name != "" && '/' !in name
    ensures BaseName(Join(dir, name)) == name
  {
    var p := Join(dir, name);
    var k := Strings.LastIndexOfChar(p, '/');
    assert p[|dir|] == '/';
    assert forall j | |dir| < j < |p| :: p[j] == name[j - |dir| - 1];
  }
}
