/**
 The POSIX rule of `os.path.basename`: keep what follows the last `/`.
 The receiver applies it to the name it is sent, so that a crafted name
 cannot place the file outside the working directory.
 */
module Paths {

  /** The final component of `p`: everything after its last `/`, or all of
      `p` when it has none. A path that ends in `/` has an empty basename. */
  function Basename(p: string): (b: string)
    ensures '/' !in b
    ensures |b| <= |p| && b == p[|p| - |b|..]
    ensures |b| < |p| ==> p[|p| - |b| - 1] == '/'
  {
    if |p| == 0 || p[|p| - 1] == '/' then ""
    else
      var b := Basename(p[..|p| - 1]) + [p[|p| - 1]];
      assert p[..|p| - 1][|p| - |b|..] + [p[|p| - 1]] == p[|p| - |b|..];
      b
  }

  /** A name with no `/` is its own basename. */
  lemma PlainName(name: string)
    requires '/' !in name
    ensures Basename(name) == name
  {
  }

  /** Sanitising twice is sanitising once. */
  lemma BasenameIdempotent(p: string)
    ensures Basename(Basename(p)) == Basename(p)
  {
    PlainName(Basename(p));
  }

  /** Whatever directories precede it, only the last segment survives: a name
      such as `../../etc/evil` is reduced to `evil`. */
  lemma DirectoriesStripped(dirs: string, name: string)
    requires '/' !in name
    ensures Basename(dirs + "/" + name) == name
  {
    var p := dirs + "/" + name;
    assert p[|p| - |name| - 1] == '/';
    assert p[|p| - |name|..] == name;
  }
}
