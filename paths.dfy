/**
 * The path manipulations the core relies on: the directory name stored by
 * `addDirectory` (`path.split('/').pop() || path`), Node's POSIX `path.basename`, and
 * `path.join(dir, name)` for a directory entry.
 */
module Paths {
  import opened Strings

  /** The text after the last '/': `path.split('/').pop()`. */
  function LastPiece(path: string): string {
    var parts := Split(path, '/');
    parts[|parts| - 1]
  }

  /** The path is the pieces before the last one, a '/', and the last piece (or just the last piece). */
  lemma LastPieceShape(path: string)
    ensures var parts := Split(path, '/');
      |parts| == 1 ==> path == parts[0]
    ensures var parts := Split(path, '/');
      |parts| > 1 ==> path == Join(parts[..|parts| - 1], '/') + ['/'] + parts[|parts| - 1]
  {
    var parts := Split(path, '/');
    JoinSplit(path, '/');
    if |parts| > 1 {
      assert parts == parts[..|parts| - 1] + [parts[|parts| - 1]];
      JoinSnoc(parts[..|parts| - 1], parts[|parts| - 1], '/');
    }
  }

  /** The last piece is a '/'-free suffix; it is the whole path exactly when there is no '/'. */
  lemma {:induction false} LastPieceIsSuffix(path: string)
    ensures '/' !in LastPiece(path)
    ensures |LastPiece(path)| <= |path| && path[|path| - |LastPiece(path)|..] == LastPiece(path)
    ensures |LastPiece(path)| == |path| <==> '/' !in path
    ensures |LastPiece(path)| < |path| ==> path[|path| - |LastPiece(path)| - 1] == '/'
  {
    var parts := Split(path, '/');
    var last := parts[|parts| - 1];
    assert '/' !in last;
    LastPieceShape(path);
    if |parts| > 1 {
      var front := Join(parts[..|parts| - 1], '/');
      assert path == front + ['/'] + last;
      assert path[|front|] == '/';
      assert path[|path| - |last|..] == last;
    }
  }

  /** The name `addDirectory` stores for `path`: its last piece, or the whole path when that piece is empty. */
  function DirectoryName(path: string): (name: string)
    ensures '/' !in path ==> name == path
    ensures path != [] && path[|path| - 1] == '/' ==> name == path
    ensures '/' in path && path[|path| - 1] != '/' ==>
      && name != "" && '/' !in name && |name| < |path|
      && path[|path| - |name| - 1] == '/' && path[|path| - |name|..] == name
  {
    LastPieceIsSuffix(path);
    var last := LastPiece(path);
    if last == "" then path else last
  }

  /** The trailing run of '/' removed. */
  function TrimTrailingSlashes(s: string): (r: string)
    ensures |r| <= |s| && r == s[..|r|]
    ensures r == [] || r[|r| - 1] != '/'
    ensures forall k :: |r| <= k < |s| ==> s[k] == '/'
  {
    if s != [] && s[|s| - 1] == '/' then TrimTrailingSlashes(s[..|s| - 1]) else s
  }

  /** Node's POSIX `path.basename(p)`: the last non-empty piece, trailing separators ignored. */
  function Basename(path: string): (name: string)
    ensures '/' !in name
    ensures name == "" <==> forall k :: 0 <= k < |path| ==> path[k] == '/'
    ensures var q := TrimTrailingSlashes(path);
      && |name| <= |q| && q[|q| - |name|..] == name
      && (|name| < |q| ==> q[|q| - |name| - 1] == '/')
  {
    var q := TrimTrailingSlashes(path);
    LastPieceIsSuffix(q);
    LastPiece(q)
  }

  /** `path.join(dir, name)` for a directory entry name (no normalisation modelled). */
  function Child(dir: string, name: string): string {
    dir + "/" + name
  }
}
