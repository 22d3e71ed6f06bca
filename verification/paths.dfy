/**
 * The pieces of Node's `path` module the installer relies on:
 * `path.posix.basename`, `path.win32.basename`, `path.isAbsolute`, and
 * `path.join` (here without normalisation of `.` and `..`).
 */
module Paths {
  import opened Text

  type Path = string

  /** The host operating system as `os.platform()` names it. */
  datatype Platform = Aix | Android | Darwin | FreeBsd | Haiku | Linux | OpenBsd | SunOs | Win32 | Cygwin | NetBsd

  predicate IsWindows(p: Platform) {
    p == Win32
  }

  /** `/` separates components everywhere; `\` does too on Windows. */
  predicate IsSep(c: char, windows: bool) {
    c == '/' || (windows && c == '\\')
  }

  predicate IsDriveLetter(c: char) {
    ('A' <= c <= 'Z') || ('a' <= c <= 'z')
  }

  /** Windows `basename` skips a leading drive designator such as `C:`. */
  function DropDrive(p: Path, windows: bool): (r: Path)
    ensures r == p || (|p| >= 2 && r == p[2..])
  {
    if windows && |p| >= 2 && IsDriveLetter(p[0]) && p[1] == ':' then p[2..] else p
  }

  function DropTrailingSeps(p: Path, windows: bool): (r: Path)
    ensures |r| <= |p| && r == p[..|r|]
    ensures forall i :: |r| <= i < |p| ==> IsSep(p[i], windows)
    ensures r == [] || !IsSep(r[|r| - 1], windows)
    decreases |p|
  {
    if |p| > 0 && IsSep(p[|p| - 1], windows) then DropTrailingSeps(p[..|p| - 1], windows) else p
  }

  /** The text after the last separator. */
  function LastComponent(p: Path, windows: bool): (r: Path)
    ensures |r| <= |p| && r == p[|p| - |r|..]
    ensures forall i :: 0 <= i < |r| ==> !IsSep(r[i], windows)
    ensures |r| < |p| ==> IsSep(p[|p| - |r| - 1], windows)
    decreases |p|
  {
    if |p| == 0 || IsSep(p[|p| - 1], windows) then []
    else LastComponent(p[..|p| - 1], windows) + [p[|p| - 1]]
  }

  /** `path.posix.basename(p)` (`windows` false) or `path.win32.basename(p)`
      (`windows` true): the last non-empty component, trailing separators
      ignored. */
  function BaseName(p: Path, windows: bool): (r: Path)
    ensures forall i :: 0 <= i < |r| ==> !IsSep(r[i], windows)
  {
    LastComponent(DropTrailingSeps(DropDrive(p, windows), windows), windows)
  }

  /** `path.join(a, b)` for a relative `b`, without normalisation. */
  function Join(a: Path, b: Path): Path {
    a + "/" + b
  }

  /** The base name of a joined path is the name joined on, whatever the
      directory, on both flavours, as long as the name is a single
      component. */
  lemma {:induction false} BaseNameOfJoin(dir: Path, name: Path, windows: bool)
    requires name != []
    requires forall i :: 0 <= i < |name| ==> !IsSep(name[i], windows)
    ensures BaseName(Join(dir, name), windows) == name
  {
    var p := Join(dir, name);
    var q := DropDrive(p, windows);
    assert q == p || q == p[2..];
    // The drive designator, if any, lies inside `dir + "/"`.
    assert q[|q| - |name| - 1..] == "/" + name by {
      if q != p {
        assert p[|dir|] == '/';
        assert q == p[2..] == dir[2..] + "/" + name;
      }
    }
    assert DropTrailingSeps(q, windows) == q;
    LastComponentOfSuffix(q, name, windows);
  }

  lemma {:induction false} LastComponentOfSuffix(q: Path, name: Path, windows: bool)
    requires |q| > |name|
    requires q[|q| - |name| - 1..] == "/" + name
    requires forall i :: 0 <= i < |name| ==> !IsSep(name[i], windows)
    ensures LastComponent(q, windows) == name
    decreases |name|
  {
    if name == [] {
      assert q[|q| - 1] == '/';
    } else {
      var q' := q[..|q| - 1];
      var name' := name[..|name| - 1];
      assert q'[|q'| - |name'| - 1..] == "/" + name';
      LastComponentOfSuffix(q', name', windows);
      assert name == name' + [name[|name| - 1]];
    }
  }

  /** `path.isAbsolute(p)` on the host platform. */
  predicate IsAbsolute(p: Path, windows: bool) {
    if !windows then |p| > 0 && p[0] == '/'
    else
      || (|p| > 0 && IsSep(p[0], true))
      || (|p| > 2 && IsDriveLetter(p[0]) && p[1] == ':' && IsSep(p[2], true))
  }
}
