/** Path resolution and the jail check of the shell (`get_absolute_path` and
    `is_within_base_dir`).  The host's `realpath(3)` is not modelled: it is an
    uninterpreted partial function passed in by the caller. */
module Paths {
  import opened Base

  /** `realpath(3)`: the canonical form of a path, or None when it cannot be
      resolved (for instance because the file does not exist yet). */
  type Canonicalizer = string -> Option<string>

  predicate IsAbsolute(path: string) {
    |path| > 0 && path[0] == '/'
  }

  /** `get_absolute_path`: an absolute argument is taken as it is, a relative
      one is appended to `base` after a '/'; either way the text is cut to
      what a `MaxPathSize` buffer holds.  No "." or ".." is interpreted. */
  function AbsolutePath(base: string, path: string): (r: string)
    ensures |r| <= MaxPathLen
    ensures IsAbsolute(path) ==> IsPrefix(r, path) && |r| == Min(|path|, MaxPathLen)
    ensures !IsAbsolute(path) ==>
      IsPrefix(r, base + "/" + path) && |r| == Min(|base| + 1 + |path|, MaxPathLen)
  {
    Truncate(if IsAbsolute(path) then path else base + "/" + path, MaxPathLen)
  }

  /** Inverse of the relative join: the argument a joined path was built from. */
  function RelativePart(base: string, joined: string): Option<string> {
    if IsPrefix(base + "/", joined) then Some(joined[|base| + 1..]) else None
  }

  /** A relative path whose join fits the buffer is recovered exactly from the
      result: the join neither truncates nor normalises it. */
  lemma RelativeJoinRoundTrip(base: string, path: string)
    requires !IsAbsolute(path)
    requires |base| + 1 + |path| <= MaxPathLen
    ensures RelativePart(base, AbsolutePath(base, path)) == Some(path)
    ensures AbsolutePath(base, path)[..|base|] == base
  {
    var r := AbsolutePath(base, path);
    assert r == base + "/" + path;
    assert r[..|base| + 1] == base + "/";
    assert r[|base| + 1..] == path;
  }

  /** An absolute path that fits the buffer comes back unchanged. */
  lemma AbsoluteKept(base: string, path: string)
    requires IsAbsolute(path) && |path| <= MaxPathLen
    ensures AbsolutePath(base, path) == path
  {
  }

  /** ".." is kept as text: nothing climbs out of the working directory here. */
  lemma DotDotNotNormalised()
    ensures AbsolutePath(BaseDir, "..") == "/tmp/test/.."
    ensures AbsolutePath(BaseDir, "") == "/tmp/test/"
  {
  }

  /** The text before the last '/', which the fallback canonicalises instead. */
  function ParentText(path: string): (r: Option<string>)
    ensures r.None? <==> '/' !in path
    ensures r.Some? ==> IsPrefix(r.value + "/", path) && '/' !in path[|r.value| + 1..]
  {
    match LastIndexOf(path, '/')
    case None => None
    case Some(i) =>
      assert path[..i + 1] == path[..i] + "/";
      Some(path[..i])
  }

  /** The canonical path the jail check compares with the canonical root: the
      candidate's own, or, when that fails, its parent's; one level, once. */
  function CheckedCanonical(realpath: Canonicalizer, path: string): (r: Option<string>)
    ensures realpath(path).Some? ==> r == realpath(path)
    ensures r.Some? && realpath(path).None? ==>
      ParentText(path).Some? && r == realpath(ParentText(path).value)
    ensures r.None? ==>
      realpath(path).None? && (ParentText(path).None? || realpath(ParentText(path).value).None?)
  {
    match realpath(path)
    case Some(c) => Some(c)
    case None =>
      match ParentText(path)
      case None => None
      case Some(parent) => realpath(parent)
  }

  /** `is_within_base_dir` as written: the canonical root must be a string
      prefix of the checked canonical path.  The code dereferences the
      canonical root unconditionally on the fallback path, so the root must
      canonicalise. */
  function WithinBaseDir(realpath: Canonicalizer, path: string): (ok: bool)
    requires realpath(BaseDir).Some?
    ensures ok <==>
      CheckedCanonical(realpath, path).Some? &&
      IsPrefix(realpath(BaseDir).value, CheckedCanonical(realpath, path).value)
  {
    match realpath(path)
    case Some(c) => IsPrefix(realpath(BaseDir).value, c)
    case None =>
      match ParentText(path)
      case None => false
      case Some(parent) =>
        match realpath(parent)
        case None => false
        case Some(pc) => IsPrefix(realpath(BaseDir).value, pc)
  }

  /** When both paths canonicalise, the check is exactly the prefix test. */
  lemma WithinWhenCanonical(realpath: Canonicalizer, path: string)
    requires realpath(BaseDir).Some? && realpath(path).Some?
    ensures WithinBaseDir(realpath, path) <==>
      IsPrefix(realpath(BaseDir).value, realpath(path).value)
  {
  }

  /** When the candidate does not canonicalise, only its parent text is tried:
      no '/' or a failing parent means refusal, whatever lies further up. */
  lemma FallbackIsOneLevel(realpath: Canonicalizer, path: string)
    requires realpath(BaseDir).Some? && realpath(path).None?
    ensures '/' !in path ==> !WithinBaseDir(realpath, path)
    ensures '/' in path ==>
      (WithinBaseDir(realpath, path) <==>
        var parent := ParentText(path).value;
        realpath(parent).Some? && IsPrefix(realpath(BaseDir).value, realpath(parent).value))
  {
  }

  /** `c` lies in the directory tree rooted at `b`: it is `b`, or the prefix
      `b` is followed by a separator (or already ends with one). */
  predicate InsideTree(b: string, c: string) {
    IsPrefix(b, c) && (|c| == |b| || c[|b|] == '/' || (|b| > 0 && b[|b| - 1] == '/'))
  }

  /** `c` merely starts with the text of `b` and continues the last name:
      "/tmp/testing" against "/tmp/test". */
  predicate SiblingName(b: string, c: string) {
    IsPrefix(b, c) && |c| > |b| && c[|b|] != '/' && !(|b| > 0 && b[|b| - 1] == '/')
  }

  /** The separator-aware check: the same canonicalisation and fallback, with
      the prefix test replaced by `InsideTree`. */
  function WithinBaseDirStrict(realpath: Canonicalizer, path: string): (ok: bool)
    requires realpath(BaseDir).Some?
    ensures ok ==> WithinBaseDir(realpath, path)
    ensures ok <==>
      CheckedCanonical(realpath, path).Some? &&
      InsideTree(realpath(BaseDir).value, CheckedCanonical(realpath, path).value)
  {
    match CheckedCanonical(realpath, path)
    case None => false
    case Some(c) => InsideTree(realpath(BaseDir).value, c)
  }

  /** The as-written check accepts exactly what the separator-aware check
      accepts plus the sibling names. */
  lemma LiteralIsStrictOrSibling(realpath: Canonicalizer, path: string)
    requires realpath(BaseDir).Some?
    ensures WithinBaseDir(realpath, path) <==>
      WithinBaseDirStrict(realpath, path) ||
      (CheckedCanonical(realpath, path).Some? &&
       SiblingName(realpath(BaseDir).value, CheckedCanonical(realpath, path).value))
  {
  }

  /** A host on which `BaseDir` and "/tmp/testing" both exist as themselves. */
  function IdentityHost(): Canonicalizer {
    p => Some(p)
  }

  /** The as-written check lets a sibling directory of the jail through, and
      the separator-aware check refuses it: the latter is strictly stronger. */
  lemma SiblingDirectoryAccepted()
    ensures WithinBaseDir(IdentityHost(), "/tmp/testing")
    ensures !WithinBaseDirStrict(IdentityHost(), "/tmp/testing")
    ensures WithinBaseDirStrict(IdentityHost(), "/tmp/test/a")
  {
    assert "/tmp/testing"[..9] == BaseDir;
    assert "/tmp/testing"[9] == 'i';
    assert "/tmp/test/a"[..9] == BaseDir;
  }

  /** The root itself and anything strictly below it pass both checks. */
  lemma InsideTreeAccepted(realpath: Canonicalizer, path: string)
    requires realpath(BaseDir).Some? && realpath(path).Some?
    requires realpath(path) == realpath(BaseDir) ||
             IsPrefix(realpath(BaseDir).value + "/", realpath(path).value)
    ensures WithinBaseDirStrict(realpath, path)
    ensures WithinBaseDir(realpath, path)
  {
    var b := realpath(BaseDir).value;
    var c := realpath(path).value;
    if c != b {
      PrefixTransitive(b, b + "/", c);
      assert (b + "/")[|b|] == '/';
      assert c[|b|] == (b + "/")[|b|];
    }
  }
}
