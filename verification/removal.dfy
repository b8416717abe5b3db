/** `remove_directory_recursive`: a post-order walk that opens each directory,
    removes its entries (recursing into subdirectories, unlinking the rest)
    and then removes the directory itself.  Every failure is ignored.

    The order in which `readdir` returns entries is unspecified; the model
    takes them in an arbitrary but fixed order (`Pick`).  The listing is a
    snapshot taken when the directory is opened.  Each open directory holds
    a descriptor until it is closed, so the depth of the walk is bounded by
    the descriptors the process has free (`fds`); `opendir` fails with
    EMFILE when none is left. */
module Removal {
  import opened Base
  import opened FileSystem

  /** Some element of a non-empty set, the same one every time. */
  ghost function Pick(names: set<string>): (n: string)
    requires names != {}
    ensures n in names
  {
    var n :| n in names; n
  }

  /** The path of entry `n` of directory `path`: as written, `snprintf` into
      a `MaxPathSize` buffer cuts it to `MaxPathLen` characters. */
  function ChildPath(truncate: bool, path: string, n: string): (r: string)
    ensures truncate ==> r == Truncate(path + "/" + n, MaxPathLen)
    ensures !truncate ==> r == path + "/" + n
  {
    if truncate then Truncate(path + "/" + n, MaxPathLen) else path + "/" + n
  }

  /** The walk from directory `path` with `fds` free descriptors. */
  ghost function Tree(truncate: bool, fs: Fs, path: string, fds: nat): Fs
    decreases fds, 0
  {
    match Lookup(fs, path)
    case Err(_) => fs
    case Ok(d) =>
      if !fs[d].Dir? || fds == 0 then fs
      else
        var emptied := Entries(truncate, fs, path, Children(fs, d), fds - 1);
        match Rmdir(emptied, path)
        case Ok(removed) => removed
        case Err(_) => emptied
  }

  ghost function Entries(truncate: bool, fs: Fs, path: string, names: set<string>, fds: nat): Fs
    decreases fds, 1, |names|
  {
    if names == {} then fs
    else
      var n := Pick(names);
      Entries(truncate, Entry(truncate, fs, path, n, fds), path, names - {n}, fds)
  }

  /** One entry: "." and ".." are skipped, an entry `lstat` cannot see is
      skipped, a directory is walked, anything else is unlinked. */
  ghost function Entry(truncate: bool, fs: Fs, path: string, n: string, fds: nat): Fs
    decreases fds, 1, 0
  {
    if n == "." || n == ".." then fs
    else
      var full := ChildPath(truncate, path, n);
      match Lstat(fs, full)
      case Err(_) => fs
      case Ok(st) =>
        if st.mode & S_IFMT == S_IFDIR then Tree(truncate, fs, full, fds)
        else match Unlink(fs, full)
          case Ok(unlinked) => unlinked
          case Err(_) => fs
  }

  /** "." and "..", and entries that vanished before their `lstat`, leave
      the tree as it was. */
  lemma EntrySkips(truncate: bool, fs: Fs, path: string, n: string, fds: nat)
    ensures n == "." || n == ".." ==> Entry(truncate, fs, path, n, fds) == fs
    ensures Resolve(ChildPath(truncate, path, n)) !in fs ==> Entry(truncate, fs, path, n, fds) == fs
  {
  }

  /** Without a free descriptor `opendir` fails and nothing is removed. */
  lemma NoDescriptorNoRemoval(truncate: bool, fs: Fs, path: string)
    ensures Tree(truncate, fs, path, 0) == fs
  {
  }

  /** However far it gets, the walk leaves a well-formed tree: it only ever
      unlinks non-directories and removes empty directories. */
  lemma {:induction false} TreeKeepsWellFormed(truncate: bool, fs: Fs, path: string, fds: nat)
    requires WellFormed(fs)
    ensures WellFormed(Tree(truncate, fs, path, fds))
    decreases fds, 0
  {
    var r := Lookup(fs, path);
    if r.Ok? && fs[r.value].Dir? && fds > 0 {
      var below := fds - 1;
      EntriesKeepWellFormed(truncate, fs, path, Children(fs, r.value), below);
      TreeStepKeepsWellFormed(truncate, fs, path, r.value, below);
    } else {
      assert Tree(truncate, fs, path, fds) == fs;
    }
  }

  /** The walk from a directory, given that its entries keep the tree well formed. */
  lemma TreeStepKeepsWellFormed(truncate: bool, fs: Fs, path: string, d: Key, below: nat)
    requires Lookup(fs, path) == Ok(d) && fs[d].Dir?
    requires WellFormed(Entries(truncate, fs, path, Children(fs, d), below))
    ensures WellFormed(Tree(truncate, fs, path, below + 1))
  {
    var emptied := Entries(truncate, fs, path, Children(fs, d), below);
    if Rmdir(emptied, path).Ok? {
      RmdirKeepsWellFormed(emptied, path);
    }
  }

  lemma {:induction false} EntriesKeepWellFormed(truncate: bool, fs: Fs, path: string, names: set<string>, fds: nat)
    requires WellFormed(fs)
    ensures WellFormed(Entries(truncate, fs, path, names, fds))
    decreases fds, 1, |names|
  {
    if names != {} {
      var n := Pick(names);
      EntryKeepsWellFormed(truncate, fs, path, n, fds);
      EntriesKeepWellFormed(truncate, Entry(truncate, fs, path, n, fds), path, names - {n}, fds);
    }
  }

  lemma {:induction false} EntryKeepsWellFormed(truncate: bool, fs: Fs, path: string, n: string, fds: nat)
    requires WellFormed(fs)
    ensures WellFormed(Entry(truncate, fs, path, n, fds))
    decreases fds, 1, 0
  {
    if n != "." && n != ".." {
      var full := ChildPath(truncate, path, n);
      match Lstat(fs, full)
      case Err(_) =>
      case Ok(st) =>
        if st.mode & S_IFMT == S_IFDIR {
          TreeKeepsWellFormed(truncate, fs, full, fds);
        } else if Unlink(fs, full).Ok? {
          UnlinkKeepsWellFormed(fs, full);
        }
    }
  }

  // ---------------------------------------------------------------------
  // What removal should leave behind

  /** The tree without the node `k` and everything below it. */
  function Erase(fs: Fs, k: Key): (r: Fs)
    ensures forall x :: x in r <==> x in fs && !AtOrBelow(k, x)
    ensures forall x :: x in r ==> r[x] == fs[x]
  {
    map x | x in fs && !AtOrBelow(k, x) :: fs[x]
  }

  /** `x` lies in the subtree of one of the entries `names` of `k`. */
  predicate UnderSome(k: Key, names: set<string>, x: Key) {
    |x| > |k| && x[..|k|] == k && x[|k|] in names
  }

  /** The tree without the subtrees of the entries `names` of `k`. */
  function Prune(fs: Fs, k: Key, names: set<string>): (r: Fs)
    ensures forall x :: x in r <==> x in fs && !UnderSome(k, names, x)
    ensures forall x :: x in r ==> r[x] == fs[x]
  {
    map x | x in fs && !UnderSome(k, names, x) :: fs[x]
  }

  lemma ChildSubtree(k: Key, n: string, x: Key)
    ensures AtOrBelow(k + [n], x) <==> UnderSome(k, {n}, x)
  {
    if UnderSome(k, {n}, x) {
      assert x[..|k| + 1] == x[..|k|] + [x[|k|]];
    }
    if AtOrBelow(k + [n], x) {
      assert x[..|k|] == x[..|k| + 1][..|k|];
      assert x[|k|] == x[..|k| + 1][|k|];
    }
  }

  lemma EraseKeepsWellFormed(fs: Fs, k: Key)
    requires WellFormed(fs) && |k| > 0
    ensures WellFormed(Erase(fs, k))
  {
    var r := Erase(fs, k);
    forall x | x in r && |x| > 0
      ensures x[..|x| - 1] in r
    {
      ParentAtOrBelow(k, x);
    }
  }

  lemma NothingBelowNonDirectory(fs: Fs, k: Key)
    requires WellFormed(fs) && k in fs && !fs[k].Dir?
    ensures Erase(fs, k) == fs - {k}
  {
    forall x | x in fs ensures AtOrBelow(k, x) <==> x == k {
      BelowMeansDirectory(fs, k, x);
      AtOrBelowSplit(k, x);
    }
  }

  lemma ChildrenAreNames(fs: Fs, k: Key, n: string)
    requires WellFormed(fs) && n in Children(fs, k)
    ensures IsName(n) && k + [n] in fs
  {
    var x :| x in fs && |x| == |k| + 1 && x[..|k|] == k && x[|k|] == n;
    assert x == k + [n];
  }

  lemma LastPieceOfChild(path: string, n: string)
    requires IsName(n)
    ensures LastPiece(path + "/" + n) == n
  {
    var s := path + "/" + n;
    LastSlashOfChild(path, n);
    assert s[..|path|] == path && s[|path| + 1..] == n;
  }

  /** The depth of everything below `k` is less than `fds`. */
  predicate DepthBelow(fs: Fs, k: Key, fds: nat) {
    forall x :: x in fs && IsBelow(k, x) ==> |x| - |k| < fds
  }

  // ---------------------------------------------------------------------
  // The walk removes exactly the subtree, whenever its paths fit

  /** The length of the text "/n1/n2/.../nj" that leads from a directory to
      a node `names` below it. */
  function AppendedLength(names: seq<string>): nat {
    if |names| == 0 then 0 else 1 + |names[0]| + AppendedLength(names[1..])
  }

  /** Every path the walk from `path` builds for a node below it fits the
      `MaxPathSize` buffer, so `snprintf` never cuts one. */
  predicate PathsFit(fs: Fs, path: string) {
    forall x :: x in fs && IsBelow(Resolve(path), x) ==>
      |path| + AppendedLength(x[|Resolve(path)|..]) <= MaxPathLen
  }

  /** The path of an entry fits, and so does everything the walk builds from it. */
  lemma FitsChild(fs: Fs, path: string, n: string)
    requires PathsFit(fs, path) && IsName(n) && Resolve(path) + [n] in fs
    ensures ChildPath(true, path, n) == path + "/" + n
    ensures PathsFit(fs, path + "/" + n)
  {
    var k := Resolve(path);
    var c := k + [n];
    assert IsBelow(k, c) && c[|k|..] == [n];
    assert AppendedLength([n]) == 1 + |n|;
    ResolveChild(path, n);
    forall x | x in fs && IsBelow(c, x)
      ensures |path + "/" + n| + AppendedLength(x[|c|..]) <= MaxPathLen
    {
      assert x[..|k|] == x[..|c|][..|k|];
      assert IsBelow(k, x);
      var tail := x[|k|..];
      assert tail[0] == n && tail[1..] == x[|c|..];
    }
  }

  /** Removing nodes keeps every remaining path short enough. */
  lemma FitsFewer(fs: Fs, smaller: Fs, path: string)
    requires PathsFit(fs, path)
    requires forall x :: x in smaller ==> x in fs
    ensures PathsFit(smaller, path)
  {
  }

  /** Once every entry's subtree is gone, nothing is left below the directory. */
  lemma PruneAllChildren(fs: Fs, k: Key)
    requires WellFormed(fs)
    ensures forall x :: x in Prune(fs, k, Children(fs, k)) ==> !IsBelow(k, x)
  {
    var names := Children(fs, k);
    forall x | x in fs && IsBelow(k, x) ensures UnderSome(k, names, x) {
      BelowHasChild(fs, k, x);
    }
  }

  lemma NothingBelowNoChildren(fs: Fs, k: Key)
    requires forall x :: x in fs ==> !IsBelow(k, x)
    ensures Children(fs, k) == {}
  {

  }

  lemma EmptiedIsErased(fs: Fs, k: Key)
    requires WellFormed(fs)
    ensures Prune(fs, k, Children(fs, k)) - {k} == Erase(fs, k)
  {
    var names := Children(fs, k);
    forall x | x in fs
      ensures (UnderSome(k, names, x) || x == k) <==> AtOrBelow(k, x)
    {
      if IsBelow(k, x) {
        BelowHasChild(fs, k, x);
      }
      AtOrBelowSplit(k, x);
    }
  }

  lemma EmptiedFacts(fs: Fs, k: Key)
    requires WellFormed(fs) && k in fs
    ensures k in Prune(fs, k, Children(fs, k)) && Prune(fs, k, Children(fs, k))[k] == fs[k]
    ensures Children(Prune(fs, k, Children(fs, k)), k) == {}
    ensures Prune(fs, k, Children(fs, k)) - {k} == Erase(fs, k)
  {
    PruneAllChildren(fs, k);
    NothingBelowNoChildren(Prune(fs, k, Children(fs, k)), k);
    EmptiedIsErased(fs, k);
  }

  /** One level of the walk from an existing directory. */
  lemma TreeUnfold(truncate: bool, fs: Fs, path: string, fds: nat)
    requires Resolve(path) in fs && fs[Resolve(path)].Dir? && fds > 0
    ensures var emptied := Entries(truncate, fs, path, Children(fs, Resolve(path)), fds - 1);
      Tree(truncate, fs, path, fds) == if Rmdir(emptied, path).Ok? then Rmdir(emptied, path).value else emptied
  {
  }

  lemma RmdirEmpty(fs: Fs, path: string)
    requires Resolve(path) in fs && fs[Resolve(path)].Dir? && |Resolve(path)| > 0
    requires LastPiece(path) != "." && LastPiece(path) != ".."
    requires Children(fs, Resolve(path)) == {}
    ensures Rmdir(fs, path) == Ok(fs - {Resolve(path)})
  {
  }

  /** What the walk over directory `k` needs: a well-formed tree in which `k`
      is a directory and everything below it is less than `fds` levels deep. */
  predicate Ready(fs: Fs, k: Key, fds: nat) {
    WellFormed(fs) && k in fs && fs[k].Dir? && DepthBelow(fs, k, fds)
  }

  /** With a descriptor for every level, the walk from a directory removes
      it and everything below it, and nothing else: always when paths are
      built in full, and as written whenever every path fits the buffer. */
  lemma {:induction false} TreeErases(truncate: bool, fs: Fs, path: string, fds: nat)
    requires Ready(fs, Resolve(path), fds) && fds > 0 && |Resolve(path)| > 0
    requires LastPiece(path) != "." && LastPiece(path) != ".."
    requires truncate ==> PathsFit(fs, path)
    ensures Tree(truncate, fs, path, fds) == Erase(fs, Resolve(path))
    decreases fds, 0
  {
    var below := fds - 1;
    EntriesErase(truncate, fs, path, Children(fs, Resolve(path)), below);
    TreeStep(truncate, fs, path, below);
  }

  /** When every path fits, the buffer makes no difference: the walk as
      written does what the walk with full paths does. */
  lemma TruncationHarmless(fs: Fs, path: string, fds: nat)
    requires Ready(fs, Resolve(path), fds) && fds > 0 && |Resolve(path)| > 0
    requires LastPiece(path) != "." && LastPiece(path) != ".."
    requires PathsFit(fs, path)
    ensures Tree(true, fs, path, fds) == Tree(false, fs, path, fds)
  {
    TreeErases(true, fs, path, fds);
    TreeErases(false, fs, path, fds);
  }

  /** The walk from a directory, given what the walk over its entries does. */
  lemma TreeStep(truncate: bool, fs: Fs, path: string, below: nat)
    requires Ready(fs, Resolve(path), below + 1) && |Resolve(path)| > 0
    requires LastPiece(path) != "." && LastPiece(path) != ".."
    requires Entries(truncate, fs, path, Children(fs, Resolve(path)), below) ==
             Prune(fs, Resolve(path), Children(fs, Resolve(path)))
    ensures Tree(truncate, fs, path, below + 1) == Erase(fs, Resolve(path))
  {
    var k := Resolve(path);
    var emptied := Prune(fs, k, Children(fs, k));
    EmptiedFacts(fs, k);
    RmdirEmpty(emptied, path);
    TreeUnfold(truncate, fs, path, below + 1);
  }

  /** The tree after one entry's subtree is erased is still ready for the
      walk over the remaining entries. */
  lemma AfterEntry(fs: Fs, k: Key, n: string, rest: set<string>, fds: nat)
    requires Ready(fs, k, fds)
    requires n in Children(fs, k) && rest <= Children(fs, k) - {n}
    ensures Ready(Erase(fs, k + [n]), k, fds)
    ensures rest <= Children(Erase(fs, k + [n]), k)
  {
    var after := Erase(fs, k + [n]);
    EraseKeepsWellFormed(fs, k + [n]);
    assert !AtOrBelow(k + [n], k);
    forall m | m in rest ensures m in Children(after, k) {
      ChildrenAreNames(fs, k, m);
      var c := k + [m];
      assert c[..|k|] == k && c[|k|] == m;
      ChildSubtree(k, n, c);
    }
  }

  lemma PruneStep(fs: Fs, k: Key, n: string, rest: set<string>)
    ensures Prune(Erase(fs, k + [n]), k, rest) == Prune(fs, k, rest + {n})
  {
    forall x ensures x in Prune(Erase(fs, k + [n]), k, rest) <==> x in Prune(fs, k, rest + {n}) {
      ChildSubtree(k, n, x);
    }
  }

  lemma EntriesUnfold(truncate: bool, fs: Fs, path: string, names: set<string>, fds: nat)
    requires names != {}
    ensures Entries(truncate, fs, path, names, fds) ==
      Entries(truncate, Entry(truncate, fs, path, Pick(names), fds), path, names - {Pick(names)}, fds)
  {
  }

  /** The walk over some of a directory's entries removes exactly their subtrees. */
  lemma {:induction false} EntriesErase(truncate: bool, fs: Fs, path: string, names: set<string>, fds: nat)
    requires Ready(fs, Resolve(path), fds + 1)
    requires names <= Children(fs, Resolve(path))
    requires truncate ==> PathsFit(fs, path)
    ensures Entries(truncate, fs, path, names, fds) == Prune(fs, Resolve(path), names)
    decreases fds, 1, |names|
  {
    var k := Resolve(path);
    if names == {} {
      assert Prune(fs, k, names) == fs;
    } else {
      var n := Pick(names);
      EntryErases(truncate, fs, path, n, fds);
      AfterEntry(fs, k, n, names - {n}, fds + 1);
      if truncate {
        FitsFewer(fs, Erase(fs, k + [n]), path);
      }
      EntriesErase(truncate, Erase(fs, k + [n]), path, names - {n}, fds);
      EntriesStep(truncate, fs, path, k, names, fds);
    }
  }

  /** One step of the walk over the entries, given what the first entry and
      the remaining ones do. */
  lemma EntriesStep(truncate: bool, fs: Fs, path: string, k: Key, names: set<string>, fds: nat)
    requires names != {}
    requires Entry(truncate, fs, path, Pick(names), fds) == Erase(fs, k + [Pick(names)])
    requires Entries(truncate, Erase(fs, k + [Pick(names)]), path, names - {Pick(names)}, fds) ==
             Prune(Erase(fs, k + [Pick(names)]), k, names - {Pick(names)})
    ensures Entries(truncate, fs, path, names, fds) == Prune(fs, k, names)
  {
    var n := Pick(names);
    EntriesUnfold(truncate, fs, path, names, fds);
    PruneStep(fs, k, n, names - {n});
    assert names - {n} + {n} == names;
  }

  lemma DepthOfChild(fs: Fs, k: Key, n: string, fds: nat)
    requires DepthBelow(fs, k, fds + 1)
    ensures DepthBelow(fs, k + [n], fds)
  {
    var c := k + [n];
    forall x | x in fs && IsBelow(c, x) ensures |x| - |c| < fds {
      assert x[..|k|] == x[..|c|][..|k|];
      assert IsBelow(k, x);
    }
  }

  /** One entry: a directory is walked, anything else is unlinked; either
      way exactly its subtree goes. */
  lemma {:induction false} EntryErases(truncate: bool, fs: Fs, path: string, n: string, fds: nat)
    requires Ready(fs, Resolve(path), fds + 1)
    requires n in Children(fs, Resolve(path))
    requires truncate ==> PathsFit(fs, path)
    ensures Entry(truncate, fs, path, n, fds) == Erase(fs, Resolve(path) + [n])
    decreases fds, 1, 0
  {
    var k := Resolve(path);
    var c := k + [n];
    var full := path + "/" + n;
    ChildrenAreNames(fs, k, n);
    ResolveChild(path, n);
    if truncate {
      FitsChild(fs, path, n);
    }
    assert ChildPath(truncate, path, n) == full;
    StatKind(fs[c]);
    assert IsBelow(k, c);
    if fs[c].Dir? {
      LastPieceOfChild(path, n);
      DepthOfChild(fs, k, n, fds);
      TreeErases(truncate, fs, full, fds);
    } else {
      NothingBelowNonDirectory(fs, c);
    }
  }

  // ---------------------------------------------------------------------
  // As written: a directory path of 254 or 255 characters

  /** When the directory's path leaves no room in the buffer for its
      entries' names, every entry's path is cut back to the directory
      itself: the walk re-enters the same directory until descriptors run
      out, and a directory with entries is left exactly as it was. */
  lemma {:induction false} AsWrittenRunaway(fs: Fs, path: string, fds: nat)
    requires MaxPathLen - 1 <= |path| <= MaxPathLen
    requires Resolve(path) in fs && fs[Resolve(path)].Dir? && Children(fs, Resolve(path)) != {}
    ensures Tree(true, fs, path, fds) == fs
    decreases fds, 0
  {
    if fds > 0 {
      EntriesRunaway(fs, path, Children(fs, Resolve(path)), fds - 1);
    }
  }

  lemma {:induction false} EntriesRunaway(fs: Fs, path: string, names: set<string>, fds: nat)
    requires MaxPathLen - 1 <= |path| <= MaxPathLen
    requires Resolve(path) in fs && fs[Resolve(path)].Dir? && Children(fs, Resolve(path)) != {}
    ensures Entries(true, fs, path, names, fds) == fs
    decreases fds, 1, |names|
  {
    if names != {} {
      var n := Pick(names);
      EntryRunaway(fs, path, n, fds);
      EntriesRunaway(fs, path, names - {n}, fds);
    }
  }

  lemma {:induction false} EntryRunaway(fs: Fs, path: string, n: string, fds: nat)
    requires MaxPathLen - 1 <= |path| <= MaxPathLen
    requires Resolve(path) in fs && fs[Resolve(path)].Dir? && Children(fs, Resolve(path)) != {}
    ensures Entry(true, fs, path, n, fds) == fs
    decreases fds, 1, 0
  {
    if n != "." && n != ".." {
      var full := ChildPath(true, path, n);
      if |path| == MaxPathLen {
        assert full == path;
      } else {
        assert full == path + "/";
        ResolveTrailingSlash(path);
      }
      StatKind(fs[Resolve(path)]);
      AsWrittenRunaway(fs, full, fds);
    }
  }
}
