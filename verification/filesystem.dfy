/** The host the commands act on: a flat map from canonical paths to nodes,
    lexical path resolution, and the system calls the commands make, each
    either succeeding with a new map or failing with an `errno` value. */
module FileSystem {
  import opened Base

  /** A path component: what lies between two slashes, other than "." and "..". */
  predicate IsName(n: string) {
    |n| > 0 && '/' !in n && n != "." && n != ".."
  }

  /** A canonical absolute path as its list of components; [] is "/". */
  type Key = seq<string>

  datatype Node =
    | File(perm: Mode, data: string, mtime: int)
    | Dir(perm: Mode, mtime: int)
    | Symlink(target: string, mtime: int)

  type Fs = map<Key, Node>

  datatype Errno = ENOENT | EEXIST | ENOTDIR | EISDIR | ENOTEMPTY | EINVAL | EBUSY | ELOOP | EPERM | EMFILE

  datatype Result<T> = Ok(value: T) | Err(errno: Errno)

  /** How many symbolic links the kernel follows before giving up (`MAXSYMLINKS`). */
  const MaxSymlinkHops: nat := 40

  // ---------------------------------------------------------------------
  // Paths

  /** The pieces of `s` between slashes, empty pieces included. */
  function SplitPath(s: string): (parts: seq<string>)
    ensures |parts| > 0
    ensures forall i :: 0 <= i < |parts| ==> '/' !in parts[i]
    decreases |s|
  {
    match LastIndexOf(s, '/')
    case None => [s]
    case Some(i) => SplitPath(s[..i]) + [s[i + 1..]]
  }

  /** One piece of a path applied to the directory reached so far: empty
      pieces and "." stay, ".." goes up (not above the root), a name goes down. */
  function StepComponent(k: Key, c: string): Key {
    if c == "" || c == "." then k
    else if c == ".." then (if |k| > 0 then k[..|k| - 1] else k)
    else k + [c]
  }

  function Walk(k: Key, parts: seq<string>): Key
    decreases |parts|
  {
    if |parts| == 0 then k else StepComponent(Walk(k, parts[..|parts| - 1]), parts[|parts| - 1])
  }

  /** The canonical path a path text names, read from the root. */
  function Resolve(path: string): Key {
    Walk([], SplitPath(path))
  }

  /** The text of a canonical path. */
  function KeyText(k: Key): string {
    if |k| == 0 then "/" else NamesText(k)
  }

  function NamesText(k: Key): string {
    if |k| == 0 then "" else NamesText(k[..|k| - 1]) + "/" + k[|k| - 1]
  }

  predicate AllNames(k: Key) {
    forall i :: 0 <= i < |k| ==> IsName(k[i])
  }

  /** The last '/' of `path + "/" + n` is the one added, when `n` holds none. */
  lemma {:induction false} LastSlashOfChild(path: string, n: string)
    requires '/' !in n
    ensures LastIndexOf(path + "/" + n, '/') == Some(|path|)
    decreases |n|
  {
    var s := path + "/" + n;
    if |n| > 0 {
      assert s[|s| - 1] == n[|n| - 1];
      assert s[..|s| - 1] == path + "/" + n[..|n| - 1];
      assert forall j | 0 <= j < |n| - 1 :: n[..|n| - 1][j] == n[j];
      LastSlashOfChild(path, n[..|n| - 1]);
    }
  }

  /** Appending "/c" to a path text applies the piece `c` to what it resolves to. */
  lemma ResolvePiece(path: string, c: string)
    requires '/' !in c
    ensures Resolve(path + "/" + c) == StepComponent(Resolve(path), c)
  {
    var s := path + "/" + c;
    LastSlashOfChild(path, c);
    assert s[..|path|] == path && s[|path| + 1..] == c;
    var parts := SplitPath(s);
    assert parts == SplitPath(path) + [c];
    assert parts[..|parts| - 1] == SplitPath(path);
  }

  /** Appending "/name" appends the name. */
  lemma ResolveChild(path: string, n: string)
    requires IsName(n)
    ensures Resolve(path + "/" + n) == Resolve(path) + [n]
  {
    ResolvePiece(path, n);
  }

  /** A trailing slash names the same place. */
  lemma ResolveTrailingSlash(path: string)
    ensures Resolve(path + "/") == Resolve(path)
  {
    var s := path + "/";
    LastSlashOfChild(path, "");
    assert s == path + "/" + "";
    assert s[..|path|] == path && s[|path| + 1..] == "";
    var parts := SplitPath(s);
    assert parts == SplitPath(path) + [""];
    assert parts[..|parts| - 1] == SplitPath(path);
  }

  /** The text of a canonical path resolves back to it. */
  lemma {:induction false} KeyTextRoundTrip(k: Key)
    requires AllNames(k)
    ensures Resolve(KeyText(k)) == k
  {
    if |k| == 0 {
      assert SplitPath("") == [""];
      ResolvePiece("", "");
      assert "" + "/" + "" == "/";
    } else {
      NamesTextRoundTrip(k);
    }
  }

  lemma {:induction false} NamesTextRoundTrip(k: Key)
    requires AllNames(k)
    ensures Resolve(NamesText(k)) == k
    decreases |k|
  {
    if |k| == 0 {
      assert SplitPath("") == [""];
    } else {
      var init := k[..|k| - 1];
      assert AllNames(init) by {
        forall i | 0 <= i < |init| ensures IsName(init[i]) { assert init[i] == k[i]; }
      }
      NamesTextRoundTrip(init);
      ResolveChild(NamesText(init), k[|k| - 1]);
      assert init + [k[|k| - 1]] == k;
    }
  }

  /** "name/.." cancels out and "." changes nothing: resolution is lexical. */
  lemma DotDotCancelsName(path: string, n: string)
    requires IsName(n)
    ensures Resolve(path + "/" + n + "/" + "..") == Resolve(path)
    ensures Resolve(path + "/" + ".") == Resolve(path)
  {
    ResolveChild(path, n);
    ResolvePiece(path + "/" + n, "..");
    ResolvePiece(path, ".");
  }

  // ---------------------------------------------------------------------
  // The tree

  function Parent(k: Key): Key {
    if |k| == 0 then k else k[..|k| - 1]
  }

  /** `x` lies strictly below `k`. */
  predicate IsBelow(k: Key, x: Key) {
    |x| > |k| && x[..|k|] == k
  }

  function Below(fs: Fs, k: Key): set<Key> {
    set x | x in fs && IsBelow(k, x)
  }

  /** The entries of directory `k`, as `readdir` names them (without "." and ".."). */
  function Children(fs: Fs, k: Key): set<string> {
    set x | x in fs && |x| == |k| + 1 && x[..|k|] == k :: x[|k|]
  }

  /** Every node but the root has a directory as parent, and names are names. */
  predicate WellFormed(fs: Fs) {
    && [] in fs && fs[[]].Dir?
    && forall x :: x in fs && |x| > 0 ==>
         IsName(x[|x| - 1]) && x[..|x| - 1] in fs && fs[x[..|x| - 1]].Dir?
  }

  /** In a well-formed tree, anything below `k` has an ancestor that is a
      child of `k`, so a node without children has nothing below it. */
  lemma {:induction false} BelowHasChild(fs: Fs, k: Key, x: Key)
    requires WellFormed(fs) && x in fs && IsBelow(k, x)
    ensures k + [x[|k|]] in fs && x[|k|] in Children(fs, k)
    decreases |x|
  {
    if |x| == |k| + 1 {
      assert x == k + [x[|k|]];
    } else {
      var p := x[..|x| - 1];
      assert p[..|k|] == k && p[|k|] == x[|k|];
      BelowHasChild(fs, k, p);
    }
    var c := k + [x[|k|]];
    assert c[..|k|] == k && c[|k|] == x[|k|];
  }

  lemma NoChildrenNothingBelow(fs: Fs, k: Key)
    requires WellFormed(fs) && Children(fs, k) == {}
    ensures Below(fs, k) == {}
  {
    if x :| x in Below(fs, k) {
      BelowHasChild(fs, k, x);
      assert false;
    }
  }

  /** What `stat` reports for a node. Directories report size 0. */
  function StatOf(n: Node): Stat {
    match n
    case File(perm, data, mtime) => Stat(S_IFREG | (perm & ChmodBits), |data|, mtime)
    case Dir(perm, mtime) => Stat(S_IFDIR | (perm & ChmodBits), 0, mtime)
    case Symlink(target, mtime) => Stat(S_IFLNK | 0x1FF, |target|, mtime)
  }

  /** The file-type field of the reported mode names the kind of node, and
      the permission field holds its permission bits. */
  lemma StatKind(n: Node)
    ensures n.File? <==> StatOf(n).mode & S_IFMT == S_IFREG
    ensures n.Dir? <==> StatOf(n).mode & S_IFMT == S_IFDIR
    ensures n.Symlink? <==> StatOf(n).mode & S_IFMT == S_IFLNK
    ensures !n.Symlink? ==> StatOf(n).mode & ChmodBits == n.perm & ChmodBits
  {
    match n
    case File(perm, _, _) => TypeAndPermission(S_IFREG, perm);
    case Dir(perm, _) => TypeAndPermission(S_IFDIR, perm);
    case Symlink(_, _) => TypeAndPermission(S_IFLNK, 0x1FF);
  }

  /** A type field and permission bits combined with `|` read back apart. */
  lemma TypeAndPermission(t: Mode, p: Mode)
    requires t & S_IFMT == t
    ensures (t | (p & ChmodBits)) & S_IFMT == t
    ensures (t | (p & ChmodBits)) & ChmodBits == p & ChmodBits
  {
  }

  // ---------------------------------------------------------------------
  // Following symbolic links

  /** Where a link stored at `k` points. */
  function LinkTarget(k: Key, target: string): Key {
    if |target| > 0 && target[0] == '/' then Resolve(target) else Walk(Parent(k), SplitPath(target))
  }

  /** Follows a symbolic link in the last component, as `stat`, `chdir`,
      `chmod` and `open` do; gives up with ELOOP after `hops` links. */
  function Follow(fs: Fs, k: Key, hops: nat): (r: Result<Key>)
    ensures r.Ok? ==> !(r.value in fs && fs[r.value].Symlink?)
    ensures !(k in fs && fs[k].Symlink?) ==> r == Ok(k)
    decreases hops
  {
    if k in fs && fs[k].Symlink? then
      if hops == 0 then Err(ELOOP) else Follow(fs, LinkTarget(k, fs[k].target), hops - 1)
    else Ok(k)
  }

  /** The existing node a path names once a final link is followed. */
  function Lookup(fs: Fs, path: string): (r: Result<Key>)
    ensures r.Ok? ==> r.value in fs && !fs[r.value].Symlink?
    ensures Resolve(path) in fs && !fs[Resolve(path)].Symlink? ==> r == Ok(Resolve(path))
    ensures Resolve(path) !in fs ==> r == Err(ENOENT)
  {
    match Follow(fs, Resolve(path), MaxSymlinkHops)
    case Err(e) => Err(e)
    case Ok(k) => if k in fs then Ok(k) else Err(ENOENT)
  }

  // ---------------------------------------------------------------------
  // System calls

  function Lstat(fs: Fs, path: string): (r: Result<Stat>)
    ensures r.Ok? <==> Resolve(path) in fs
    ensures r.Ok? ==> r.value == StatOf(fs[Resolve(path)])
  {
    var k := Resolve(path);
    if k in fs then Ok(StatOf(fs[k])) else Err(ENOENT)
  }

  function StatPath(fs: Fs, path: string): (r: Result<Stat>)
    ensures r.Ok? <==> Lookup(fs, path).Ok?
    ensures r.Ok? ==> r.value == StatOf(fs[Lookup(fs, path).value])
  {
    match Lookup(fs, path)
    case Err(e) => Err(e)
    case Ok(k) => Ok(StatOf(fs[k]))
  }

  /** `chdir` succeeds on a directory, following a final link. */
  function Chdir(fs: Fs, path: string): (r: Result<Key>)
    ensures r.Ok? <==> Lookup(fs, path).Ok? && fs[Lookup(fs, path).value].Dir?
  {
    match Lookup(fs, path)
    case Err(e) => Err(e)
    case Ok(k) => if fs[k].Dir? then Ok(k) else Err(ENOTDIR)
  }

  /** The parent of a path that is about to be created must be a directory. */
  function CheckParent(fs: Fs, k: Key): (r: Option<Errno>)
    ensures r.None? <==> |k| > 0 && Parent(k) in fs && fs[Parent(k)].Dir?
  {
    if |k| == 0 then Some(EEXIST)
    else if Parent(k) !in fs then Some(ENOENT)
    else if !fs[Parent(k)].Dir? then Some(ENOTDIR)
    else None
  }

  /** `mkdir(path, mode)` under the process umask. */
  function Mkdir(fs: Fs, path: string, mode: Mode, umask: Mode, now: int): (r: Result<Fs>)
    ensures r.Ok? <==> Resolve(path) !in fs && CheckParent(fs, Resolve(path)).None?
    ensures r.Ok? ==> r.value == fs[Resolve(path) := Dir(mode & !umask & 0x3FF, now)]
  {
    var k := Resolve(path);
    if k in fs then Err(EEXIST)
    else match CheckParent(fs, k)
      case Some(e) => Err(e)
      case None => Ok(fs[k := Dir(mode & !umask & 0x3FF, now)])
  }

  /** The last non-empty piece of a path text. */
  function LastPiece(path: string): string {
    var parts := SplitPath(path);
    LastNonEmpty(parts)
  }

  function LastNonEmpty(parts: seq<string>): string {
    if |parts| == 0 then ""
    else if parts[|parts| - 1] != "" then parts[|parts| - 1]
    else LastNonEmpty(parts[..|parts| - 1])
  }

  /** `rmdir`: refuses "." and "..", the root, non-directories and
      directories that still have entries. */
  function Rmdir(fs: Fs, path: string): (r: Result<Fs>)
    ensures r.Ok? <==>
      LastPiece(path) != "." && LastPiece(path) != ".." && |Resolve(path)| > 0 &&
      Resolve(path) in fs && fs[Resolve(path)].Dir? && Children(fs, Resolve(path)) == {}
    ensures r.Ok? ==> Resolve(path) in fs && fs[Resolve(path)].Dir? && |Resolve(path)| > 0
    ensures r.Ok? ==> Children(fs, Resolve(path)) == {} && r.value == fs - {Resolve(path)}
  {
    var k := Resolve(path);
    var last := LastPiece(path);
    if last == "." then Err(EINVAL)
    else if last == ".." then Err(ENOTEMPTY)
    else if |k| == 0 then Err(EBUSY)
    else if k !in fs then Err(ENOENT)
    else if !fs[k].Dir? then Err(ENOTDIR)
    else if Children(fs, k) != {} then Err(ENOTEMPTY)
    else Ok(fs - {k})
  }

  /** `unlink`: removes a name that is not a directory; links are not followed. */
  function Unlink(fs: Fs, path: string): (r: Result<Fs>)
    ensures r.Ok? <==> Resolve(path) in fs && !fs[Resolve(path)].Dir?
    ensures r.Ok? ==> r.value == fs - {Resolve(path)}
  {
    var k := Resolve(path);
    if k !in fs then Err(ENOENT)
    else if fs[k].Dir? then Err(EISDIR)
    else Ok(fs - {k})
  }

  /** `x` is `k` itself or lies below it. */
  predicate AtOrBelow(k: Key, x: Key) {
    |x| >= |k| && x[..|k|] == k
  }

  lemma RelocateInjective(from: Key, to: Key)
    ensures forall x: Key, y: Key {:trigger to + x[|from|..], to + y[|from|..]} ::
      AtOrBelow(from, x) && AtOrBelow(from, y) && to + x[|from|..] == to + y[|from|..] ==> x == y
  {
    forall x: Key, y: Key | AtOrBelow(from, x) && AtOrBelow(from, y) && to + x[|from|..] == to + y[|from|..]
      ensures x == y
    {
      assert x[|from|..] == (to + x[|from|..])[|to|..];
      assert y[|from|..] == (to + y[|from|..])[|to|..];
      assert x == x[..|from|] + x[|from|..];
      assert y == y[..|from|] + y[|from|..];
    }
  }

  /** The tree after the subtree at `from` is moved to `to`, replacing
      whatever was at `to`. */
  function Move(fs: Fs, from: Key, to: Key): Fs {
    Outside(fs, from, to) + Relocated(fs, from, to)
  }

  function Outside(fs: Fs, from: Key, to: Key): Fs {
    map x | x in fs && !AtOrBelow(from, x) && x != to :: fs[x]
  }

  /** The subtree at `from`, re-rooted at `to`. */
  function Relocated(fs: Fs, from: Key, to: Key): Fs {
    RelocateInjective(from, to);
    map x | x in fs && AtOrBelow(from, x) :: to + x[|from|..] := fs[x]
  }

  /** A relocated key lies at or below the destination. */
  lemma RelocatedBelow(from: Key, to: Key)
    ensures forall x: Key :: AtOrBelow(from, x) ==> AtOrBelow(to, to + x[|from|..])
  {
    forall x: Key | AtOrBelow(from, x) ensures AtOrBelow(to, to + x[|from|..]) {
      assert (to + x[|from|..])[..|to|] == to;
    }
  }

  lemma RelocatedFacts(fs: Fs, from: Key, to: Key)
    ensures forall x :: x in fs && AtOrBelow(from, x) ==>
      to + x[|from|..] in Relocated(fs, from, to) && Relocated(fs, from, to)[to + x[|from|..]] == fs[x]
    ensures forall y :: y in Relocated(fs, from, to) ==> AtOrBelow(to, y)
  {
    RelocateInjective(from, to);
    RelocatedBelow(from, to);
  }

  /** What a move does: the subtree reappears under `to`, everything outside
      both subtrees stays, and nothing else appears. */
  lemma MoveFacts(fs: Fs, from: Key, to: Key)
    ensures forall x :: x in fs && AtOrBelow(from, x) ==>
      to + x[|from|..] in Move(fs, from, to) && Move(fs, from, to)[to + x[|from|..]] == fs[x]
    ensures forall x :: x in fs && !AtOrBelow(from, x) && !AtOrBelow(to, x) ==>
      x in Move(fs, from, to) && Move(fs, from, to)[x] == fs[x]
    ensures forall y :: y in Move(fs, from, to) ==> AtOrBelow(to, y) || (y in fs && !AtOrBelow(from, y))
  {
    RelocatedFacts(fs, from, to);
  }

  lemma ParentAtOrBelow(k: Key, x: Key)
    requires |x| > 0
    ensures AtOrBelow(k, x[..|x| - 1]) ==> AtOrBelow(k, x)
  {
    if |x| - 1 >= |k| {
      assert x[..|k|] == x[..|x| - 1][..|k|];
    }
  }

  lemma AtOrBelowSplit(k: Key, x: Key)
    ensures AtOrBelow(k, x) <==> x == k || IsBelow(k, x)
  {
    if |x| == |k| {
      assert x[..|k|] == x;
    }
  }

  lemma BelowMeansDirectory(fs: Fs, k: Key, x: Key)
    requires WellFormed(fs) && x in fs
    ensures IsBelow(k, x) ==> k in fs && fs[k].Dir?
  {
    if IsBelow(k, x) {
      BelowHasChild(fs, k, x);
      var c := k + [x[|k|]];
      assert c[..|c| - 1] == k;
    }
  }

  /** `rename(from, to)` with the checks POSIX gives it: a directory moves
      onto an empty directory or a new name, never below itself; anything
      else moves onto a non-directory or a new name. */
  function Rename(fs: Fs, from: string, to: string): (r: Result<Fs>)
    ensures r.Ok? ==> Resolve(from) in fs && CheckParent(fs, Resolve(to)).None?
    ensures r.Ok? && Resolve(from) != Resolve(to) ==> r.value == Move(fs, Resolve(from), Resolve(to))
  {
    var ka := Resolve(from);
    var kb := Resolve(to);
    if ka !in fs then Err(ENOENT)
    else if |ka| == 0 then Err(EBUSY)
    else match CheckParent(fs, kb)
      case Some(e) => Err(e)
      case None =>
        if ka == kb then Ok(fs)
        else if fs[ka].Dir? && IsBelow(ka, kb) then Err(EINVAL)
        else if kb in fs && fs[ka].Dir? && !fs[kb].Dir? then Err(ENOTDIR)
        else if kb in fs && !fs[ka].Dir? && fs[kb].Dir? then Err(EISDIR)
        else if kb in fs && Children(fs, kb) != {} then Err(ENOTEMPTY)
        else Ok(Move(fs, ka, kb))
  }

  /** `link(from, to)`: a second name for a non-directory; a final link in
      `from` is not followed. The new name gets a copy of the node. */
  function Link(fs: Fs, from: string, to: string): (r: Result<Fs>)
    ensures r.Ok? <==>
      Resolve(from) in fs && !fs[Resolve(from)].Dir? && Resolve(to) !in fs &&
      CheckParent(fs, Resolve(to)).None?
    ensures r.Ok? ==> r.value == fs[Resolve(to) := fs[Resolve(from)]]
  {
    var ka := Resolve(from);
    var kb := Resolve(to);
    if ka !in fs then Err(ENOENT)
    else if fs[ka].Dir? then Err(EPERM)
    else if kb in fs then Err(EEXIST)
    else match CheckParent(fs, kb)
      case Some(e) => Err(e)
      case None => Ok(fs[kb := fs[ka]])
  }

  /** `symlink(target, to)`: the target text is stored as it is. */
  function MakeSymlink(fs: Fs, target: string, to: string, now: int): (r: Result<Fs>)
    ensures r.Ok? <==> Resolve(to) !in fs && CheckParent(fs, Resolve(to)).None?
    ensures r.Ok? ==> r.value == fs[Resolve(to) := Symlink(target, now)]
  {
    var kb := Resolve(to);
    if kb in fs then Err(EEXIST)
    else match CheckParent(fs, kb)
      case Some(e) => Err(e)
      case None => Ok(fs[kb := Symlink(target, now)])
  }

  function WithPerm(n: Node, perm: Mode): Node {
    match n
    case File(_, data, mtime) => File(perm, data, mtime)
    case Dir(_, mtime) => Dir(perm, mtime)
    case Symlink(_, _) => n
  }

  /** `chmod(path, mode)`: follows a final link and stores the low twelve bits. */
  function Chmod(fs: Fs, path: string, mode: Mode): (r: Result<Fs>)
    ensures r.Ok? <==> Lookup(fs, path).Ok?
    ensures r.Ok? ==> var k := Lookup(fs, path).value;
      r.value == fs[k := WithPerm(fs[k], mode & ChmodBits)]
  {
    match Lookup(fs, path)
    case Err(e) => Err(e)
    case Ok(k) => Ok(fs[k := WithPerm(fs[k], mode & ChmodBits)])
  }

  /** `fopen(path, "r")`: succeeds on any existing node once a final link is
      followed; reading a directory yields nothing. */
  function OpenRead(fs: Fs, path: string): (r: Result<Key>)
    ensures r == Lookup(fs, path)
  {
    Lookup(fs, path)
  }

  /** The bytes a read from node `k` yields. */
  function Contents(fs: Fs, k: Key): string {
    if k in fs && fs[k].File? then fs[k].data else ""
  }

  /** `fopen(path, "w")`: follows a final link, truncates an existing file
      or creates a new one with mode 0666 under the umask. */
  function OpenWrite(fs: Fs, path: string, umask: Mode, now: int): (r: Result<(Fs, Key)>)
    ensures r.Ok? ==> r.value.1 in r.value.0 && r.value.0[r.value.1].File? && r.value.0[r.value.1].data == ""
    ensures r.Ok? ==> r.value.0 == fs[r.value.1 := r.value.0[r.value.1]]
  {
    match Follow(fs, Resolve(path), MaxSymlinkHops)
    case Err(e) => Err(e)
    case Ok(k) =>
      if k in fs then
        match fs[k]
        case Dir(_, _) => Err(EISDIR)
        case File(perm, _, _) => Ok((fs[k := File(perm, "", now)], k))
        case Symlink(_, _) => Err(ELOOP)
      else match CheckParent(fs, k)
        case Some(e) => Err(e)
        case None => Ok((fs[k := File(0x1B6 & !umask, "", now)], k))
  }

  /** Writes `data` to the file at `k`, which an `OpenWrite` returned. */
  function WriteAll(fs: Fs, k: Key, data: string, now: int): (r: Fs)
    ensures k in fs && fs[k].File? ==> k in r && r[k].File? && r[k].data == data
    ensures forall x :: x in fs && x != k ==> x in r && r[x] == fs[x]
  {
    if k in fs && fs[k].File? then fs[k := File(fs[k].perm, data, now)] else fs
  }

  // ---------------------------------------------------------------------
  // Well-formedness is kept by every call

  /** Resolution only ever produces names. */
  lemma {:induction false} WalkAllNames(k: Key, parts: seq<string>)
    requires AllNames(k)
    requires forall i :: 0 <= i < |parts| ==> '/' !in parts[i]
    ensures AllNames(Walk(k, parts))
    decreases |parts|
  {
    if |parts| > 0 {
      var init := parts[..|parts| - 1];
      assert forall i :: 0 <= i < |init| ==> init[i] == parts[i];
      WalkAllNames(k, init);
      var w := Walk(k, init);
      var c := parts[|parts| - 1];
      if c != "" && c != "." && c == ".." && |w| > 0 {
        assert forall i :: 0 <= i < |w| - 1 ==> w[..|w| - 1][i] == w[i];
      }
    }
  }

  lemma ResolveAllNames(path: string)
    ensures AllNames(Resolve(path))
  {
    WalkAllNames([], SplitPath(path));
  }

  /** Adding a node whose parent is a directory keeps the tree well formed. */
  lemma AddKeepsWellFormed(fs: Fs, path: string, n: Node)
    requires WellFormed(fs) && CheckParent(fs, Resolve(path)).None? && Resolve(path) !in fs
    ensures WellFormed(fs[Resolve(path) := n])
  {
    ResolveAllNames(path);
    AddKeyKeepsWellFormed(fs, Resolve(path), n);
  }

  lemma AddKeyKeepsWellFormed(fs: Fs, k: Key, n: Node)
    requires WellFormed(fs) && CheckParent(fs, k).None? && k !in fs && AllNames(k)
    ensures WellFormed(fs[k := n])
  {
  }

  lemma MkdirKeepsWellFormed(fs: Fs, path: string, mode: Mode, umask: Mode, now: int)
    requires WellFormed(fs) && Mkdir(fs, path, mode, umask, now).Ok?
    ensures WellFormed(Mkdir(fs, path, mode, umask, now).value)
  {
    AddKeepsWellFormed(fs, path, Dir(mode & !umask & 0x3FF, now));
  }

  lemma LinkKeepsWellFormed(fs: Fs, from: string, to: string)
    requires WellFormed(fs) && Link(fs, from, to).Ok?
    ensures WellFormed(Link(fs, from, to).value)
  {
    AddKeepsWellFormed(fs, to, fs[Resolve(from)]);
  }

  lemma SymlinkKeepsWellFormed(fs: Fs, target: string, to: string, now: int)
    requires WellFormed(fs) && MakeSymlink(fs, target, to, now).Ok?
    ensures WellFormed(MakeSymlink(fs, target, to, now).value)
  {
    AddKeepsWellFormed(fs, to, Symlink(target, now));
  }

  /** Replacing a node by one of the same kind keeps the tree well formed. */
  lemma ReplaceKeepsWellFormed(fs: Fs, k: Key, n: Node)
    requires WellFormed(fs) && k in fs && (fs[k].Dir? <==> n.Dir?)
    ensures WellFormed(fs[k := n])
  {
  }

  lemma ChmodKeepsWellFormed(fs: Fs, path: string, mode: Mode)
    requires WellFormed(fs) && Chmod(fs, path, mode).Ok?
    ensures WellFormed(Chmod(fs, path, mode).value)
  {
    var k := Lookup(fs, path).value;
    ReplaceKeepsWellFormed(fs, k, WithPerm(fs[k], mode & ChmodBits));
  }

  lemma OpenWriteKeepsWellFormed(fs: Fs, path: string, umask: Mode, now: int)
    requires WellFormed(fs) && OpenWrite(fs, path, umask, now).Ok?
    ensures WellFormed(OpenWrite(fs, path, umask, now).value.0)
  {
    var k := Follow(fs, Resolve(path), MaxSymlinkHops).value;
    if k in fs {
      ReplaceKeepsWellFormed(fs, k, File(fs[k].perm, "", now));
    } else {
      ResolveAllNames(path);
      FollowAllNames(fs, Resolve(path), MaxSymlinkHops);
      AddKeyKeepsWellFormed(fs, k, File(0x1B6 & !umask, "", now));
    }
  }

  lemma {:induction false} FollowAllNames(fs: Fs, k: Key, hops: nat)
    requires AllNames(k) && Follow(fs, k, hops).Ok?
    ensures AllNames(Follow(fs, k, hops).value)
    decreases hops
  {
    if k in fs && fs[k].Symlink? {
      var t := fs[k].target;
      if |t| > 0 && t[0] == '/' {
        ResolveAllNames(t);
      } else {
        var p := Parent(k);
        assert forall i :: 0 <= i < |p| ==> p[i] == k[i];
        WalkAllNames(p, SplitPath(t));
      }
      FollowAllNames(fs, LinkTarget(k, t), hops - 1);
    }
  }

  lemma WriteAllKeepsWellFormed(fs: Fs, k: Key, data: string, now: int)
    requires WellFormed(fs)
    ensures WellFormed(WriteAll(fs, k, data, now))
  {
    if k in fs && fs[k].File? {
      ReplaceKeepsWellFormed(fs, k, File(fs[k].perm, data, now));
    }
  }

  lemma ChildOfParent(fs: Fs, x: Key)
    requires x in fs && |x| > 0
    ensures x[|x| - 1] in Children(fs, x[..|x| - 1])
  {
    assert x[..|x| - 1] == x[..|x| - 1][..|x| - 1];
  }

  lemma RemoveLeafKeepsWellFormed(fs: Fs, k: Key)
    requires WellFormed(fs) && k in fs && |k| > 0
    requires !fs[k].Dir? || Children(fs, k) == {}
    ensures WellFormed(fs - {k})
  {
    var r := fs - {k};
    forall x | x in r && |x| > 0
      ensures IsName(x[|x| - 1]) && x[..|x| - 1] in r && r[x[..|x| - 1]].Dir?
    {
      ChildOfParent(fs, x);
    }
  }

  lemma RmdirKeepsWellFormed(fs: Fs, path: string)
    requires WellFormed(fs) && Rmdir(fs, path).Ok?
    ensures WellFormed(Rmdir(fs, path).value)
  {
    RemoveLeafKeepsWellFormed(fs, Resolve(path));
  }

  lemma UnlinkKeepsWellFormed(fs: Fs, path: string)
    requires WellFormed(fs) && Unlink(fs, path).Ok?
    ensures WellFormed(Unlink(fs, path).value)
  {
    RemoveLeafKeepsWellFormed(fs, Resolve(path));
  }

  lemma RenameKeepsWellFormed(fs: Fs, from: string, to: string)
    requires WellFormed(fs) && Rename(fs, from, to).Ok?
    ensures WellFormed(Rename(fs, from, to).value)
  {
    var ka, kb := Resolve(from), Resolve(to);
    if ka != kb {
      ResolveAllNames(to);
      RenameTargetOutside(fs, from, to);
      RenameTargetEmpty(fs, from, to);
      MoveKeepsWellFormed(fs, ka, kb);
    }
  }

  /** A successful rename never moves a node below itself. */
  lemma RenameTargetOutside(fs: Fs, from: string, to: string)
    requires WellFormed(fs) && Rename(fs, from, to).Ok? && Resolve(from) != Resolve(to)
    ensures !AtOrBelow(Resolve(from), Resolve(to))
  {
    var ka, kb := Resolve(from), Resolve(to);
    var p := Parent(kb);
    AtOrBelowSplit(ka, kb);
    if IsBelow(ka, kb) && !fs[ka].Dir? {
      assert IsBelow(ka, p) || p == ka;
      BelowMeansDirectory(fs, ka, p);
    }
  }

  /** A successful rename's destination has nothing below it. */
  lemma RenameTargetEmpty(fs: Fs, from: string, to: string)
    requires WellFormed(fs) && Rename(fs, from, to).Ok? && Resolve(from) != Resolve(to)
    ensures forall x :: x in fs ==> !IsBelow(Resolve(to), x)
  {
    var kb := Resolve(to);
    if kb in fs {
      NoChildrenNothingBelow(fs, kb);
      assert Below(fs, kb) == {};
    }
    forall x | x in fs ensures !IsBelow(kb, x) {
      BelowMeansDirectory(fs, kb, x);
      if kb in fs {
        assert x !in Below(fs, kb);
      }
    }
  }

  /** Moving a subtree to a fresh or empty place under a directory keeps the
      tree well-formed. */
  lemma MoveKeepsWellFormed(fs: Fs, ka: Key, kb: Key)
    requires WellFormed(fs) && ka in fs && |ka| > 0 && |kb| > 0 && AllNames(kb)
    requires Parent(kb) in fs && fs[Parent(kb)].Dir?
    requires !AtOrBelow(ka, kb)
    requires forall x :: x in fs ==> !IsBelow(kb, x)
    ensures WellFormed(Move(fs, ka, kb))
  {
    var r := Move(fs, ka, kb);
    RelocatedFacts(fs, ka, kb);
    assert [] in Outside(fs, ka, kb);
    assert [] !in Relocated(fs, ka, kb);
    forall y | y in r && |y| > 0
      ensures IsName(y[|y| - 1]) && y[..|y| - 1] in r && r[y[..|y| - 1]].Dir?
    {
      MoveKeyWellFormed(fs, ka, kb, y);
    }
  }

  lemma MoveKeyWellFormed(fs: Fs, ka: Key, kb: Key, y: Key)
    requires WellFormed(fs) && ka in fs && |ka| > 0 && |kb| > 0 && AllNames(kb)
    requires Parent(kb) in fs && fs[Parent(kb)].Dir?
    requires !AtOrBelow(ka, kb)
    requires forall x :: x in fs ==> !IsBelow(kb, x)
    requires y in Move(fs, ka, kb) && |y| > 0
    ensures var r := Move(fs, ka, kb);
      IsName(y[|y| - 1]) && y[..|y| - 1] in r && r[y[..|y| - 1]].Dir?
  {
    RelocatedFacts(fs, ka, kb);
    if y in Relocated(fs, ka, kb) {
      var x :| x in fs && AtOrBelow(ka, x) && y == kb + x[|ka|..];
      if |x| == |ka| {
        MovedRoot(fs, ka, kb, x);
      } else {
        MovedBelow(fs, ka, kb, x);
      }
    } else {
      StayingKey(fs, ka, kb, y);
    }
  }

  /** The moved node itself lands under the destination's parent. */
  lemma MovedRoot(fs: Fs, ka: Key, kb: Key, x: Key)
    requires WellFormed(fs) && |ka| > 0 && |kb| > 0 && AllNames(kb)
    requires Parent(kb) in fs && fs[Parent(kb)].Dir?
    requires !AtOrBelow(ka, kb)
    requires x in fs && AtOrBelow(ka, x) && |x| == |ka|
    ensures var r := Move(fs, ka, kb); var y := kb + x[|ka|..];
      |y| > 0 && IsName(y[|y| - 1]) && y[..|y| - 1] in r && r[y[..|y| - 1]].Dir?
  {
    var y := kb + x[|ka|..];
    assert y == kb;
    var p := Parent(kb);
    ParentAtOrBelow(ka, kb);
    assert !AtOrBelow(ka, p);
    assert p in Outside(fs, ka, kb);
    RelocatedFacts(fs, ka, kb);
    assert p !in Relocated(fs, ka, kb);
  }

  /** A node moved with its parent keeps a directory as parent. */
  lemma MovedBelow(fs: Fs, ka: Key, kb: Key, x: Key)
    requires WellFormed(fs)
    requires x in fs && AtOrBelow(ka, x) && |x| > |ka|
    ensures var r := Move(fs, ka, kb); var y := kb + x[|ka|..];
      |y| > 0 && IsName(y[|y| - 1]) && y[..|y| - 1] in r && r[y[..|y| - 1]].Dir?
  {
    var y := kb + x[|ka|..];
    var px := x[..|x| - 1];
    MovedChildKey(ka, kb, x);
    var q := kb + px[|ka|..];
    RelocatedFacts(fs, ka, kb);
    assert q in Relocated(fs, ka, kb) && Relocated(fs, ka, kb)[q] == fs[px];
  }

  /** The key arithmetic of a move: the parent of a moved key is the moved
      parent, and the last name is kept. */
  lemma MovedChildKey(ka: Key, kb: Key, x: Key)
    requires AtOrBelow(ka, x) && |x| > |ka|
    ensures var y := kb + x[|ka|..]; var px := x[..|x| - 1];
      |y| > 0 && AtOrBelow(ka, px) && y[..|y| - 1] == kb + px[|ka|..] && y[|y| - 1] == x[|x| - 1]
  {
    var y := kb + x[|ka|..];
    var px := x[..|x| - 1];
    assert px[..|ka|] == x[..|ka|];
    assert x[|ka|..][..|x| - |ka| - 1] == px[|ka|..];
  }

  /** A node outside both subtrees keeps its parent. */
  lemma StayingKey(fs: Fs, ka: Key, kb: Key, y: Key)
    requires WellFormed(fs) && |ka| > 0
    requires forall x :: x in fs ==> !IsBelow(kb, x)
    requires y in Move(fs, ka, kb) && y !in Relocated(fs, ka, kb) && |y| > 0
    ensures var r := Move(fs, ka, kb);
      IsName(y[|y| - 1]) && y[..|y| - 1] in r && r[y[..|y| - 1]].Dir?
  {
    assert y in Outside(fs, ka, kb);
    var p := y[..|y| - 1];
    ParentAtOrBelow(ka, y);
    assert p != kb by {
      assert p == kb ==> IsBelow(kb, y);
    }
    assert p in Outside(fs, ka, kb);
    RelocatedFacts(fs, ka, kb);
    AtOrBelowSplit(kb, p);
    assert p !in Relocated(fs, ka, kb);
  }
}
