/** The `call_*` functions of the shell: each joins its path arguments to the
    working directory, refuses the whole command when any joined path fails
    the jail check, and otherwise makes its system calls, reporting a
    failure the way `perror` would and changing nothing else.

    Every command is modelled for two builds of the shell: the program as
    written, and the program with the corrections to the jail check, the
    mode parser, the `ls` comparators and the removal buffer applied. Every
    contract below holds for both. */
module Commands {
  import opened Base
  import Paths
  import FS = FileSystem
  import ModeParser
  import Listing
  import Removal

  /** `AsWritten` is the program as it stands. `Corrected` uses the
      separator-aware jail check (`Paths.WithinBaseDirStrict`), the parser
      that addresses every named class in its own triad
      (`ModeParser.ParseModeIntended`), comparators by sign and entry paths
      built in full. */
  datatype Build = AsWritten | Corrected

  /** What the commands take from the host besides the tree: `realpath`, the
      process umask, the clock, and the number of free file descriptors;
      and the build being modelled. */
  datatype Env = Env(realpath: Paths.Canonicalizer, umask: Mode, now: int, fds: nat, build: Build)

  /** `is_within_base_dir` dereferences the canonical base unchecked, so the
      jail root must canonicalise. */
  predicate ValidEnv(env: Env) {
    env.realpath(BaseDir).Some?
  }

  datatype Shell = Shell(fs: FS.Fs, cwd: string)

  /** A system call the command made, by name, with the paths it was given. */
  datatype Call = Call(name: string, paths: seq<string>)

  datatype Report = Done | Refused | Failed(errno: FS.Errno) | IsDirectory

  datatype Outcome = Outcome(shell: Shell, calls: seq<Call>, report: Report, output: seq<Listing.FileInfo>)

  datatype Command =
    | Cd(path: string)
    | Mkdir(path: string)
    | Rmdir(path: string)
    | Rename(source: string, target: string)
    | Ln(original: string, newLink: string, symbolic: bool)
    | Rm(path: string, recursive: bool)
    | Chmod(path: string, mode: string)
    | Cat(path: string)
    | Cp(source: string, target: string)
    | Ls(opts: Listing.LsOptions)

  /** The path arguments a command checks against the jail, in order. */
  function Arguments(cmd: Command): seq<string> {
    match cmd
    case Cd(p) => [p]
    case Mkdir(p) => [p]
    case Rmdir(p) => [p]
    case Rename(a, b) => [a, b]
    case Ln(a, b, _) => [a, b]
    case Rm(p, _) => [p]
    case Chmod(p, _) => [p]
    case Cat(p) => [p]
    case Cp(a, b) => [a, b]
    case Ls(_) => []
  }

  /** `is_within_base_dir` of the build. */
  function Allowed(env: Env, path: string): bool
    requires ValidEnv(env)
  {
    match env.build
    case AsWritten => Paths.WithinBaseDir(env.realpath, path)
    case Corrected => Paths.WithinBaseDirStrict(env.realpath, path)
  }

  /** `parse_mode_str` of the build. */
  function ParseModeOf(b: Build, s: string, current: Mode): Mode {
    match b
    case AsWritten => ModeParser.ParseMode(s, current)
    case Corrected => ModeParser.ParseModeIntended(s, current)
  }

  /** Every argument, joined to the working directory, passes the check. */
  predicate Admitted(env: Env, cwd: string, args: seq<string>)
    requires ValidEnv(env)
  {
    forall i :: 0 <= i < |args| ==> Allowed(env, Paths.AbsolutePath(cwd, args[i]))
  }

  function Refuse(sh: Shell): Outcome {
    Outcome(sh, [], Refused, [])
  }

  /** A failed call leaves the shell as it was. */
  function Fail(sh: Shell, calls: seq<Call>, e: FS.Errno): Outcome {
    Outcome(sh, calls, Failed(e), [])
  }

  function Succeed(fs: FS.Fs, cwd: string, calls: seq<Call>): Outcome {
    Outcome(Shell(fs, cwd), calls, Done, [])
  }

  // ---------------------------------------------------------------------
  // One function per command

  /** `call_cd`: the new working directory is the joined path when `chdir`
      accepts it, and the old one otherwise. */
  function RunCd(env: Env, sh: Shell, path: string): (o: Outcome)
    requires ValidEnv(env)
    ensures GuardedOne(env, sh, path, o)
    ensures o.shell.fs == sh.fs
    ensures o.report == Done <==>
      Allowed(env, Paths.AbsolutePath(sh.cwd, path)) && FS.Chdir(sh.fs, Paths.AbsolutePath(sh.cwd, path)).Ok?
    ensures o.shell.cwd == if o.report == Done then Paths.AbsolutePath(sh.cwd, path) else sh.cwd
  {
    var abs := Paths.AbsolutePath(sh.cwd, path);
    if !Allowed(env, abs) then Refuse(sh)
    else match FS.Chdir(sh.fs, abs)
      case Ok(_) => Succeed(sh.fs, abs, [Call("chdir", [abs])])
      case Err(e) => Fail(sh, [Call("chdir", [abs])], e)
  }

  /** `call_mkdir`: a new directory with mode 0777 under the umask. */
  function RunMkdir(env: Env, sh: Shell, path: string): (o: Outcome)
    requires ValidEnv(env)
    ensures GuardedOne(env, sh, path, o)
    ensures o.shell.cwd == sh.cwd
    ensures o.report == Done <==>
      Allowed(env, Paths.AbsolutePath(sh.cwd, path)) &&
      FS.Mkdir(sh.fs, Paths.AbsolutePath(sh.cwd, path), DefaultDirMode, env.umask, env.now).Ok?
    ensures o.report == Done ==>
      var k := FS.Resolve(Paths.AbsolutePath(sh.cwd, path));
      k !in sh.fs && o.shell.fs == sh.fs[k := FS.Dir(DefaultDirMode & !env.umask & 0x3FF, env.now)]
    ensures o.report != Done ==> o.shell.fs == sh.fs
  {
    var abs := Paths.AbsolutePath(sh.cwd, path);
    if !Allowed(env, abs) then Refuse(sh)
    else match FS.Mkdir(sh.fs, abs, DefaultDirMode, env.umask, env.now)
      case Ok(fs) => Succeed(fs, sh.cwd, [Call("mkdir", [abs])])
      case Err(e) => Fail(sh, [Call("mkdir", [abs])], e)
  }

  /** `call_rmdir`: only an empty directory goes. */
  function RunRmdir(env: Env, sh: Shell, path: string): (o: Outcome)
    requires ValidEnv(env)
    ensures GuardedOne(env, sh, path, o)
    ensures o.shell.cwd == sh.cwd
    ensures o.report == Done <==>
      Allowed(env, Paths.AbsolutePath(sh.cwd, path)) && FS.Rmdir(sh.fs, Paths.AbsolutePath(sh.cwd, path)).Ok?
    ensures o.report == Done ==>
      var k := FS.Resolve(Paths.AbsolutePath(sh.cwd, path));
      k in sh.fs && sh.fs[k].Dir? && FS.Children(sh.fs, k) == {} && o.shell.fs == sh.fs - {k}
    ensures o.report != Done ==> o.shell.fs == sh.fs
  {
    var abs := Paths.AbsolutePath(sh.cwd, path);
    if !Allowed(env, abs) then Refuse(sh)
    else match FS.Rmdir(sh.fs, abs)
      case Ok(fs) => Succeed(fs, sh.cwd, [Call("rmdir", [abs])])
      case Err(e) => Fail(sh, [Call("rmdir", [abs])], e)
  }

  /** `call_rename`: both endpoints are checked before anything happens. */
  function RunRename(env: Env, sh: Shell, source: string, target: string): (o: Outcome)
    requires ValidEnv(env)
    ensures GuardedPair(env, sh, source, target, o)
    ensures o.shell.cwd == sh.cwd
    ensures o.report == Done <==>
      Allowed(env, Paths.AbsolutePath(sh.cwd, source)) && Allowed(env, Paths.AbsolutePath(sh.cwd, target)) &&
      FS.Rename(sh.fs, Paths.AbsolutePath(sh.cwd, source), Paths.AbsolutePath(sh.cwd, target)).Ok?
    ensures o.report == Done ==>
      var r := FS.Rename(sh.fs, Paths.AbsolutePath(sh.cwd, source), Paths.AbsolutePath(sh.cwd, target));
      r.Ok? && o.shell.fs == r.value
    ensures o.report != Done ==> o.shell.fs == sh.fs
  {
    var a := Paths.AbsolutePath(sh.cwd, source);
    var b := Paths.AbsolutePath(sh.cwd, target);
    if !Allowed(env, a) || !Allowed(env, b) then Refuse(sh)
    else match FS.Rename(sh.fs, a, b)
      case Ok(fs) => Succeed(fs, sh.cwd, [Call("rename", [a, b])])
      case Err(e) => Fail(sh, [Call("rename", [a, b])], e)
  }

  /** `call_ln`: a symbolic link stores the joined original path as its
      target; a hard link gives the original a second name. */
  function RunLn(env: Env, sh: Shell, original: string, newLink: string, symbolic: bool): (o: Outcome)
    requires ValidEnv(env)
    ensures GuardedPair(env, sh, original, newLink, o)
    ensures o.shell.cwd == sh.cwd
    ensures o.report == Done <==>
      var a := Paths.AbsolutePath(sh.cwd, original);
      var b := Paths.AbsolutePath(sh.cwd, newLink);
      Allowed(env, a) && Allowed(env, b) &&
      if symbolic then FS.MakeSymlink(sh.fs, a, b, env.now).Ok? else FS.Link(sh.fs, a, b).Ok?
    ensures o.report == Done && symbolic ==>
      var a := Paths.AbsolutePath(sh.cwd, original);
      var k := FS.Resolve(Paths.AbsolutePath(sh.cwd, newLink));
      k !in sh.fs && o.shell.fs == sh.fs[k := FS.Symlink(a, env.now)]
    ensures o.report == Done && !symbolic ==>
      var ka := FS.Resolve(Paths.AbsolutePath(sh.cwd, original));
      var k := FS.Resolve(Paths.AbsolutePath(sh.cwd, newLink));
      ka in sh.fs && k !in sh.fs && o.shell.fs == sh.fs[k := sh.fs[ka]]
    ensures o.report != Done ==> o.shell.fs == sh.fs
  {
    var a := Paths.AbsolutePath(sh.cwd, original);
    var b := Paths.AbsolutePath(sh.cwd, newLink);
    if !Allowed(env, a) || !Allowed(env, b) then Refuse(sh)
    else if symbolic then
      match FS.MakeSymlink(sh.fs, a, b, env.now)
      case Ok(fs) => Succeed(fs, sh.cwd, [Call("symlink", [a, b])])
      case Err(e) => Fail(sh, [Call("symlink", [a, b])], e)
    else
      match FS.Link(sh.fs, a, b)
      case Ok(fs) => Succeed(fs, sh.cwd, [Call("link", [a, b])])
      case Err(e) => Fail(sh, [Call("link", [a, b])], e)
  }

  /** `call_rm`: `lstat` first; a directory needs -r and is then walked,
      anything else is unlinked. */
  ghost function RunRm(env: Env, sh: Shell, path: string, recursive: bool): (o: Outcome)
    requires ValidEnv(env)
    ensures GuardedOne(env, sh, path, o)
    ensures o.shell.cwd == sh.cwd
    ensures o.report == IsDirectory <==>
      Allowed(env, Paths.AbsolutePath(sh.cwd, path)) && !recursive &&
      FS.Resolve(Paths.AbsolutePath(sh.cwd, path)) in sh.fs &&
      sh.fs[FS.Resolve(Paths.AbsolutePath(sh.cwd, path))].Dir?
    ensures o.report == Done <==>
      var abs := Paths.AbsolutePath(sh.cwd, path);
      var k := FS.Resolve(abs);
      Allowed(env, abs) && k in sh.fs && (if sh.fs[k].Dir? then recursive else FS.Unlink(sh.fs, abs).Ok?)
    ensures o.report == Done ==>
      var k := FS.Resolve(Paths.AbsolutePath(sh.cwd, path));
      k in sh.fs && (!sh.fs[k].Dir? ==> o.shell.fs == sh.fs - {k})
    ensures o.report != Done ==> o.shell.fs == sh.fs
  {
    var abs := Paths.AbsolutePath(sh.cwd, path);
    if !Allowed(env, abs) then Refuse(sh)
    else match FS.Lstat(sh.fs, abs)
      case Err(e) => Fail(sh, [Call("lstat", [abs])], e)
      case Ok(st) =>
        if st.mode & S_IFMT == S_IFDIR then
          if !recursive then Outcome(sh, [Call("lstat", [abs])], IsDirectory, [])
          else Succeed(Removal.Tree(env.build == AsWritten, sh.fs, abs, env.fds), sh.cwd, [Call("lstat", [abs]), Call("remove_directory_recursive", [abs])])
        else match FS.Unlink(sh.fs, abs)
          case Ok(fs) => Succeed(fs, sh.cwd, [Call("lstat", [abs]), Call("unlink", [abs])])
          case Err(e) => Fail(sh, [Call("lstat", [abs]), Call("unlink", [abs])], e)
  }

  /** `call_chmod`: `stat` (following a final link), parse the mode against
      the current `st_mode`, then `chmod`. */
  function RunChmod(env: Env, sh: Shell, path: string, mode: string): (o: Outcome)
    requires ValidEnv(env)
    ensures GuardedOne(env, sh, path, o)
    ensures o.shell.cwd == sh.cwd
    ensures o.report == Done <==>
      Allowed(env, Paths.AbsolutePath(sh.cwd, path)) && FS.Lookup(sh.fs, Paths.AbsolutePath(sh.cwd, path)).Ok?
    ensures o.report == Done ==>
      var r := FS.Lookup(sh.fs, Paths.AbsolutePath(sh.cwd, path));
      r.Ok? &&
      var m := ParseModeOf(env.build, mode, FS.StatOf(sh.fs[r.value]).mode);
      o.shell.fs == sh.fs[r.value := FS.WithPerm(sh.fs[r.value], m & ChmodBits)]
    ensures o.report != Done ==> o.shell.fs == sh.fs
  {
    var abs := Paths.AbsolutePath(sh.cwd, path);
    if !Allowed(env, abs) then Refuse(sh)
    else match FS.StatPath(sh.fs, abs)
      case Err(e) => Fail(sh, [Call("stat", [abs])], e)
      case Ok(st) =>
        var m := ParseModeOf(env.build, mode, st.mode);
        match FS.Chmod(sh.fs, abs, m)
        case Ok(fs) => Succeed(fs, sh.cwd, [Call("stat", [abs]), Call("chmod", [abs])])
        case Err(e) => Fail(sh, [Call("stat", [abs]), Call("chmod", [abs])], e)
  }

  /** `call_cat`: opens the file for reading; the bytes themselves are not
      part of the outcome. */
  function RunCat(env: Env, sh: Shell, path: string): (o: Outcome)
    requires ValidEnv(env)
    ensures GuardedOne(env, sh, path, o)
    ensures o.shell == sh
    ensures o.report == Done <==>
      Allowed(env, Paths.AbsolutePath(sh.cwd, path)) && FS.OpenRead(sh.fs, Paths.AbsolutePath(sh.cwd, path)).Ok?
  {
    var abs := Paths.AbsolutePath(sh.cwd, path);
    if !Allowed(env, abs) then Refuse(sh)
    else match FS.OpenRead(sh.fs, abs)
      case Ok(_) => Succeed(sh.fs, sh.cwd, [Call("fopen", [abs])])
      case Err(e) => Fail(sh, [Call("fopen", [abs])], e)
  }

  /** `call_cp`: the source is opened first, then the target is opened for
      writing (truncating it), and only then is the source read. */
  function RunCp(env: Env, sh: Shell, source: string, target: string): (o: Outcome)
    requires ValidEnv(env)
    ensures GuardedPair(env, sh, source, target, o)
    ensures o.shell.cwd == sh.cwd
    ensures o.report == Done <==>
      var a := Paths.AbsolutePath(sh.cwd, source);
      var b := Paths.AbsolutePath(sh.cwd, target);
      Allowed(env, a) && Allowed(env, b) && FS.OpenRead(sh.fs, a).Ok? && FS.OpenWrite(sh.fs, b, env.umask, env.now).Ok?
    ensures o.report == Done ==>
      var rs := FS.OpenRead(sh.fs, Paths.AbsolutePath(sh.cwd, source));
      var rt := FS.OpenWrite(sh.fs, Paths.AbsolutePath(sh.cwd, target), env.umask, env.now);
      rs.Ok? && rt.Ok? && rt.value.1 in o.shell.fs && o.shell.fs[rt.value.1].File? &&
      o.shell.fs[rt.value.1].data == (if rs.value == rt.value.1 then "" else FS.Contents(sh.fs, rs.value))
    ensures o.report != Done ==> o.shell.fs == sh.fs
  {
    var a := Paths.AbsolutePath(sh.cwd, source);
    var b := Paths.AbsolutePath(sh.cwd, target);
    if !Allowed(env, a) || !Allowed(env, b) then Refuse(sh)
    else match FS.OpenRead(sh.fs, a)
      case Err(e) => Fail(sh, [Call("fopen", [a])], e)
      case Ok(ks) =>
        match FS.OpenWrite(sh.fs, b, env.umask, env.now)
        case Err(e) => Fail(sh, [Call("fopen", [a]), Call("fopen", [b])], e)
        case Ok(handle) =>
          var (truncated, kt) := handle;
          var fs := FS.WriteAll(truncated, kt, FS.Contents(truncated, ks), env.now);
          Succeed(fs, sh.cwd, [Call("fopen", [a]), Call("fopen", [b])])
  }

  /** The names `readdir` returns for a directory, "." and ".." included,
      in some fixed order. */
  ghost function DirectoryNames(fs: FS.Fs, k: FS.Key): (names: seq<string>)
    ensures forall n :: n in names <==> n in FS.Children(fs, k) || n == "." || n == ".."
  {
    SetToSeq(FS.Children(fs, k) + {".", ".."})
  }

  ghost function SetToSeq(s: set<string>): (r: seq<string>)
    ensures forall n :: n in r <==> n in s
    ensures |r| == |s|
    decreases |s|
  {
    if s == {} then [] else
      var n := Removal.Pick(s);
      [n] + SetToSeq(s - {n})
  }

  function LstatOption(fs: FS.Fs): string -> Option<Stat> {
    p => match FS.Lstat(fs, p) case Ok(st) => Some(st) case Err(_) => None
  }

  /** `call_ls` on the working directory, up to printing. */
  ghost function RunLs(env: Env, sh: Shell, opts: Listing.LsOptions): (o: Outcome)
    ensures o.shell == sh
  {
    match FS.Lookup(sh.fs, sh.cwd)
    case Err(e) => Fail(sh, [Call("opendir", [sh.cwd])], e)
    case Ok(k) =>
      if !sh.fs[k].Dir? then Fail(sh, [Call("opendir", [sh.cwd])], FS.ENOTDIR)
      else
        var entries := Listing.Ls(env.build == AsWritten, sh.cwd, DirectoryNames(sh.fs, k), LstatOption(sh.fs), opts);
        Outcome(sh, [Call("opendir", [sh.cwd])], Done, entries)
  }

  /** One command line, dispatched to its `call_*`. */
  ghost function Execute(env: Env, sh: Shell, cmd: Command): Outcome
    requires ValidEnv(env)
  {
    match cmd
    case Cd(p) => RunCd(env, sh, p)
    case Mkdir(p) => RunMkdir(env, sh, p)
    case Rmdir(p) => RunRmdir(env, sh, p)
    case Rename(a, b) => RunRename(env, sh, a, b)
    case Ln(a, b, s) => RunLn(env, sh, a, b, s)
    case Rm(p, r) => RunRm(env, sh, p, r)
    case Chmod(p, m) => RunChmod(env, sh, p, m)
    case Cat(p) => RunCat(env, sh, p)
    case Cp(a, b) => RunCp(env, sh, a, b)
    case Ls(opts) => RunLs(env, sh, opts)
  }

  // ---------------------------------------------------------------------
  // Properties of every command

  /** The jail gate for one command's outcome `o`: refused exactly when one
      of the joined path arguments fails the check; a refused command makes
      no system call and changes nothing, any other makes at least one. */
  predicate Gated(env: Env, sh: Shell, args: seq<string>, o: Outcome)
    requires ValidEnv(env)
  {
    && (o.report == Refused <==> !Admitted(env, sh.cwd, args))
    && (o.report == Refused ==> o.shell == sh && o.calls == [])
    && (o.report != Refused ==> |o.calls| > 0)
  }

  /** Every command passes through the gate. */
  lemma Gate(env: Env, sh: Shell, cmd: Command)
    requires ValidEnv(env)
    ensures Gated(env, sh, Arguments(cmd), Execute(env, sh, cmd))
  {
    match cmd
    case Cd(p) => GateOne(env, sh, p, RunCd(env, sh, p));
    case Mkdir(p) => GateOne(env, sh, p, RunMkdir(env, sh, p));
    case Rmdir(p) => GateOne(env, sh, p, RunRmdir(env, sh, p));
    case Rename(a, b) => GatePair(env, sh, a, b, RunRename(env, sh, a, b));
    case Ln(a, b, s) => GatePair(env, sh, a, b, RunLn(env, sh, a, b, s));
    case Rm(p, r) => GateOne(env, sh, p, RunRm(env, sh, p, r));
    case Chmod(p, m) => GateOne(env, sh, p, RunChmod(env, sh, p, m));
    case Cat(p) => GateOne(env, sh, p, RunCat(env, sh, p));
    case Cp(a, b) => GatePair(env, sh, a, b, RunCp(env, sh, a, b));
    case Ls(opts) =>
  }

  /** The shape every one-argument `call_*` shares: refuse before any call. */
  predicate GuardedOne(env: Env, sh: Shell, p: string, o: Outcome)
    requires ValidEnv(env)
  {
    && (Allowed(env, Paths.AbsolutePath(sh.cwd, p)) ==> o.report != Refused && |o.calls| > 0)
    && (!Allowed(env, Paths.AbsolutePath(sh.cwd, p)) ==> o == Refuse(sh))
  }

  predicate GuardedPair(env: Env, sh: Shell, a: string, b: string, o: Outcome)
    requires ValidEnv(env)
  {
    var ok := Allowed(env, Paths.AbsolutePath(sh.cwd, a)) && Allowed(env, Paths.AbsolutePath(sh.cwd, b));
    && (ok ==> o.report != Refused && |o.calls| > 0)
    && (!ok ==> o == Refuse(sh))
  }

  lemma GateOne(env: Env, sh: Shell, p: string, o: Outcome)
    requires ValidEnv(env) && GuardedOne(env, sh, p, o)
    ensures Gated(env, sh, [p], o)
  {
    AdmittedOne(env, sh.cwd, p);
  }

  lemma GatePair(env: Env, sh: Shell, a: string, b: string, o: Outcome)
    requires ValidEnv(env) && GuardedPair(env, sh, a, b, o)
    ensures Gated(env, sh, [a, b], o)
  {
    AdmittedPair(env, sh.cwd, a, b);
  }

  lemma AdmittedOne(env: Env, cwd: string, a: string)
    requires ValidEnv(env)
    ensures Admitted(env, cwd, [a]) <==> Allowed(env, Paths.AbsolutePath(cwd, a))
  {
    assert [a][0] == a;
  }

  lemma AdmittedPair(env: Env, cwd: string, a: string, b: string)
    requires ValidEnv(env)
    ensures Admitted(env, cwd, [a, b]) <==>
      Allowed(env, Paths.AbsolutePath(cwd, a)) && Allowed(env, Paths.AbsolutePath(cwd, b))
  {
    assert [a, b][0] == a && [a, b][1] == b;
  }

  /** Within one command, only `cd` changes the working directory, and only
      to a path the build's check accepted under the same `realpath`. */
  lemma CwdStaysAdmitted(env: Env, sh: Shell, cmd: Command)
    requires ValidEnv(env)
    ensures Execute(env, sh, cmd).shell.cwd == sh.cwd || Allowed(env, Execute(env, sh, cmd).shell.cwd)
    ensures Allowed(env, sh.cwd) ==> Allowed(env, Execute(env, sh, cmd).shell.cwd)
  {
  }

  /** `rm` without -r on a directory removes nothing and makes only the `lstat` call. */
  lemma RmDirectoryNeedsRecursive(env: Env, sh: Shell, path: string)
    requires ValidEnv(env)
    requires Allowed(env, Paths.AbsolutePath(sh.cwd, path))
    requires FS.Resolve(Paths.AbsolutePath(sh.cwd, path)) in sh.fs
    requires sh.fs[FS.Resolve(Paths.AbsolutePath(sh.cwd, path))].Dir?
    ensures RunRm(env, sh, path, false).report == IsDirectory
    ensures RunRm(env, sh, path, false).shell == sh
    ensures RunRm(env, sh, path, false).calls == [Call("lstat", [Paths.AbsolutePath(sh.cwd, path)])]
  {
    RmOfDirectory(env, sh, path, false);
  }

  /** `rm -r` on a directory removes it and everything below it and nothing
      else, given a descriptor for every level of the tree and, as written,
      room in the path buffer for every entry path. */
  lemma RmRecursiveErases(env: Env, sh: Shell, path: string)
    requires ValidEnv(env) && FS.WellFormed(sh.fs)
    requires Allowed(env, Paths.AbsolutePath(sh.cwd, path))
    requires var k := FS.Resolve(Paths.AbsolutePath(sh.cwd, path));
      k in sh.fs && sh.fs[k].Dir? && |k| > 0 && env.fds > 0 && Removal.DepthBelow(sh.fs, k, env.fds)
    requires FS.LastPiece(Paths.AbsolutePath(sh.cwd, path)) !in {".", ".."}
    requires env.build == AsWritten ==> Removal.PathsFit(sh.fs, Paths.AbsolutePath(sh.cwd, path))
    ensures RunRm(env, sh, path, true).report == Done
    ensures RunRm(env, sh, path, true).shell.fs ==
      Removal.Erase(sh.fs, FS.Resolve(Paths.AbsolutePath(sh.cwd, path)))
  {
    var abs := Paths.AbsolutePath(sh.cwd, path);
    assert Removal.Ready(sh.fs, FS.Resolve(abs), env.fds);
    assert FS.LastPiece(abs) != "." && FS.LastPiece(abs) != "..";
    Removal.TreeErases(env.build == AsWritten, sh.fs, abs, env.fds);
    RmOfDirectory(env, sh, path, true);
  }

  /** What `rm` does once `lstat` has found a directory. */
  lemma RmOfDirectory(env: Env, sh: Shell, path: string, recursive: bool)
    requires ValidEnv(env)
    requires Allowed(env, Paths.AbsolutePath(sh.cwd, path))
    requires var k := FS.Resolve(Paths.AbsolutePath(sh.cwd, path)); k in sh.fs && sh.fs[k].Dir?
    ensures var abs := Paths.AbsolutePath(sh.cwd, path);
      RunRm(env, sh, path, recursive) ==
        if recursive then
          Succeed(Removal.Tree(env.build == AsWritten, sh.fs, abs, env.fds), sh.cwd,
                  [Call("lstat", [abs]), Call("remove_directory_recursive", [abs])])
        else Outcome(sh, [Call("lstat", [abs])], IsDirectory, [])
  {
    var abs := Paths.AbsolutePath(sh.cwd, path);
    var st := FS.StatOf(sh.fs[FS.Resolve(abs)]);
    assert FS.Lstat(sh.fs, abs) == FS.Ok(st);
    FS.StatKind(sh.fs[FS.Resolve(abs)]);
  }

  /** As written, `cd` reaches a sibling of the jail whose name extends the
      root's: with `realpath` the identity, "/tmp/testing" passes the prefix
      test. The corrected build refuses it. */
  lemma CdToSibling(env: Env, sh: Shell, path: string)
    requires env.realpath == Paths.IdentityHost() && env.build == AsWritten
    requires Paths.AbsolutePath(sh.cwd, path) == "/tmp/testing"
    requires FS.Chdir(sh.fs, "/tmp/testing").Ok?
    ensures ValidEnv(env)
    ensures RunCd(env, sh, path).report == Done && RunCd(env, sh, path).shell.cwd == "/tmp/testing"
    ensures RunCd(env.(build := Corrected), sh, path).report == Refused
  {
    Paths.SiblingDirectoryAccepted();
  }

  /** As written, `rm -r` on a directory with entries whose path is 254 or
      255 characters long reports nothing and removes nothing. */
  lemma RmRecursiveRunaway(env: Env, sh: Shell, path: string)
    requires ValidEnv(env) && env.build == AsWritten
    requires Allowed(env, Paths.AbsolutePath(sh.cwd, path))
    requires MaxPathLen - 1 <= |Paths.AbsolutePath(sh.cwd, path)|
    requires var k := FS.Resolve(Paths.AbsolutePath(sh.cwd, path));
      k in sh.fs && sh.fs[k].Dir? && FS.Children(sh.fs, k) != {}
    ensures RunRm(env, sh, path, true).report == Done
    ensures RunRm(env, sh, path, true).shell == sh
  {
    var abs := Paths.AbsolutePath(sh.cwd, path);
    Removal.AsWrittenRunaway(sh.fs, abs, env.fds);
    RmOfDirectory(env, sh, path, true);
  }

  /** `chmod go-w` on a 0666 file: as written the file ends up 0646, since
      only the last class letter counts; the corrected build gives 0644. */
  lemma ChmodGoMinusW(env: Env, sh: Shell, path: string)
    requires ValidEnv(env) && Allowed(env, Paths.AbsolutePath(sh.cwd, path))
    requires var k := FS.Resolve(Paths.AbsolutePath(sh.cwd, path));
      k in sh.fs && sh.fs[k].File? && sh.fs[k].perm == 0x1B6
    ensures RunChmod(env, sh, path, "go-w").report == Done
    ensures var k := FS.Resolve(Paths.AbsolutePath(sh.cwd, path));
      var after := RunChmod(env, sh, path, "go-w").shell.fs;
      k in after && after[k].perm == if env.build == AsWritten then 0x1A6 else 0x1A4
  {
    var abs := Paths.AbsolutePath(sh.cwd, path);
    var k := FS.Resolve(abs);
    assert FS.Lookup(sh.fs, abs) == FS.Ok(k);
    assert FS.StatOf(sh.fs[k]).mode == S_IFREG | 0x1B6;
    ModeParser.GoMinusWOnRegularFile();
  }

  /** `cp` of a file onto itself empties it: the target is truncated before
      the source is read. */
  lemma CpOntoItselfEmpties(env: Env, sh: Shell, path: string)
    requires ValidEnv(env)
    requires Allowed(env, Paths.AbsolutePath(sh.cwd, path))
    requires var k := FS.Resolve(Paths.AbsolutePath(sh.cwd, path)); k in sh.fs && sh.fs[k].File?
    ensures RunCp(env, sh, path, path).report == Done
    ensures var k := FS.Resolve(Paths.AbsolutePath(sh.cwd, path));
      RunCp(env, sh, path, path).shell.fs == sh.fs[k := FS.File(sh.fs[k].perm, "", env.now)]
  {
  }

  /** `cp` onto a different file leaves the target holding the source's bytes. */
  lemma CpCopies(env: Env, sh: Shell, source: string, target: string)
    requires ValidEnv(env)
    requires Allowed(env, Paths.AbsolutePath(sh.cwd, source)) && Allowed(env, Paths.AbsolutePath(sh.cwd, target))
    requires var ks := FS.Resolve(Paths.AbsolutePath(sh.cwd, source));
      var kt := FS.Resolve(Paths.AbsolutePath(sh.cwd, target));
      ks in sh.fs && sh.fs[ks].File? && kt in sh.fs && sh.fs[kt].File? && ks != kt
    ensures RunCp(env, sh, source, target).report == Done
    ensures var ks := FS.Resolve(Paths.AbsolutePath(sh.cwd, source));
      var kt := FS.Resolve(Paths.AbsolutePath(sh.cwd, target));
      kt in RunCp(env, sh, source, target).shell.fs &&
      RunCp(env, sh, source, target).shell.fs[kt].data == sh.fs[ks].data
  {
  }

  // ---------------------------------------------------------------------
  // Every command keeps the tree well formed

  /** No command leaves a node whose parent directory is missing: the tree
      stays well formed whatever is typed. */
  lemma ExecuteKeepsWellFormed(env: Env, sh: Shell, cmd: Command)
    requires ValidEnv(env) && FS.WellFormed(sh.fs)
    ensures FS.WellFormed(Execute(env, sh, cmd).shell.fs)
  {
    match cmd
    case Mkdir(p) => MkdirKeepsWellFormed(env, sh, p);
    case Rmdir(p) => RmdirKeepsWellFormed(env, sh, p);
    case Rename(a, b) => RenameKeepsWellFormed(env, sh, a, b);
    case Ln(a, b, s) => LnKeepsWellFormed(env, sh, a, b, s);
    case Rm(p, r) => RmKeepsWellFormed(env, sh, p, r);
    case Chmod(p, m) => ChmodKeepsWellFormed(env, sh, p, m);
    case Cp(a, b) => CpKeepsWellFormed(env, sh, a, b);
    case _ =>
  }

  lemma MkdirKeepsWellFormed(env: Env, sh: Shell, path: string)
    requires ValidEnv(env) && FS.WellFormed(sh.fs)
    ensures FS.WellFormed(RunMkdir(env, sh, path).shell.fs)
  {
    var abs := Paths.AbsolutePath(sh.cwd, path);
    if Allowed(env, abs) && FS.Mkdir(sh.fs, abs, DefaultDirMode, env.umask, env.now).Ok? {
      FS.MkdirKeepsWellFormed(sh.fs, abs, DefaultDirMode, env.umask, env.now);
    }
  }

  lemma RmdirKeepsWellFormed(env: Env, sh: Shell, path: string)
    requires ValidEnv(env) && FS.WellFormed(sh.fs)
    ensures FS.WellFormed(RunRmdir(env, sh, path).shell.fs)
  {
    var abs := Paths.AbsolutePath(sh.cwd, path);
    if Allowed(env, abs) && FS.Rmdir(sh.fs, abs).Ok? {
      FS.RmdirKeepsWellFormed(sh.fs, abs);
    }
  }

  lemma RenameKeepsWellFormed(env: Env, sh: Shell, source: string, target: string)
    requires ValidEnv(env) && FS.WellFormed(sh.fs)
    ensures FS.WellFormed(RunRename(env, sh, source, target).shell.fs)
  {
    var a := Paths.AbsolutePath(sh.cwd, source);
    var b := Paths.AbsolutePath(sh.cwd, target);
    if Allowed(env, a) && Allowed(env, b) && FS.Rename(sh.fs, a, b).Ok? {
      FS.RenameKeepsWellFormed(sh.fs, a, b);
    }
  }

  lemma LnKeepsWellFormed(env: Env, sh: Shell, original: string, newLink: string, symbolic: bool)
    requires ValidEnv(env) && FS.WellFormed(sh.fs)
    ensures FS.WellFormed(RunLn(env, sh, original, newLink, symbolic).shell.fs)
  {
    var a := Paths.AbsolutePath(sh.cwd, original);
    var b := Paths.AbsolutePath(sh.cwd, newLink);
    if Allowed(env, a) && Allowed(env, b) {
      if symbolic && FS.MakeSymlink(sh.fs, a, b, env.now).Ok? {
        FS.SymlinkKeepsWellFormed(sh.fs, a, b, env.now);
      } else if !symbolic && FS.Link(sh.fs, a, b).Ok? {
        FS.LinkKeepsWellFormed(sh.fs, a, b);
      }
    }
  }

  lemma RmKeepsWellFormed(env: Env, sh: Shell, path: string, recursive: bool)
    requires ValidEnv(env) && FS.WellFormed(sh.fs)
    ensures FS.WellFormed(RunRm(env, sh, path, recursive).shell.fs)
  {
    var abs := Paths.AbsolutePath(sh.cwd, path);
    if Allowed(env, abs) && FS.Lstat(sh.fs, abs).Ok? {
      if FS.Lstat(sh.fs, abs).value.mode & S_IFMT == S_IFDIR {
        Removal.TreeKeepsWellFormed(env.build == AsWritten, sh.fs, abs, env.fds);
      } else if FS.Unlink(sh.fs, abs).Ok? {
        FS.UnlinkKeepsWellFormed(sh.fs, abs);
      }
    }
  }

  lemma ChmodKeepsWellFormed(env: Env, sh: Shell, path: string, mode: string)
    requires ValidEnv(env) && FS.WellFormed(sh.fs)
    ensures FS.WellFormed(RunChmod(env, sh, path, mode).shell.fs)
  {
    var abs := Paths.AbsolutePath(sh.cwd, path);
    if Allowed(env, abs) && FS.StatPath(sh.fs, abs).Ok? {
      var m := ParseModeOf(env.build, mode, FS.StatPath(sh.fs, abs).value.mode);
      if FS.Chmod(sh.fs, abs, m).Ok? {
        FS.ChmodKeepsWellFormed(sh.fs, abs, m);
      }
    }
  }

  lemma CpKeepsWellFormed(env: Env, sh: Shell, source: string, target: string)
    requires ValidEnv(env) && FS.WellFormed(sh.fs)
    ensures FS.WellFormed(RunCp(env, sh, source, target).shell.fs)
  {
    var a := Paths.AbsolutePath(sh.cwd, source);
    var b := Paths.AbsolutePath(sh.cwd, target);
    if Allowed(env, a) && Allowed(env, b) && FS.OpenRead(sh.fs, a).Ok? {
      var ks := FS.OpenRead(sh.fs, a).value;
      var w := FS.OpenWrite(sh.fs, b, env.umask, env.now);
      if w.Ok? {
        var (truncated, kt) := w.value;
        FS.OpenWriteKeepsWellFormed(sh.fs, b, env.umask, env.now);
        FS.WriteAllKeepsWellFormed(truncated, kt, FS.Contents(truncated, ks), env.now);
      }
    }
  }
}
