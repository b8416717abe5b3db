/** The pieces of `call_ps` and `call_kill` that are decisions rather than
    reads of `/proc`: the option words, which directory entries are process
    ids, how a command line is shown, and what `kill` is asked to send. */
module Process {
  import opened Base
  import Numbers

  const SIGTERM: int := 15
  const NUL: char := '\0'

  // ---------------------------------------------------------------------
  // Option words

  /** Length of the word at the start of `s`: everything up to the first
      space. */
  function WordLength(s: string): (n: nat)
    ensures n <= |s|
    ensures forall i :: 0 <= i < n ==> s[i] != ' '
    ensures n < |s| ==> s[n] == ' '
  {
    if s == [] || s[0] == ' ' then 0 else 1 + WordLength(s[1..])
  }

  /** The words `strtok(_, " ")` returns, in order: runs of spaces separate
      words and never produce empty ones. */
  function Tokens(s: string): (ts: seq<string>)
    ensures forall i :: 0 <= i < |ts| ==> IsWord(ts[i])
    decreases |s|
  {
    if s == [] then []
    else if s[0] == ' ' then Tokens(s[1..])
    else
      var n := WordLength(s);
      [s[..n]] + Tokens(s[n..])
  }

  predicate IsWord(w: string) {
    |w| > 0 && ' ' !in w
  }

  /** Words written out with one space between each pair. */
  function JoinWords(ws: seq<string>): string {
    if |ws| == 0 then ""
    else if |ws| == 1 then ws[0]
    else ws[0] + " " + JoinWords(ws[1..])
  }

  /** Splitting words that were joined with single spaces gives them back. */
  lemma {:induction false} TokensOfJoin(ws: seq<string>)
    requires forall i :: 0 <= i < |ws| ==> IsWord(ws[i])
    ensures Tokens(JoinWords(ws)) == ws
  {
    if |ws| == 0 {
    } else if |ws| == 1 {
      WordThenSpace(ws[0], "");
      assert ws[0] + "" == ws[0];
    } else {
      var rest := " " + JoinWords(ws[1..]);
      assert JoinWords(ws) == ws[0] + rest;
      WordThenSpace(ws[0], rest);
      assert rest[1..] == JoinWords(ws[1..]);
      TokensOfJoin(ws[1..]);
      assert Tokens(rest) == Tokens(JoinWords(ws[1..]));
    }
  }

  /** A word followed by nothing or by a space is the first token. */
  lemma WordThenSpace(w: string, rest: string)
    requires IsWord(w)
    requires rest == [] || rest[0] == ' '
    ensures Tokens(w + rest) == [w] + Tokens(rest)
  {
    var s := w + rest;
    WordLengthOf(w, rest);
    assert s[..|w|] == w && s[|w|..] == rest;
  }

  lemma {:induction false} WordLengthOf(w: string, rest: string)
    requires ' ' !in w
    requires rest == [] || rest[0] == ' '
    ensures WordLength(w + rest) == |w|
  {
    if w != [] {
      assert (w + rest)[1..] == w[1..] + rest;
      WordLengthOf(w[1..], rest);
    }
  }

  /** Every character of `s` other than a space, in order. */
  function NonSpaces(s: string): string {
    if s == [] then []
    else if s[0] == ' ' then NonSpaces(s[1..])
    else [s[0]] + NonSpaces(s[1..])
  }

  function Concat(ws: seq<string>): string {
    if ws == [] then [] else ws[0] + Concat(ws[1..])
  }

  /** The tokens hold every non-space character and nothing else: no
      character is lost or invented by the splitting. */
  lemma {:induction false} TokensKeepCharacters(s: string)
    ensures Concat(Tokens(s)) == NonSpaces(s)
    decreases |s|
  {
    if s == [] {
    } else if s[0] == ' ' {
      TokensKeepCharacters(s[1..]);
    } else {
      var n := WordLength(s);
      TokensKeepCharacters(s[n..]);
      WordNonSpaces(s, n);
      assert Tokens(s) == [s[..n]] + Tokens(s[n..]);
      assert Concat(Tokens(s)) == s[..n] + Concat(Tokens(s[n..]));
    }
  }

  /** The non-space characters of a word followed by the rest. */
  lemma {:induction false} WordNonSpaces(s: string, n: nat)
    requires n <= |s|
    requires forall i :: 0 <= i < n ==> s[i] != ' '
    ensures NonSpaces(s) == s[..n] + NonSpaces(s[n..])
  {
    if n > 0 {
      WordNonSpaces(s[1..], n - 1);
      assert s[1..][..n - 1] == s[1..n];
      assert s[1..][n - 1..] == s[n..];
      assert s[..n] == [s[0]] + s[1..n];
    }
  }

  // ---------------------------------------------------------------------
  // ps options

  datatype PsOptions = PsOptions(longFormat: bool, showAll: bool)

  /** `call_ps` option parsing: a word exactly "-a" turns on every user's
      processes, a word exactly "-l" the long format; other words are
      ignored, and no argument leaves both off. */
  function ParsePsOptions(options: Option<string>): (o: PsOptions)
    ensures options.None? ==> o == PsOptions(false, false)
    ensures options.Some? ==> (o.showAll <==> "-a" in Tokens(options.value))
    ensures options.Some? ==> (o.longFormat <==> "-l" in Tokens(options.value))
  {
    match options
    case None => PsOptions(false, false)
    case Some(s) => ScanOptions(Tokens(s), PsOptions(false, false))
  }

  /** The token loop: each word can only switch an option on. */
  function ScanOptions(ts: seq<string>, acc: PsOptions): (o: PsOptions)
    ensures o.showAll <==> acc.showAll || "-a" in ts
    ensures o.longFormat <==> acc.longFormat || "-l" in ts
  {
    if ts == [] then acc
    else
      var next :=
        if ts[0] == "-a" then acc.(showAll := true)
        else if ts[0] == "-l" then acc.(longFormat := true)
        else acc;
      assert ts == [ts[0]] + ts[1..];
      ScanOptions(ts[1..], next)
  }

  /** Letters are not combined: "-al" is one unknown word. */
  lemma CombinedFlagsIgnored()
    ensures ParsePsOptions(Some("-al")) == PsOptions(false, false)
  {
    TokensOfJoin(["-al"]);
    assert JoinWords(["-al"]) == "-al";
    assert Tokens("-al") == ["-al"];
  }

  lemma SeparateFlags()
    ensures ParsePsOptions(Some("-l -a")) == PsOptions(true, true)
  {
    TokensOfJoin(["-l", "-a"]);
    assert JoinWords(["-l", "-a"]) == "-l -a";
    assert Tokens("-l -a") == ["-l", "-a"];
  }

  // ---------------------------------------------------------------------
  // Which /proc entries are processes

  /** An entry of `/proc` is listed when its name starts with a digit and
      `atoi` of it is not 0. */
  predicate IsPidEntry(name: string) {
    |name| > 0 && Numbers.IsDigit(name[0]) && Numbers.Atoi(name) != 0
  }

  /** Every process directory is listed under its own id. */
  lemma PidEntryOfPid(pid: nat)
    requires 0 < pid < 0x8000_0000
    ensures IsPidEntry(Numbers.DecimalString(pid))
    ensures Numbers.Atoi(Numbers.DecimalString(pid)) == pid
  {
    Numbers.AtoiRoundTrip(pid);
    assert Numbers.DecimalText(pid) == Numbers.DecimalString(pid);
    var ds := Numbers.DecimalString(pid);
    assert Numbers.IsDigit(ds[0]);
  }

  /** Names that are not process ids are skipped, "0" included. */
  lemma NonPidEntries()
    ensures !IsPidEntry("self") && !IsPidEntry(".") && !IsPidEntry("")
    ensures !IsPidEntry("0")
  {
    Numbers.AtoiRoundTrip(0);
    assert Numbers.DecimalText(0) == "0";
  }

  // ---------------------------------------------------------------------
  // The command line shown for a process

  function SpaceForNul(c: char): char {
    if c == NUL then ' ' else c
  }

  /** What the CMD column shows. At most 127 bytes of `/proc/<pid>/cmdline`
      are read; when any were read each NUL among them becomes a space,
      otherwise (no file, or an empty one) the short name from
      `/proc/<pid>/stat` is shown, cut to 127 characters. */
  function CommandLine(contents: Option<string>, comm: string): (line: string)
    requires NUL !in comm
    ensures |line| < MaxCmdSize && NUL !in line
    ensures match contents
      case Some(bytes) =>
        if |bytes| > 0 then
          |line| == Min(|bytes|, MaxCmdSize - 1) &&
          forall i :: 0 <= i < |line| ==> line[i] == SpaceForNul(bytes[i])
        else line == Truncate(comm, MaxCmdSize - 1)
      case None => line == Truncate(comm, MaxCmdSize - 1)
  {
    match contents
    case Some(bytes) =>
      if |bytes| > 0 then SpacesForNuls(bytes[..Min(|bytes|, MaxCmdSize - 1)])
      else Truncate(comm, MaxCmdSize - 1)
    case None => Truncate(comm, MaxCmdSize - 1)
  }

  function SpacesForNuls(s: string): (r: string)
    ensures |r| == |s| && NUL !in r
    ensures forall i :: 0 <= i < |s| ==> r[i] == SpaceForNul(s[i])
  {
    if s == [] then [] else [SpaceForNul(s[0])] + SpacesForNuls(s[1..])
  }

  /** The buffer loop itself: a zeroed 128-byte buffer, `fread` of at most
      127 bytes, the NUL-to-space pass over what was read, the fallback
      when the first byte is still NUL, and `%s` stopping at the first NUL. */
  method RenderCommandLine(contents: Option<string>, comm: string) returns (line: string)
    requires NUL !in comm
    ensures line == CommandLine(contents, comm)
  {
    var buffer := seq(MaxCmdSize, _ => NUL);
    var n := 0;
    if contents.Some? {
      n := Min(|contents.value|, MaxCmdSize - 1);
      buffer := contents.value[..n] + buffer[n..];
      if n > 0 {
        var i := 0;
        while i < n
          invariant 0 <= i <= n && |buffer| == MaxCmdSize
          invariant forall j :: 0 <= j < i ==> buffer[j] == SpaceForNul(contents.value[j])
          invariant forall j :: i <= j < n ==> buffer[j] == contents.value[j]
          invariant forall j :: n <= j < MaxCmdSize ==> buffer[j] == NUL
        {
          if buffer[i] == NUL {
            buffer := buffer[i := ' '];
          }
          i := i + 1;
        }
      }
    }
    if buffer[0] == NUL {
      var m := Min(|comm|, MaxCmdSize - 1);
      buffer := comm[..m] + buffer[m..];
      n := m;
    }
    line := buffer[..n];
    assert contents.Some? && |contents.value| > 0 ==>
      line == SpacesForNuls(contents.value[..Min(|contents.value|, MaxCmdSize - 1)]);
  }

  /** The argument vector as the kernel stores it: each argument followed by
      a NUL. */
  function ArgvBytes(args: seq<string>): string {
    if args == [] then [] else args[0] + [NUL] + ArgvBytes(args[1..])
  }

  /** Each argument followed by a space. */
  function ArgvLine(args: seq<string>): string {
    if args == [] then [] else args[0] + " " + ArgvLine(args[1..])
  }

  /** A short enough argument vector is shown as its arguments separated by
      spaces, with one trailing space. */
  lemma ArgvShown(args: seq<string>, comm: string)
    requires NUL !in comm
    requires forall i :: 0 <= i < |args| ==> NUL !in args[i]
    requires 0 < |ArgvBytes(args)| < MaxCmdSize
    ensures CommandLine(Some(ArgvBytes(args)), comm) == ArgvLine(args)
  {
    assert ArgvBytes(args)[..|ArgvBytes(args)|] == ArgvBytes(args);
    ArgvSpaces(args);
  }

  lemma {:induction false} ArgvSpaces(args: seq<string>)
    requires forall i :: 0 <= i < |args| ==> NUL !in args[i]
    ensures SpacesForNuls(ArgvBytes(args)) == ArgvLine(args)
  {
    if args != [] {
      ArgvSpaces(args[1..]);
      SpacesForNulsAppend(args[0] + [NUL], ArgvBytes(args[1..]));
      SpacesForNulsAppend(args[0], [NUL]);
      NoNulUnchanged(args[0]);
    }
  }

  lemma SpacesForNulsAppend(a: string, b: string)
    ensures SpacesForNuls(a + b) == SpacesForNuls(a) + SpacesForNuls(b)
  {
    var l, r := SpacesForNuls(a + b), SpacesForNuls(a) + SpacesForNuls(b);
    assert |l| == |r|;
    forall i | 0 <= i < |l| ensures l[i] == r[i] {
      if i < |a| { assert (a + b)[i] == a[i]; } else { assert (a + b)[i] == b[i - |a|]; }
    }
  }

  lemma NoNulUnchanged(s: string)
    requires NUL !in s
    ensures SpacesForNuls(s) == s
  {
    var r := SpacesForNuls(s);
    forall i | 0 <= i < |s| ensures r[i] == s[i] {
      assert s[i] != NUL;
    }
  }

  // ---------------------------------------------------------------------
  // kill

  datatype KillRequest = KillRequest(pid: int, signal: int)

  /** `call_kill`: the pid and the signal go through `atoi`; without a
      signal argument the signal is SIGTERM. */
  function Kill(pidArg: string, sigArg: Option<string>): (k: KillRequest)
    ensures -0x8000_0000 <= k.pid < 0x8000_0000
    ensures sigArg.None? ==> k.signal == SIGTERM
  {
    KillRequest(Numbers.Atoi(pidArg), if sigArg.Some? then Numbers.Atoi(sigArg.value) else SIGTERM)
  }

  /** Numbers written in decimal reach `kill` unchanged. */
  lemma KillNumbers(pid: int, sig: int)
    requires -0x8000_0000 <= pid < 0x8000_0000 && -0x8000_0000 <= sig < 0x8000_0000
    ensures Kill(Numbers.DecimalText(pid), Some(Numbers.DecimalText(sig))) == KillRequest(pid, sig)
    ensures Kill(Numbers.DecimalText(pid), None) == KillRequest(pid, SIGTERM)
  {
    Numbers.AtoiRoundTrip(pid);
    Numbers.AtoiRoundTrip(sig);
  }

  /** A signal given by name is read as 0, which only probes the process,
      and a pid that is not a number is read as 0, the caller's process
      group. */
  lemma KillNames(pidArg: string, sigArg: string)
    requires Numbers.NoDigits(pidArg) && Numbers.NoDigits(sigArg)
    ensures Kill(pidArg, Some(sigArg)) == KillRequest(0, 0)
  {
    Numbers.AtoiNoDigits(pidArg);
    Numbers.AtoiNoDigits(sigArg);
  }
}
