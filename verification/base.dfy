/** Shared vocabulary of the confined shell: optional values, the `mode_t`
    bit-vector, the compile-time configuration and a few facts about strings
    viewed as C character arrays. */
module Base {

  datatype Option<+T> = None | Some(value: T)

  /** `mode_t` on Linux is a 32-bit unsigned integer. */
  type Mode = bv32

  /** Size of every path buffer, terminating NUL included. */
  const MaxPathSize: nat := 256
  /** Longest path text a `MaxPathSize` buffer can hold. */
  const MaxPathLen: nat := MaxPathSize - 1
  /** Size of the `/proc` command-line buffer, terminating NUL included. */
  const MaxCmdSize: nat := 128
  /** The jail root every confined command is checked against. */
  const BaseDir: string := "/tmp/test"
  /** 0777: the mode `mkdir` is asked for. */
  const DefaultDirMode: Mode := 0x1FF

  // File-type field of `st_mode` (octal values of <sys/stat.h> in hex).
  const S_IFMT: Mode := 0xF000    // 0170000
  const S_IFSOCK: Mode := 0xC000  // 0140000
  const S_IFLNK: Mode := 0xA000   // 0120000
  const S_IFREG: Mode := 0x8000   // 0100000
  const S_IFBLK: Mode := 0x6000   // 0060000
  const S_IFDIR: Mode := 0x4000   // 0040000
  const S_IFCHR: Mode := 0x2000   // 0020000
  const S_IFIFO: Mode := 0x1000   // 0010000

  // Permission bits.
  const S_IRWXU: Mode := 0x1C0    // 0700
  const S_IRUSR: Mode := 0x100    // 0400
  const S_IWUSR: Mode := 0x80     // 0200
  const S_IXUSR: Mode := 0x40     // 0100
  const S_IRWXG: Mode := 0x38     // 0070
  const S_IRGRP: Mode := 0x20     // 0040
  const S_IWGRP: Mode := 0x10     // 0020
  const S_IXGRP: Mode := 0x8      // 0010
  const S_IRWXO: Mode := 0x7      // 0007
  const S_IROTH: Mode := 0x4      // 0004
  const S_IWOTH: Mode := 0x2      // 0002
  const S_IXOTH: Mode := 0x1      // 0001
  /** 07777: the bits `chmod` stores (permissions plus setuid, setgid, sticky). */
  const ChmodBits: Mode := 0xFFF

  /** The fields of `struct stat` the shell looks at: `st_mode`, `st_size`
      and `st_mtime` (the last two are 64-bit signed on the host). */
  datatype Stat = Stat(mode: Mode, size: int, mtime: int)

  function Min(a: int, b: int): int {
    if a <= b then a else b
  }

  /** `p` is a (not necessarily proper) prefix of `s`. */
  predicate IsPrefix(p: string, s: string) {
    |p| <= |s| && s[..|p|] == p
  }

  /** The first `n` characters of `s`, or all of `s` when it is shorter:
      what a buffer of `n + 1` characters keeps of `s` after its NUL. */
  function Truncate(s: string, n: nat): (r: string)
    ensures |r| == Min(|s|, n)
    ensures IsPrefix(r, s)
  {
    if |s| <= n then s else s[..n]
  }

  /** Index of the last `c` in `s` (`strrchr`). */
  function LastIndexOf(s: string, c: char): (r: Option<nat>)
    ensures r.None? <==> c !in s
    ensures r.Some? ==> r.value < |s| && s[r.value] == c && c !in s[r.value + 1..]
  {
    if |s| == 0 then None
    else if s[|s| - 1] == c then Some(|s| - 1)
    else LastIndexOf(s[..|s| - 1], c)
  }

  lemma PrefixTransitive(a: string, b: string, c: string)
    requires IsPrefix(a, b) && IsPrefix(b, c)
    ensures IsPrefix(a, c)
  {
    assert c[..|a|] == c[..|b|][..|a|];
  }
}
