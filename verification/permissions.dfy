/** The ten-character `ls -l` mode column (`print_permissions`), as a string
    instead of output. */
module Permissions {
  import opened Base

  /** The file-type field of `m` equals `t` (`S_ISDIR` and friends). */
  predicate HasType(m: Mode, t: Mode) {
    m & S_IFMT == t
  }

  /** The type letter, decided in the order d, l, p, c, b, s. */
  function TypeLetter(m: Mode): char {
    if HasType(m, S_IFDIR) then 'd'
    else if HasType(m, S_IFLNK) then 'l'
    else if HasType(m, S_IFIFO) then 'p'
    else if HasType(m, S_IFCHR) then 'c'
    else if HasType(m, S_IFBLK) then 'b'
    else if HasType(m, S_IFSOCK) then 's'
    else '-'
  }

  /** The file types are distinct values of one field, so the order of the
      tests never matters: each letter is shown exactly for its own type. */
  lemma TypeLetterExact(m: Mode)
    ensures TypeLetter(m) == 'd' <==> HasType(m, S_IFDIR)
    ensures TypeLetter(m) == 'l' <==> HasType(m, S_IFLNK)
    ensures TypeLetter(m) == 'p' <==> HasType(m, S_IFIFO)
    ensures TypeLetter(m) == 'c' <==> HasType(m, S_IFCHR)
    ensures TypeLetter(m) == 'b' <==> HasType(m, S_IFBLK)
    ensures TypeLetter(m) == 's' <==> HasType(m, S_IFSOCK)
    ensures TypeLetter(m) == '-' <==>
      m & S_IFMT !in {S_IFDIR, S_IFLNK, S_IFIFO, S_IFCHR, S_IFBLK, S_IFSOCK}
  {
  }

  /** The mode bit column `i` (1..9) reports: 0400 down to 0001. */
  function ColumnBit(i: nat): Mode
    requires 1 <= i <= 9
  {
    [S_IRUSR, S_IWUSR, S_IXUSR, S_IRGRP, S_IWGRP, S_IXGRP, S_IROTH, S_IWOTH, S_IXOTH][i - 1]
  }

  /** The letter column `i` shows when its bit is set. */
  function ColumnLetter(i: nat): char
    requires 1 <= i <= 9
  {
    "rwxrwxrwx"[i - 1]
  }

  function Flag(m: Mode, bit: Mode, letter: char): char {
    if m & bit != 0 then letter else '-'
  }

  /** `print_permissions`: the type letter, then r/w/x for user, group and
      other, '-' for every bit that is clear. */
  function PermissionString(m: Mode): (s: string)
    ensures |s| == 10
    ensures s[0] == TypeLetter(m)
  {
    [TypeLetter(m),
     Flag(m, S_IRUSR, 'r'), Flag(m, S_IWUSR, 'w'), Flag(m, S_IXUSR, 'x'),
     Flag(m, S_IRGRP, 'r'), Flag(m, S_IWGRP, 'w'), Flag(m, S_IXGRP, 'x'),
     Flag(m, S_IROTH, 'r'), Flag(m, S_IWOTH, 'w'), Flag(m, S_IXOTH, 'x')]
  }

  /** Columns 2 to 10: each shows its letter exactly when its bit is set. */
  lemma PermissionColumns(m: Mode)
    ensures forall i :: 1 <= i <= 9 ==>
      PermissionString(m)[i] == (if m & ColumnBit(i) != 0 then ColumnLetter(i) else '-')
  {
    forall i | 1 <= i <= 9 {
      PermissionColumn(m, i);
    }
  }

  lemma PermissionColumn(m: Mode, i: nat)
    requires 1 <= i <= 9
    ensures PermissionString(m)[i] == (if m & ColumnBit(i) != 0 then ColumnLetter(i) else '-')
  {
    ColumnFlag(m, i);
  }

  lemma ColumnFlag(m: Mode, i: nat)
    requires 1 <= i <= 9
    ensures PermissionString(m)[i] == Flag(m, ColumnBit(i), ColumnLetter(i))
  {
    var s := PermissionString(m);
    if i == 1 { assert ColumnBit(1) == S_IRUSR && ColumnLetter(1) == 'r'; assert s[1] == Flag(m, ColumnBit(1), ColumnLetter(1)); }
    else if i == 2 { assert ColumnBit(2) == S_IWUSR && ColumnLetter(2) == 'w'; assert s[2] == Flag(m, ColumnBit(2), ColumnLetter(2)); }
    else if i == 3 { assert ColumnBit(3) == S_IXUSR && ColumnLetter(3) == 'x'; assert s[3] == Flag(m, ColumnBit(3), ColumnLetter(3)); }
    else if i == 4 { assert ColumnBit(4) == S_IRGRP && ColumnLetter(4) == 'r'; assert s[4] == Flag(m, ColumnBit(4), ColumnLetter(4)); }
    else if i == 5 { assert ColumnBit(5) == S_IWGRP && ColumnLetter(5) == 'w'; assert s[5] == Flag(m, ColumnBit(5), ColumnLetter(5)); }
    else if i == 6 { assert ColumnBit(6) == S_IXGRP && ColumnLetter(6) == 'x'; assert s[6] == Flag(m, ColumnBit(6), ColumnLetter(6)); }
    else if i == 7 { assert ColumnBit(7) == S_IROTH && ColumnLetter(7) == 'r'; assert s[7] == Flag(m, ColumnBit(7), ColumnLetter(7)); }
    else if i == 8 { assert ColumnBit(8) == S_IWOTH && ColumnLetter(8) == 'w'; assert s[8] == Flag(m, ColumnBit(8), ColumnLetter(8)); }
    else { assert ColumnBit(9) == S_IXOTH && ColumnLetter(9) == 'x'; assert s[9] == Flag(m, ColumnBit(9), ColumnLetter(9)); }
  }

  predicate Shows(c: char, letter: char) {
    c == letter || c == '-'
  }

  function Unflag(c: char, letter: char, bit: Mode): Mode {
    if c == letter then bit else 0
  }

  /** Reads a mode column back: its type letter and the nine permission bits,
      or None when it is not ten characters of the expected letters. */
  function ParsePermissionString(s: string): Option<(char, Mode)> {
    if |s| == 10 &&
       Shows(s[1], 'r') && Shows(s[2], 'w') && Shows(s[3], 'x') &&
       Shows(s[4], 'r') && Shows(s[5], 'w') && Shows(s[6], 'x') &&
       Shows(s[7], 'r') && Shows(s[8], 'w') && Shows(s[9], 'x')
    then
      Some((s[0],
            Unflag(s[1], 'r', S_IRUSR) | Unflag(s[2], 'w', S_IWUSR) | Unflag(s[3], 'x', S_IXUSR) |
            Unflag(s[4], 'r', S_IRGRP) | Unflag(s[5], 'w', S_IWGRP) | Unflag(s[6], 'x', S_IXGRP) |
            Unflag(s[7], 'r', S_IROTH) | Unflag(s[8], 'w', S_IWOTH) | Unflag(s[9], 'x', S_IXOTH)))
    else None
  }

  /** The column loses nothing of the type letter and the permission bits:
      reading it back gives them exactly. */
  lemma PermissionStringRoundTrip(m: Mode)
    ensures ParsePermissionString(PermissionString(m)) == Some((TypeLetter(m), m & 0x1FF))
  {
    var s := PermissionString(m);
    assert s[1..] == [Flag(m, S_IRUSR, 'r'), Flag(m, S_IWUSR, 'w'), Flag(m, S_IXUSR, 'x'),
                      Flag(m, S_IRGRP, 'r'), Flag(m, S_IWGRP, 'w'), Flag(m, S_IXGRP, 'x'),
                      Flag(m, S_IROTH, 'r'), Flag(m, S_IWOTH, 'w'), Flag(m, S_IXOTH, 'x')];
    FlagRoundTrip(m, S_IRUSR, 'r'); FlagRoundTrip(m, S_IWUSR, 'w'); FlagRoundTrip(m, S_IXUSR, 'x');
    FlagRoundTrip(m, S_IRGRP, 'r'); FlagRoundTrip(m, S_IWGRP, 'w'); FlagRoundTrip(m, S_IXGRP, 'x');
    FlagRoundTrip(m, S_IROTH, 'r'); FlagRoundTrip(m, S_IWOTH, 'w'); FlagRoundTrip(m, S_IXOTH, 'x');
    NinePermissionBits(m);
  }

  /** One column read back gives its bit of the mode. */
  lemma FlagRoundTrip(m: Mode, bit: Mode, letter: char)
    requires letter != '-'
    requires bit in {S_IRUSR, S_IWUSR, S_IXUSR, S_IRGRP, S_IWGRP, S_IXGRP, S_IROTH, S_IWOTH, S_IXOTH}
    ensures Shows(Flag(m, bit, letter), letter)
    ensures Unflag(Flag(m, bit, letter), letter, bit) == m & bit
  {
  }

  lemma NinePermissionBits(m: Mode)
    ensures m & 0x1FF ==
      (m & S_IRUSR) | (m & S_IWUSR) | (m & S_IXUSR) |
      (m & S_IRGRP) | (m & S_IWGRP) | (m & S_IXGRP) |
      (m & S_IROTH) | (m & S_IWOTH) | (m & S_IXOTH)
  {
  }

  /** Two modes give the same column exactly when they agree on the type
      letter and the nine permission bits. */
  lemma PermissionStringInjective(m1: Mode, m2: Mode)
    ensures PermissionString(m1) == PermissionString(m2) <==>
      TypeLetter(m1) == TypeLetter(m2) && m1 & 0x1FF == m2 & 0x1FF
  {
    if PermissionString(m1) == PermissionString(m2) {
      PermissionStringRoundTrip(m1);
      PermissionStringRoundTrip(m2);
    }
  }

  lemma Examples()
    ensures PermissionString(0x41ED) == "drwxr-xr-x"   // 040755
    ensures PermissionString(0x81A4) == "-rw-r--r--"   // 0100644
    ensures PermissionString(0xA1FF) == "lrwxrwxrwx"   // 0120777
  {
  }
}
