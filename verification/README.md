# A verified model of the confined shell's command layer

The shell keeps every file command inside one jail directory, `/tmp/test`.
Each `call_*` function joins its path arguments to the working directory and
asks `is_within_base_dir` about each joined path. It refuses the whole
command when any path fails, and otherwise makes its system calls. This
project models that command layer in Dafny and proves properties of the
model:

- the path join and the jail check (`src/utils.c`);
- the `ls -l` permission column (`print_permissions`);
- the `chmod` mode parser (`parse_mode_str`);
- the `ls` comparators, sort and reversal;
- the decisions of `call_cd`, `call_mkdir`, `call_rmdir`, `call_rename`,
  `call_ln`, `call_rm`, `call_chmod`, `call_cat` and `call_cp` over an
  abstract file tree;
- the post-order walk of `remove_directory_recursive`;
- the option and command-line helpers of `call_ps`, and the argument
  handling of `call_kill`.

Modules:

- `Base` holds the shared vocabulary: `mode_t` as `bv32`, the constants of
  `include/config.h` and the file-type and permission bits.
- `Paths` covers `get_absolute_path` and `is_within_base_dir`. `realpath(3)`
  is an uninterpreted partial function `string -> Option<string>`, and the
  jail root must canonicalise.
- `Numbers` covers `strtol(s, NULL, 8)` and `atoi`, including the conversion
  of a `long` to the 32-bit `mode_t` and `int`.
- `Permissions` is `print_permissions` as a pure function returning the
  ten-character string, with a decoder that reads it back.
- `ModeParser` has two parts:
  - the character loop of `parse_mode_str`, as a method (`ParseModeStr`) and
    as a reference fold (`ParseMode`);
  - a corrected parser (`ParseModeIntended`) that accumulates the class
    letters and addresses each named class in its own triad. It is not the
    whole of `chmod(1)`: `=` still acts letter by letter, and a clause
    without a class letter changes nothing.
- `Listing` has `strcmp` and the comparators (as written and by sign), a
  sorted permutation standing for `qsort`, the insertion sort by the
  truncating comparators that the build as written uses, the `-r` swap
  loop, and the collection of entries whose `lstat` succeeded.
- `FileSystem` is the host. The tree is a map from canonical paths (lists of
  names) to files, directories and symbolic links. The system calls are
  functions returning `Ok` or `Err(errno)`.
- `Removal` is `remove_directory_recursive` as a walk over the tree. Its
  termination measure is the number of free file descriptors, since
  `opendir` fails once none is left.
- `Commands` has one function per `call_*`, the dispatcher `Execute`, and
  the properties every command shares: the jail gate, the working
  directory staying in the jail, and the tree staying well formed.
- `Process` covers the `strtok` option words of `call_ps`, the `/proc`
  entry filter, the NUL-to-space rendering of `cmdline` with the fallback to
  `comm`, and the `atoi`/SIGTERM defaults of `call_kill`.

For the four defects listed under Findings, the model keeps the code as
written beside a corrected definition. The command layer is modelled for
two builds, chosen by the `build` field of `Commands.Env`:

- `AsWritten` is the program as it stands: the prefix test of
  `Paths.WithinBaseDir`, the character loop `ModeParser.ParseMode`, the
  truncating comparators with the insertion sort `Listing.SortAsWritten`,
  and entry paths cut to 255 characters in the recursive removal;
- `Corrected` uses `Paths.WithinBaseDirStrict`,
  `ModeParser.ParseModeIntended`, comparators by sign (`Listing.SortBy`)
  and entry paths built in full.

Every contract of `Commands` holds for both builds. Where a command's
promise depends on a defect, the contract names its hypothesis: the
`ls` order is sorted as written only while every difference the
comparators take fits an `int` (`Listing.LsOrder`), and `rm -r` removes
exactly the subtree as written only while every entry path fits the buffer
(`Commands.RmRecursiveErases`). The builds part ways on concrete inputs in
`Commands.CdToSibling`, `Commands.ChmodGoMinusW`,
`Commands.RmRecursiveRunaway` and `Listing.LsSizeInverted`.

`chmod(1)` gives 0644 for `chmod go-w` on 0666, but the code gives 0646:
`who` holds one letter, and the `o` block shifts the bit only once. The
model follows the code (`ModeParser.ExampleGoMinusW`) and records the
difference under Findings.

## Model

| member | source | states |
|---|---|---|
| Base.LastIndexOf | src/utils.c:63 | `strrchr`: None exactly when the character is absent; otherwise the index holds it and nothing after it does |
| Paths.AbsolutePath | src/utils.c:76-83 | an absolute argument is kept and a relative one becomes `base/path`; either way the result is a prefix of that text cut to at most 255 characters |
| Paths.RelativeJoinRoundTrip | src/utils.c:79-82 | a relative path whose join fits the buffer is recovered exactly from the joined path (no truncation, no normalisation) |
| Paths.AbsoluteKept | src/utils.c:77-78 | an absolute path of at most 255 characters comes back unchanged |
| Paths.DotDotNotNormalised | src/utils.c:79-80 | ".." and "" are appended as text: "/tmp/test/.." and "/tmp/test/" |
| Paths.ParentText | src/utils.c:61-65 | the text before the last '/', None when there is no '/'; what follows contains no '/' |
| Paths.CheckedCanonical | src/utils.c:57-71 | the canonical path compared is the candidate's own, or else its parent text's (one level, once), or none |
| Paths.WithinBaseDir | src/utils.c:52-74 | as written: true iff some canonical path is checked and the canonical root is a string prefix of it |
| Paths.WithinWhenCanonical | src/utils.c:73 | when the candidate canonicalises, the check is exactly the prefix test on the two canonical paths |
| Paths.FallbackIsOneLevel | src/utils.c:60-70 | when the candidate does not canonicalise: no '/' means refusal, otherwise the verdict is the prefix test on the parent text's canonical path, and false when that fails |
| Paths.WithinBaseDirStrict | src/utils.c:73 | corrected check: the same fallback, but the canonical path must be the root or continue it with a separator; it implies the as-written check |
| Paths.LiteralIsStrictOrSibling | src/utils.c:68-73 | the as-written check accepts exactly what the corrected check accepts plus sibling names that merely extend the root's last name |
| Paths.SiblingDirectoryAccepted | src/utils.c:73 | with `realpath` the identity, "/tmp/testing" passes the as-written check and fails the corrected one, while "/tmp/test/a" passes |
| Paths.InsideTreeAccepted | src/utils.c:73 | the root itself and every path below "root/" pass both checks |
| Numbers.StrtolOctal | src/commands.c:556 | the result is never negative and never above LONG_MAX, where `strtol` saturates |
| Numbers.LeadingDigits | src/commands.c:556 | the longest prefix of digits below the base: what `strtol` reads before it stops |
| Numbers.OctalRoundTrip | src/commands.c:556 | any 32-bit mode written as eleven octal digits reads back as that mode, through `strtol` and the conversion to `mode_t` |
| Numbers.OctalExample644 | src/commands.c:556 | "644" reads as 0644 |
| Numbers.OctalExampleTrailing | src/commands.c:556 | reading stops at the first non-octal character: "64a" is 064 |
| Numbers.OctalExampleNotOctal | src/commands.c:555-556 | a text starting with '8' or '9' reads as 0 |
| Numbers.ToInt32 | src/commands.c:47-53 | the `int` a `long` becomes: in the 32-bit range and congruent to the value modulo 2^32 |
| Numbers.Atoi | src/commands.c:357 | whatever the text, `atoi` returns a value in the `int` range |
| Numbers.StrtolDecimalRoundTrip | src/commands.c:423-424 | `strtol` base 10 reads back every `long` written in decimal with an optional '-' |
| Numbers.AtoiRoundTrip | src/commands.c:423-424 | `atoi` reads back every `int` written in decimal |
| Numbers.AtoiNoDigits | src/commands.c:423 | every text that holds no digit, whatever its blanks and sign, reads as 0 |
| Numbers.AtoiTrailing | src/commands.c:357 | digits followed by other characters read as the digits' value: "12x" is 12 |
| Permissions.TypeLetterExact | src/utils.c:14-20 | each of d, l, p, c, b, s appears exactly when the type field holds its type; '-' exactly for every other type field |
| Permissions.PermissionString | src/utils.c:13-33 | ten characters, the first being the type letter |
| Permissions.PermissionColumns | src/utils.c:22-32 | column i (1..9) shows r, w or x exactly when mode bit 0400 >> (i-1) is set, '-' otherwise |
| Permissions.PermissionColumn | src/utils.c:24-32 | the same for one column |
| Permissions.PermissionStringRoundTrip | src/utils.c:13-33 | the column read back gives the type letter and the nine permission bits: nothing else of the mode is shown and nothing shown is lost |
| Permissions.PermissionStringInjective | src/utils.c:13-33 | two modes give the same column iff they agree on type letter and the low nine bits |
| Permissions.Examples | src/utils.c:13-33 | 040755 shows as "drwxr-xr-x", 0100644 as "-rw-r--r--", 0120777 as "lrwxrwxrwx" |
| ModeParser.ParseModeStr | src/commands.c:553-594 | the loop over the characters returns what the left-to-right fold over the same characters returns |
| ModeParser.OctalIgnoresCurrent | src/commands.c:555-557 | a leading digit makes the result the octal value of the leading digits, whatever the current mode |
| ModeParser.OctalModeRoundTrip | src/commands.c:555-557 | every mode written as octal digits is parsed back as itself |
| ModeParser.OctalExamples | src/commands.c:555-557 | "644" gives 0644; "8" and "9xyz" give 0 |
| ModeParser.LetterBitsPerClass | src/commands.c:569-590 | a letter's user bit and its one and two 3-bit shifts are the letter's bit in the user, group and other triads |
| ModeParser.PermLetterUserGroupAll | src/commands.c:569-590 | with `who` u, g or a, a permission letter has the documented effect on exactly the addressed classes |
| ModeParser.PermLetterUser | src/commands.c:574-578 | `who` u: `+`, `-` and `=` act on the user triad only |
| ModeParser.PermLetterGroup | src/commands.c:579-584 | `who` g: the bit is shifted once and acts on the group triad only |
| ModeParser.AllSet | src/commands.c:574-590 | `a+` sets the letter's bit in all three triads |
| ModeParser.AllClear | src/commands.c:574-590 | `a-` clears the letter's bit in all three triads |
| ModeParser.AllAssign | src/commands.c:574-590 | `a=` leaves exactly the letter's bit in each triad |
| ModeParser.EffectOfPlus | src/commands.c:575-587 | `+` adds the letter's bits inside the addressed classes; type, setuid/setgid/sticky and the other classes are unchanged |
| ModeParser.EffectOfMinus | src/commands.c:576-588 | `-` removes the letter's bits inside the addressed classes only |
| ModeParser.EffectOfAssign | src/commands.c:577-589 | `=` leaves only the letter's bit in each addressed triad, so each letter overwrites the triad |
| ModeParser.EffectWithoutOp | src/commands.c:574-590 | with no operator read yet, a letter changes nothing |
| ModeParser.PermLetterOther | src/commands.c:585-590 | as written, with `who` o the bit is shifted only once: `+`/`-` act on the letter's group bit, and `=` clears the other triad and then sets that group bit |
| ModeParser.PermLetterUnaddressed | src/commands.c:559-590 | a permission letter read before any class letter or before any operator leaves the mode unchanged |
| ModeParser.LastClassLetterWins | src/commands.c:564-565 | of two class letters in a row only the second matters for the rest of the scan |
| ModeParser.UnrecognisedSkipped | src/commands.c:563-592 | a character that is no class, operator or permission letter leaves the scan state unchanged |
| ModeParser.NoClassOrNoOpKeepsMode | src/commands.c:559-592 | a symbolic text without a class letter, or without an operator, returns the current mode |
| ModeParser.EmptyKeepsMode | src/commands.c:559-593 | the empty text returns the current mode |
| ModeParser.AppendPermLetter | src/commands.c:568-590 | a permission letter after a scan whose `who` is u, g or a applies the documented effect for that class and operator to the mode so far |
| ModeParser.ExampleUserPlusX | src/commands.c:574-578 | "u+x" on 0644 gives 0744 |
| ModeParser.ExampleGoMinusW | src/commands.c:564-590 | as written, "go-w" on 0666 gives 0646 |
| ModeParser.ExampleUserSetRw | src/commands.c:577 | "u=rw" on 0644 gives 0244: the w overwrites the r |
| ModeParser.ExampleAllPlusX | src/commands.c:574-590 | "a+x" on 0644 gives 0755 |
| ModeParser.IntendedClause | src/commands.c:563-592 | corrected parser: class letters, an operator and a letter act on each of the named classes in its own triad |
| ModeParser.IntendedExamples | src/commands.c:564-590 | corrected parser: "go-w" on 0666 gives 0644 and "o+x" sets 0001 |
| ModeParser.GoMinusWDiffers | src/commands.c:564-590 | the code as written and the corrected parser differ on "go-w" over 0666 |
| ModeParser.IntendedAgreesOnSingleClass | src/commands.c:563-592 | the two parsers agree on every single-class clause with u, g or a |
| ModeParser.GoMinusWOnRegularFile | src/commands.c:564-590 | on a regular file of mode 0666, "go-w" gives 0646 as written and 0644 with the corrected parser; the type bits are kept |
| ModeParser.IntendedLimits | src/commands.c:577 | where the corrected parser still departs from `chmod(1)`: "u=rw" on 0644 gives 0244, and "+x" changes nothing |
| Listing.StrcmpSwap | src/commands.c:43-45 | swapping the names negates `strcmp` |
| Listing.StrcmpZero | src/commands.c:43-45 | on C strings `strcmp` is 0 exactly for equal names |
| Listing.StrcmpTransitive | src/commands.c:43-45 | on C strings the `strcmp` order is transitive |
| Listing.BeforeMeaning | src/commands.c:43-53 | corrected comparators: -t puts newer first, -S larger first, and names are ascending with ties only for equal names |
| Listing.BeforeTotal | src/commands.c:43-53 | any two entries are comparable |
| Listing.BeforeTransitive | src/commands.c:43-53 | the order is transitive for C-string names |
| Listing.AsWrittenAgreesWhenClose | src/commands.c:47-53 | while the 64-bit difference fits an `int`, the comparators as written order as the corrected ones do |
| Listing.SizeComparatorInverted | src/commands.c:51-53 | as written, an empty file compares before a 3 GiB file under -S, the wrong way round |
| Listing.TimeComparatorInverted | src/commands.c:47-49 | as written, under -t a file 2^31 seconds older compares first |
| Listing.Insert | src/commands.c:81-86 | inserting adds exactly one occurrence of the entry |
| Listing.InsertSorted | src/commands.c:81-86 | insertion into a sorted listing keeps it sorted |
| Listing.SortBy | src/commands.c:81-86 | the sort result is a permutation of its input and sorted by the key |
| Listing.InsertAsWritten | src/commands.c:47-53 | insertion by the truncating comparator adds exactly one occurrence of the entry |
| Listing.SortAsWritten | src/commands.c:81-86 | the sort by the truncating comparators keeps every entry: its result is a permutation of its input |
| Listing.InsertAgrees | src/commands.c:47-53 | when the new entry is Close to every entry already there, insertion by the truncating comparator equals insertion by sign |
| Listing.SortAgrees | src/commands.c:47-86 | when every pair of entries is Close, the sort as written equals the sort by sign |
| Listing.NameOrderUnique | src/commands.c:86 | with distinct names, any two name-sorted permutations are equal: the default order is fully determined |
| Listing.Reverse | src/commands.c:88-95 | element k of the reversal is element n-1-k of the input |
| Listing.ReverseInPlace | src/commands.c:88-95 | the swap loop over the first half produces the reversal |
| Listing.ReverseSortedDescends | src/commands.c:88-95 | a reversed sorted listing is ordered the other way round |
| Listing.ReverseMultiset | src/commands.c:88-95 | reversal keeps every entry |
| Listing.EntryPath | src/commands.c:70-71 | the path given to `lstat` is `dir/name` cut to 255 characters |
| Listing.Collect | src/commands.c:68-78 | exactly the entries whose `lstat` succeeded, each with its `lstat` result; the others are skipped; distinct names give distinct entries, so each surviving entry appears once |
| Listing.LsOrder | src/commands.c:56-95 | for either build the listing is a permutation of the collected entries; it is sorted by the selected key (or descends with -r) for the corrected build, and for the build as written whenever every pair of collected entries is Close (their difference fits an `int`) |
| Listing.TimeTakesPrecedence | src/commands.c:81-84 | for either build, with -t, -S makes no difference |
| Listing.ReverseFlag | src/commands.c:88-95 | for either build, -r lists exactly the entries of the listing without it, last first |
| Listing.LsSizeInverted | src/commands.c:51-53 | `ls -S` of an empty file and a 3 GiB file lists the empty one first as written, in either input order, and the large one first when corrected |
| FileSystem.StatKind | src/commands.c:226 | the type field `lstat` reports is S_IFDIR exactly for directories, S_IFREG for files, S_IFLNK for links; permissions are reported unchanged |
| FileSystem.Lstat | src/commands.c:221 | `lstat` succeeds exactly on an existing name, without following a link, and reports its node |
| FileSystem.StatPath | src/commands.c:249 | `stat` succeeds exactly when the lookup (following a final link) succeeds, and reports the node found |
| FileSystem.Lookup | src/commands.c:139 | the node a path names after a final link is followed: never a link, the path itself when that is no link, ENOENT when nothing is there |
| FileSystem.Chdir | src/commands.c:139 | `chdir` succeeds exactly on a directory, after following a final link |
| FileSystem.Mkdir | src/commands.c:156 | `mkdir` succeeds iff the name is free and its parent is a directory, and then adds exactly one directory with the given mode under the umask |
| FileSystem.Rmdir | src/commands.c:170 | `rmdir` succeeds iff the last piece is not "." or "..", the path is not the root, and it names an existing empty directory; it then removes exactly that name |
| FileSystem.Unlink | src/commands.c:233 | `unlink` succeeds iff the name exists and is not a directory, and removes exactly that name |
| FileSystem.Rename | src/commands.c:185 | a successful `rename` had an existing source and a directory as the target's parent, and moves the source's subtree to the target |
| FileSystem.MoveFacts | src/commands.c:185 | after a move the subtree appears under the target, everything outside both subtrees is unchanged, and nothing else appears |
| FileSystem.Link | src/commands.c:205 | `link` succeeds iff the source exists and is no directory, the target is free and its parent a directory; the target then holds a copy of the source node (the two names are not aliased) and nothing else changes |
| FileSystem.MakeSymlink | src/commands.c:201 | `symlink` succeeds iff the new name is free under a directory, and then adds exactly one link holding the target text |
| FileSystem.Chmod | src/commands.c:255 | `chmod` follows a final link and stores the low twelve bits of the mode; nothing else changes |
| FileSystem.OpenWrite | src/commands.c:299 | `fopen(_, "w")` leaves an empty file at the target and changes no other node |
| FileSystem.WriteAll | src/commands.c:306-310 | the copy loop leaves the target file holding exactly the data, and no other node changes |
| Removal.ChildPath | src/commands.c:534-535 | the entry path is `path/name`, cut to 255 characters as written |
| Removal.EntrySkips | src/commands.c:531-539 | "." and "..", and entries whose `lstat` fails, leave the tree unchanged |
| Removal.NoDescriptorNoRemoval | src/commands.c:525-526 | when `opendir` cannot get a descriptor, nothing is removed |
| Removal.Erase | src/commands.c:524-551 | reference for the walk: the tree without the node and everything below it, all other nodes unchanged |
| Removal.TreeUnfold | src/commands.c:529-550 | one level of the walk is: every entry first, then `rmdir` of the directory itself |
| Removal.EntriesErase | src/commands.c:529-548 | walking any set of a directory's entries removes exactly their subtrees, with full entry paths and with paths cut to 255 characters whenever every path below fits |
| Removal.EntryErases | src/commands.c:537-547 | one entry: a directory is walked, anything else is unlinked; either way exactly its subtree goes, for full entry paths and for cut ones whenever every path below fits |
| Removal.TreeErases | src/commands.c:524-551 | with a descriptor for every level, the walk removes the directory and everything below it and nothing else: always with full entry paths, and with paths cut to 255 characters (as written) whenever every path below fits |
| Removal.FitsChild | src/commands.c:534-535 | when every path below fits, the cut entry path of a child is the full `path/name`, and every path below the child fits too |
| Removal.TruncationHarmless | src/commands.c:534-535 | when every path below fits, the walk with entry paths cut to 255 characters is the walk with full paths |
| Removal.TreeKeepsWellFormed | src/commands.c:524-551 | however far the walk gets, the tree stays well formed |
| Removal.AsWrittenRunaway | src/commands.c:534-535 | as written, a directory path of 254 or 255 characters makes every entry path name the directory itself, and the walk removes nothing |
| Removal.EraseKeepsWellFormed | src/commands.c:524-551 | removing a subtree keeps the tree well formed |
| Commands.RunCd | src/commands.c:129-145 | for either build, the new working directory is the joined path iff it passes that build's check and `chdir` succeeds, and exactly the old one otherwise; the tree is unchanged |
| Commands.RunMkdir | src/commands.c:147-159 | for either build, `Done` iff the path passes the build's check and `mkdir` succeeds, which then adds one directory at the free name with mode 0777 under the umask; any other outcome changes nothing |
| Commands.RunRmdir | src/commands.c:161-173 | for either build, `Done` iff the path passes the build's check and `rmdir` succeeds, which removes exactly one empty directory; any other outcome changes nothing |
| Commands.RunRename | src/commands.c:175-188 | for either build, `Done` iff both endpoints pass the build's check and `rename` succeeds, the tree then being its result; any other outcome changes nothing |
| Commands.RunLn | src/commands.c:190-209 | for either build, `Done` iff both endpoints pass the check and `symlink` (with -s) or `link` succeeds; a symbolic link stores the joined original, a hard link gives the new name a copy of the original node (see FileSystem.Link under Left out); failure changes nothing |
| Commands.RunRm | src/commands.c:211-237 | for either build, `Done` iff the path is admitted, exists, and is either a directory with -r or a name `unlink` removes; a removed non-directory is exactly that name gone; "is a directory" exactly for an admitted existing directory without -r; only success changes the tree |
| Commands.RunChmod | src/commands.c:239-258 | for either build, `Done` iff the path is admitted and `stat` finds a node (following a final link); that node then gets the low twelve bits of the mode the build's parser gives; otherwise nothing changes |
| Commands.RunCat | src/commands.c:260-281 | for either build, succeeds exactly when the path is admitted and opens; the shell is never changed |
| Commands.RunCp | src/commands.c:283-314 | for either build, `Done` iff both endpoints are admitted, the source opens for reading and the target for writing; the target file then holds the source's bytes, or nothing when both are the same file; otherwise nothing changes |
| Commands.DirectoryNames | src/commands.c:68 | `readdir` yields exactly the directory's entries plus "." and ".." |
| Commands.SetToSeq | src/commands.c:68 | the entry names in some order: every name exactly once |
| Commands.RunLs | src/commands.c:56-127 | listing changes neither the tree nor the working directory |
| Commands.Gate | src/commands.c:129-314 | for either build, every file command is refused iff some joined path argument fails that build's check (as written: the prefix test of `is_within_base_dir`); a refused command makes no system call and changes nothing, any other makes at least one |
| Commands.CwdStaysAdmitted | src/commands.c:129-145 | for either build and one `realpath`, a command either leaves the working directory alone or moves it to a path the build's check accepted (as written, `is_within_base_dir` with its prefix test); a working directory that passes the check still passes it after the command, under the same `realpath` |
| Commands.RmDirectoryNeedsRecursive | src/commands.c:226-230 | `rm` without -r on a directory makes only the `lstat` call and changes nothing |
| Commands.RmOfDirectory | src/commands.c:220-231 | once `lstat` finds a directory, -r runs the build's walk (entry paths cut as written, full when corrected) and its absence reports "is a directory" |
| Commands.RmRecursiveErases | src/commands.c:226-231 | `rm -r` on a directory with enough descriptors removes exactly it and its subtree: always for the corrected build, and as written whenever every entry path below fits the 256-byte buffer |
| Commands.CdToSibling | src/commands.c:129-145 | with `realpath` the identity, `cd` into "/tmp/testing" succeeds as written and is refused by the corrected build |
| Commands.RmRecursiveRunaway | src/commands.c:226-231 | as written, `rm -r` on a non-empty directory whose path is 254 or 255 characters long reports success and changes nothing |
| Commands.ChmodGoMinusW | src/commands.c:239-258 | `chmod go-w` on a 0666 file succeeds and leaves 0646 as written, 0644 when corrected |
| Commands.CpOntoItselfEmpties | src/commands.c:293-310 | `cp` of a file onto itself truncates it to empty, because the target is opened before the source is read |
| Commands.CpCopies | src/commands.c:293-310 | `cp` onto another existing file leaves the target holding the source's bytes |
| Commands.ExecuteKeepsWellFormed | src/commands.c:129-314 | for either build, whatever command runs, every node but the root keeps a directory as its parent |
| Commands.MkdirKeepsWellFormed | src/commands.c:147-159 | `mkdir` keeps the tree well formed |
| Commands.RmdirKeepsWellFormed | src/commands.c:161-173 | `rmdir` keeps the tree well formed |
| Commands.RenameKeepsWellFormed | src/commands.c:175-188 | `rename` keeps the tree well formed, a moved directory taking its subtree along |
| Commands.LnKeepsWellFormed | src/commands.c:190-209 | `ln` keeps the tree well formed |
| Commands.RmKeepsWellFormed | src/commands.c:211-237 | `rm`, with or without -r, keeps the tree well formed |
| Commands.ChmodKeepsWellFormed | src/commands.c:239-258 | `chmod` keeps the tree well formed |
| Commands.CpKeepsWellFormed | src/commands.c:283-314 | `cp` keeps the tree well formed |
| Process.Tokens | src/commands.c:326-335 | the `strtok(_, " ")` words: each non-empty and free of spaces |
| Process.TokensOfJoin | src/commands.c:326-335 | words joined by single spaces are split back into exactly those words |
| Process.TokensKeepCharacters | src/commands.c:326-335 | the words hold every non-space character of the text, in order, and nothing else |
| Process.ScanOptions | src/commands.c:328-335 | the token loop turns an option on iff it was on or its exact word occurs |
| Process.ParsePsOptions | src/commands.c:322-337 | no argument leaves both options off; otherwise -a is on iff "-a" is a word and -l iff "-l" is a word |
| Process.CombinedFlagsIgnored | src/commands.c:329-333 | "-al" is one unknown word: both options stay off |
| Process.SeparateFlags | src/commands.c:325-337 | "-l -a" turns both options on |
| Process.PidEntryOfPid | src/commands.c:354-358 | the `/proc` entry of every positive pid passes the filter and reads back as that pid |
| Process.NonPidEntries | src/commands.c:354-358 | "self", ".", "" and "0" are skipped |
| Process.CommandLine | src/commands.c:385-400 | non-empty `cmdline` bytes are shown, at most 127 of them, with each NUL as a space; empty or unreadable ones fall back to `comm` cut to 127; the result never holds a NUL |
| Process.SpacesForNuls | src/commands.c:393-395 | same length, each NUL replaced by a space and every other character kept |
| Process.RenderCommandLine | src/commands.c:385-400 | the zeroed-buffer loop computes the command line described above |
| Process.ArgvShown | src/commands.c:385-400 | a short argument vector is shown as its arguments, each followed by a space |
| Process.Kill | src/commands.c:422-425 | the pid is an `int`, and without a signal argument the signal is SIGTERM (15) |
| Process.KillNumbers | src/commands.c:423-424 | a pid and a signal written in decimal reach `kill` unchanged |
| Process.KillNames | src/commands.c:423-424 | any pid and signal arguments without a digit read as 0: `kill` is asked to send signal 0 to pid 0 |

## Left out

- Printing is not modelled: the `printf`/`perror` messages, `print_time`,
  `print_all_times`, `print_user_group` and the long `ls` columns. These
  depend on the C library's time and user databases. A failure becomes a
  `Failed(errno)` report, and a listing becomes a sequence of entries.
- The host is a set of parameters:
  - `realpath(3)` is an uninterpreted function;
  - the umask, the clock and the number of free file descriptors are fields
    of `Commands.Env`.
- `realpath(3)` is not tied to the tree: the same function answers before
  and after every command. In the program a path's verdict can change when
  the tree changes. With the working directory "/tmp/test/d/e", `rm -r
  /tmp/test/d` leaves neither it nor its parent canonicalisable, so the
  jail check then refuses it. `Commands.CwdStaysAdmitted` holds only for
  one `realpath`.
- Two host details that feed `ls -S` and `ls -t` are simplified.
  Directories report `st_size` 0, where the real value depends on the file
  system (4096 on ext4). `mkdir`, `rmdir`, `unlink`, `rename`, `link` and
  `symlink` do not update the parent directory's modification time.
- Symbolic links are followed only in the last component of a path, and path
  text resolves lexically ("name/.." cancels out). Links in the middle of a
  path and the kernel's permission checks are not modelled.
- The order of `readdir` is not modelled. Directory entries are taken in an
  unspecified fixed order (`Removal.Pick`). Sorting is stated as "some sorted
  permutation", because `qsort` is not stable.
- Byte streaming in `call_cat` and `call_cp` (`fgets`, `fread`, `fwrite`
  with 1024-byte buffers) is not modelled chunk by chunk. `cp` writes the
  whole source at once.
- Short writes, I/O errors and `fclose` failures are not modelled.
- The `/proc` reading of `call_ps` is not modelled: `opendir("/proc")`, the
  `fscanf` of `stat` and `statm`, the owner-uid filter, and the `*4` scaling
  of memory figures. What is modelled is the option words, the pid-entry
  filter and the rendering of `cmdline` from its bytes.
- `call_kill` sends no signal: the model stops at the pid and signal numbers
  `kill(2)` is given.
- Not modelled at all:
  - `call_help`, `execute_program` (fork/execvp/waitpid);
  - `call_mmap_test` and `handle_usr1` (processes, signals and shared
    memory);
  - `setup_chroot`;
  - `src/main.c` and the Qt files, which are front-end plumbing.
- The C buffer hazards are not modelled: the `realpath` outputs in 256-byte
  buffers, and the missing NUL after `strncpy` in the fallback of
  `is_within_base_dir` for a 255-character path.
- Commands.RunLs: its contract states only that listing changes nothing. The
  order of the entries is stated by `Listing.LsOrder` over the same
  `Listing.Ls`.
- Commands.RunCat: the bytes `cat` prints are not part of the outcome.
  Only whether the file opens is stated.
- FileSystem.Rename: its contract states the success case only. The POSIX
  error cases are in its body:
  - EINVAL when moving a directory below itself;
  - ENOTDIR/EISDIR on a kind mismatch;
  - ENOTEMPTY for a non-empty target directory;
  - EBUSY for the root.
- FileSystem.OpenWrite: its contract states what a successful open leaves,
  not when it fails. It fails on a missing parent or a directory, and on a
  link loop through ELOOP.
- Removal.TreeErases: as written it is proved only when every path below
  fits the 256-byte buffer (`Removal.PathsFit`); otherwise the walk is not
  characterised beyond `Removal.TreeKeepsWellFormed`, and the 254- and
  255-character case is `Removal.AsWrittenRunaway`. A last piece of "." or
  ".." is excluded, since `rmdir` refuses it, as `FileSystem.Rmdir` models.
- Removal.EntriesErase: the same fit hypothesis as `Removal.TreeErases`
  when entry paths are cut.
- Removal.EntryErases: the same fit hypothesis as `Removal.TreeErases`
  when entry paths are cut.
- Commands.RmRecursiveErases: as written it needs every entry path below
  to fit the buffer, for the reason given for `Removal.TreeErases`.
- Listing.LsOrder: as written the listing is promised to be sorted only
  when every difference the comparators take fits an `int`. Otherwise the
  truncated comparator is no order. `qsort` is then free to return any
  permutation, and the model fixes one, the insertion sort
  `Listing.SortAsWritten`, rather than the C library's algorithm.
- FileSystem.Link: a hard link is modelled as a copy of the source node
  under the new name, since the tree has no inodes. The two names do not
  share later changes: after `ln a b`, a `cp c a` or a `chmod` through `a`
  is not seen through `b`. The link count is not modelled either.
- Commands.RunLn: hard links inherit the copy semantics of
  `FileSystem.Link`.
- ModeParser.ParseModeIntended: it corrects only the two defects under
  Findings and is not the whole of `chmod(1)`. `=` still overwrites the
  triad letter by letter ("u=rw" on 0644 gives 0244). A clause without a
  class letter ("+x") changes nothing, where `chmod(1)` reads it as `a`
  under the umask. `ModeParser.IntendedLimits` states both.

## Findings

| source | as written | input that shows it | evidently intended | confidence | as-written member | corrected member |
|---|---|---|---|---|---|---|
| src/utils.c:73 | `strncmp(real_path, real_base, strlen(real_base)) == 0` accepts any canonical path that merely starts with the root's text | "/tmp/testing" against the root "/tmp/test" (both existing) is accepted | the path must be the root or continue it with '/' | high (not executed) | Paths.SiblingDirectoryAccepted, Commands.CdToSibling | Paths.WithinBaseDirStrict |
| src/commands.c:564-590 | `who` keeps only the last class letter, and the `o` block shifts the user bit only once, into the group triad | "go-w" on 0666 gives 0646; "o+x" on 0 sets 0010 | `chmod(1)`: "go-w" gives 0644, "o+x" sets 0001 | high (not executed) | ModeParser.GoMinusWDiffers, Commands.ChmodGoMinusW | ModeParser.IntendedExamples |
| src/commands.c:47-53 | the comparators return the 64-bit `st_size`/`st_mtime` difference as `int`, truncating it | sizes 0 and 0xC0000000: the difference 0xC0000000 becomes negative, so `ls -S` puts the empty file first | compare by sign, larger (or newer) first | high (not executed) | Listing.SizeComparatorInverted, Listing.LsSizeInverted | Listing.BeforeMeaning |
| src/commands.c:534-535 | `snprintf` of "%s/%s" into 256 bytes truncates; for a 254- or 255-character directory path every entry path is the directory itself plus at most a '/' | `rm -r` on a non-empty directory whose path is 254 characters long; with k entries every level walks each of them again, so the run makes about k^fds steps before `opendir` runs out of descriptors | entry paths built in full (or the walk refusing too long a path) | medium (not executed) | Removal.AsWrittenRunaway, Commands.RmRecursiveRunaway | Removal.TreeErases |
