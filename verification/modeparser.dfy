/** `parse_mode_str`: the mode argument of `chmod`, either an octal literal or
    a symbolic expression read left to right by a small state machine with
    two registers, the class letter `who` and the operator `op`. */
module ModeParser {
  import opened Base
  import Numbers

  /** The value a register holds before anything was read into it. */
  const Unset: char := '\0'

  predicate IsWho(c: char) {
    c == 'u' || c == 'g' || c == 'o' || c == 'a'
  }

  predicate IsOp(c: char) {
    c == '+' || c == '-' || c == '='
  }

  predicate IsPerm(c: char) {
    c == 'r' || c == 'w' || c == 'x'
  }

  /** The registers of the scan and the mode built so far. */
  datatype ScanState = ScanState(who: char, op: char, mode: Mode)

  /** The user-class bit a permission letter stands for. */
  function UserBit(c: char): Mode
    requires IsPerm(c)
  {
    if c == 'r' then S_IRUSR else if c == 'w' then S_IWUSR else S_IXUSR
  }

  /** One operator applied to one triad: `+` sets `bits`, `-` clears them,
      `=` replaces the whole `triad` with `bits`; no operator does nothing. */
  function ApplyOp(mode: Mode, op: char, bits: Mode, triad: Mode): Mode {
    if op == '+' then mode | bits
    else if op == '-' then mode & !bits
    else if op == '=' then (mode & !triad) | bits
    else mode
  }

  /** The three blocks run for a permission letter, as written: the bit is
      shifted right by three inside the group block and again inside the
      other block, so with `who == 'o'` it is shifted only once. */
  function ApplyPerm(who: char, op: char, mode: Mode, c: char): Mode
    requires IsPerm(c)
  {
    var bits := UserBit(c);
    var m1 := if who == 'u' || who == 'a' then ApplyOp(mode, op, bits, S_IRWXU) else mode;
    var bits2 := if who == 'g' || who == 'a' then bits >> 3 else bits;
    var m2 := if who == 'g' || who == 'a' then ApplyOp(m1, op, bits2, S_IRWXG) else m1;
    var bits3 := if who == 'o' || who == 'a' then bits2 >> 3 else bits2;
    if who == 'o' || who == 'a' then ApplyOp(m2, op, bits3, S_IRWXO) else m2
  }

  /** One character of the symbolic scan; anything unrecognised is skipped. */
  function Step(st: ScanState, c: char): ScanState {
    if IsWho(c) then st.(who := c)
    else if IsOp(c) then st.(op := c)
    else if IsPerm(c) then st.(mode := ApplyPerm(st.who, st.op, st.mode, c))
    else st
  }

  /** The scan of `s` from state `st`, left to right. */
  function Run(st: ScanState, s: string): ScanState
    decreases |s|
  {
    if |s| == 0 then st else Step(Run(st, s[..|s| - 1]), s[|s| - 1])
  }

  function Start(current: Mode): ScanState {
    ScanState(Unset, Unset, current)
  }

  predicate StartsWithDigit(s: string) {
    |s| > 0 && Numbers.IsDigit(s[0])
  }

  /** `parse_mode_str(s, current)`: a leading digit makes the whole argument
      an octal literal for `strtol`; otherwise the symbolic scan runs over
      `current`. */
  function ParseMode(s: string, current: Mode): Mode {
    if StartsWithDigit(s) then Numbers.ToModeT(Numbers.StrtolOctal(s))
    else Run(Start(current), s).mode
  }

  /** The scan as the source loops over the characters. */
  method ParseModeStr(s: string, current: Mode) returns (newMode: Mode)
    ensures newMode == ParseMode(s, current)
  {
    if StartsWithDigit(s) {
      return Numbers.ToModeT(Numbers.StrtolOctal(s));
    }
    newMode := current;
    var op := Unset;
    var who := Unset;
    var i := 0;
    while i < |s|
      invariant 0 <= i <= |s|
      invariant Run(Start(current), s[..i]) == ScanState(who, op, newMode)
    {
      var c := s[i];
      if IsWho(c) {
        who := c;
      } else if IsOp(c) {
        op := c;
      } else if IsPerm(c) {
        newMode := ApplyPerm(who, op, newMode, c);
      }
      assert s[..i + 1][..i] == s[..i];
      i := i + 1;
    }
    assert s[..i] == s;
  }

  // ---------------------------------------------------------------------
  // The octal form

  /** A leading digit selects the octal form, and the current mode is then
      not consulted at all. */
  lemma OctalIgnoresCurrent(s: string, a: Mode, b: Mode)
    requires StartsWithDigit(s)
    ensures ParseMode(s, a) == ParseMode(s, b) == Numbers.ToModeT(Numbers.StrtolOctal(s))
  {
  }

  /** Every mode written as octal digits is parsed back as itself. */
  lemma OctalModeRoundTrip(m: Mode, current: Mode)
    ensures ParseMode(Numbers.OctalString(m), current) == m
  {
    Numbers.OctalRoundTrip(m);
  }

  lemma OctalExamples(current: Mode)
    ensures ParseMode("644", current) == 0x1A4   // 0644
    ensures ParseMode("8", current) == 0
    ensures ParseMode("9xyz", current) == 0
  {
    Numbers.OctalExample644();
    Numbers.OctalExampleNotOctal("8");
    Numbers.OctalExampleNotOctal("9xyz");
    Numbers.ToModeTOfValue(0x1A4);
    Numbers.ToModeTOfValue(0);
  }

  // ---------------------------------------------------------------------
  // The symbolic form: what one permission letter does

  /** The permission bits of a class, as `chmod(1)` documents them. */
  function ClassMask(who: char): Mode {
    if who == 'u' then S_IRWXU
    else if who == 'g' then S_IRWXG
    else if who == 'o' then S_IRWXO
    else if who == 'a' then S_IRWXU | S_IRWXG | S_IRWXO
    else 0
  }

  /** A permission letter's bit in all three classes: 0444, 0222 or 0111. */
  function LetterBits(c: char): Mode {
    if c == 'r' then 0x124 else if c == 'w' then 0x92 else if c == 'x' then 0x49 else 0
  }

  /** The change `chmod(1)` describes for one letter under operator `op` on
      the classes in `mask`: `+` sets and `-` clears the letter's bits in
      those classes, `=` replaces the classes with them. */
  function IntendedEffect(mode: Mode, op: char, mask: Mode, c: char): Mode {
    ApplyOp(mode, op, LetterBits(c) & mask, mask)
  }

  /** What one letter does to the classes `mask` names under `+`: its bits
      are added inside the mask, and everything outside the mask (the other
      classes, the file type, setuid, setgid and sticky) is kept. */
  lemma EffectOfPlus(mode: Mode, mask: Mode, c: char)
    ensures IntendedEffect(mode, '+', mask, c) & !mask == mode & !mask
    ensures IntendedEffect(mode, '+', mask, c) & mask == (mode | LetterBits(c)) & mask
  {
    SetWithin(mode, LetterBits(c), mask);
  }

  /** Under `-` the letter's bits are removed inside the mask only. */
  lemma EffectOfMinus(mode: Mode, mask: Mode, c: char)
    ensures IntendedEffect(mode, '-', mask, c) & !mask == mode & !mask
    ensures IntendedEffect(mode, '-', mask, c) & mask == mode & !LetterBits(c) & mask
  {
    ClearWithin(mode, LetterBits(c), mask);
  }

  /** Under `=` the masked classes hold the letter's bits and nothing else. */
  lemma EffectOfAssign(mode: Mode, mask: Mode, c: char)
    ensures IntendedEffect(mode, '=', mask, c) & !mask == mode & !mask
    ensures IntendedEffect(mode, '=', mask, c) & mask == LetterBits(c) & mask
  {
    AssignWithin(mode, LetterBits(c), mask);
  }

  /** Without an operator a letter changes nothing. */
  lemma EffectWithoutOp(mode: Mode, op: char, mask: Mode, c: char)
    requires !IsOp(op)
    ensures IntendedEffect(mode, op, mask, c) == mode
  {
  }

  lemma SetWithin(m: Mode, l: Mode, mask: Mode)
    ensures (m | (l & mask)) & !mask == m & !mask
    ensures (m | (l & mask)) & mask == (m | l) & mask
  {
  }

  lemma ClearWithin(m: Mode, l: Mode, mask: Mode)
    ensures (m & !(l & mask)) & !mask == m & !mask
    ensures (m & !(l & mask)) & mask == m & !l & mask
  {
  }

  lemma AssignWithin(m: Mode, l: Mode, mask: Mode)
    ensures ((m & !mask) | (l & mask)) & !mask == m & !mask
    ensures ((m & !mask) | (l & mask)) & mask == l & mask
  {
  }

  /** The bit of a letter in each single class, and the shifts that reach it. */
  lemma LetterBitsPerClass(c: char)
    requires IsPerm(c)
    ensures UserBit(c) == LetterBits(c) & S_IRWXU
    ensures UserBit(c) >> 3 == LetterBits(c) & S_IRWXG
    ensures (UserBit(c) >> 3) >> 3 == LetterBits(c) & S_IRWXO
  {
    if c == 'r' {
    } else if c == 'w' {
    } else {
    }
  }

  /** With `who` one of u, g, a and an operator read, a permission letter
      does exactly what `chmod(1)` describes: `+` sets and `-` clears the
      addressed bits, `=` replaces the addressed triads, and every other bit
      of the mode (file type, setuid, the other classes) is kept. */
  lemma PermLetterUserGroupAll(who: char, op: char, mode: Mode, c: char)
    requires who == 'u' || who == 'g' || who == 'a'
    requires IsPerm(c)
    ensures ApplyPerm(who, op, mode, c) == IntendedEffect(mode, op, ClassMask(who), c)
  {
    if who == 'u' {
      PermLetterUser(op, mode, c);
    } else if who == 'g' {
      PermLetterGroup(op, mode, c);
    } else if op == '+' {
      AllSet(mode, c);
    } else if op == '-' {
      AllClear(mode, c);
    } else if op == '=' {
      AllAssign(mode, c);
    }
  }

  lemma PermLetterUser(op: char, mode: Mode, c: char)
    requires IsPerm(c)
    ensures ApplyPerm('u', op, mode, c) == IntendedEffect(mode, op, ClassMask('u'), c)
  {
    LetterBitsPerClass(c);
  }

  lemma PermLetterGroup(op: char, mode: Mode, c: char)
    requires IsPerm(c)
    ensures ApplyPerm('g', op, mode, c) == IntendedEffect(mode, op, ClassMask('g'), c)
  {
    LetterBitsPerClass(c);
  }

  // The 'a' blocks run the operator on the three triads one after the other;
  // for each operator that is the operator on all nine bits at once.

  /** The 'a' blocks, with each shifted bit named by its triad. */
  lemma AllBlocks(op: char, mode: Mode, c: char)
    requires IsPerm(c)
    ensures var l := LetterBits(c);
      ApplyPerm('a', op, mode, c) ==
        ApplyOp(ApplyOp(ApplyOp(mode, op, l & S_IRWXU, S_IRWXU), op, l & S_IRWXG, S_IRWXG), op, l & S_IRWXO, S_IRWXO)
  {
    LetterBitsPerClass(c);
  }

  lemma AllSet(mode: Mode, c: char)
    requires IsPerm(c)
    ensures ApplyPerm('a', '+', mode, c) == IntendedEffect(mode, '+', ClassMask('a'), c)
  {
    AllBlocks('+', mode, c);
    ThreeBlocks('+', mode, c);
  }

  lemma AllClear(mode: Mode, c: char)
    requires IsPerm(c)
    ensures ApplyPerm('a', '-', mode, c) == IntendedEffect(mode, '-', ClassMask('a'), c)
  {
    AllBlocks('-', mode, c);
    ThreeBlocks('-', mode, c);
  }

  lemma AllAssign(mode: Mode, c: char)
    requires IsPerm(c)
    ensures ApplyPerm('a', '=', mode, c) == IntendedEffect(mode, '=', ClassMask('a'), c)
  {
    AllBlocks('=', mode, c);
    ThreeBlocks('=', mode, c);
  }

  /** The operator run on the three triads in turn is the operator on the
      nine bits at once. */
  lemma ThreeBlocks(op: char, mode: Mode, c: char)
    requires op == '+' || op == '-' || op == '='
    ensures var l := LetterBits(c);
      ApplyOp(ApplyOp(ApplyOp(mode, op, l & S_IRWXU, S_IRWXU), op, l & S_IRWXG, S_IRWXG), op, l & S_IRWXO, S_IRWXO) ==
        IntendedEffect(mode, op, ClassMask('a'), c)
  {
    if op == '+' {
      SetIdentity(mode, LetterBits(c));
    } else if op == '-' {
      ClearIdentity(mode, LetterBits(c));
    } else {
      AssignIdentity(mode, LetterBits(c));
    }
  }

  lemma SetIdentity(m: Mode, l: Mode)
    ensures ((m | (l & S_IRWXU)) | (l & S_IRWXG)) | (l & S_IRWXO) ==
      m | (l & (S_IRWXU | S_IRWXG | S_IRWXO))
  {
  }

  lemma ClearIdentity(m: Mode, l: Mode)
    ensures ((m & !(l & S_IRWXU)) & !(l & S_IRWXG)) & !(l & S_IRWXO) ==
      m & !(l & (S_IRWXU | S_IRWXG | S_IRWXO))
  {
  }

  lemma AssignIdentity(m: Mode, l: Mode)
    ensures (((((m & !S_IRWXU) | (l & S_IRWXU)) & !S_IRWXG) | (l & S_IRWXG)) & !S_IRWXO) | (l & S_IRWXO) ==
      (m & !(S_IRWXU | S_IRWXG | S_IRWXO)) | (l & (S_IRWXU | S_IRWXG | S_IRWXO))
  {
  }

  /** With `who == 'o'` the bit is shifted once only, so `+` and `-` act on
      the group bit, and `=` clears the other triad and then sets the group
      bit. */
  lemma PermLetterOther(op: char, mode: Mode, c: char)
    requires IsPerm(c)
    ensures ApplyPerm('o', op, mode, c) == ApplyOp(mode, op, LetterBits(c) & S_IRWXG, S_IRWXO)
  {
    LetterBitsPerClass(c);
  }

  /** A permission letter read before a class letter, or before an operator,
      leaves the mode alone. */
  lemma PermLetterUnaddressed(who: char, op: char, mode: Mode, c: char)
    requires IsPerm(c)
    requires who == Unset || op == Unset
    ensures ApplyPerm(who, op, mode, c) == mode
  {
  }

  // ---------------------------------------------------------------------
  // The symbolic form: the scan as a whole

  /** Scanning two pieces one after the other is scanning their
      concatenation. */
  lemma {:induction false} RunAppend(st: ScanState, s: string, t: string)
    ensures Run(st, s + t) == Run(Run(st, s), t)
    decreases |t|
  {
    if |t| > 0 {
      assert (s + t)[..|s + t| - 1] == s + t[..|t| - 1];
      RunAppend(st, s, t[..|t| - 1]);
    } else {
      assert s + t == s;
    }
  }

  /** Only the registers and the mode matter for the rest of the scan. */
  lemma SameStateSameRest(s1: string, s2: string, t: string, current: Mode)
    requires Run(Start(current), s1) == Run(Start(current), s2)
    ensures Run(Start(current), s1 + t) == Run(Start(current), s2 + t)
  {
    RunAppend(Start(current), s1, t);
    RunAppend(Start(current), s2, t);
  }

  /** `who` holds a single letter: of two class letters in a row the first
      has no effect on anything that follows. */
  lemma LastClassLetterWins(s: string, w1: char, w2: char, t: string, current: Mode)
    requires IsWho(w1) && IsWho(w2)
    ensures Run(Start(current), s + [w1, w2] + t) == Run(Start(current), s + [w2] + t)
  {
    var st := Run(Start(current), s);
    RunAppend(Start(current), s, [w1, w2]);
    RunAppend(Start(current), s, [w2]);
    assert [w1, w2][..1] == [w1];
    assert [w2][..0] == [];
    assert [w1][..0] == [];
    SameStateSameRest(s + [w1, w2], s + [w2], t, current);
  }

  /** Characters that are neither class, operator nor permission letters
      are skipped. */
  lemma UnrecognisedSkipped(st: ScanState, c: char)
    requires !IsWho(c) && !IsOp(c) && !IsPerm(c)
    ensures Step(st, c) == st
  {
  }

  /** Without any class letter, or without any operator, the symbolic form
      leaves the mode as it was; in particular the empty string does. */
  lemma {:induction false} NoClassOrNoOpKeepsMode(s: string, current: Mode)
    ensures (forall i :: 0 <= i < |s| ==> !IsWho(s[i])) ==>
      Run(Start(current), s).who == Unset && Run(Start(current), s).mode == current
    ensures (forall i :: 0 <= i < |s| ==> !IsOp(s[i])) ==>
      Run(Start(current), s).op == Unset && Run(Start(current), s).mode == current
    decreases |s|
  {
    if |s| > 0 {
      var init := s[..|s| - 1];
      assert forall i :: 0 <= i < |init| ==> init[i] == s[i];
      NoClassOrNoOpKeepsMode(init, current);
    }
  }

  lemma EmptyKeepsMode(current: Mode)
    ensures ParseMode("", current) == current
  {
  }

  /** A permission letter after a scan whose registers hold u, g or a and an
      operator: the addressed triad changes as `chmod(1)` says, and nothing
      else. */
  lemma AppendPermLetter(s: string, c: char, current: Mode)
    requires !StartsWithDigit(s) && IsPerm(c)
    requires Run(Start(current), s).who in {'u', 'g', 'a'}
    ensures ParseMode(s + [c], current) ==
      IntendedEffect(ParseMode(s, current), Run(Start(current), s).op,
                     ClassMask(Run(Start(current), s).who), c)
  {
    var st := Run(Start(current), s);
    assert (s + [c])[..|s|] == s;
    assert !StartsWithDigit(s + [c]) by {
      if |s| > 0 { assert (s + [c])[0] == s[0]; }
    }
    PermLetterUserGroupAll(st.who, st.op, st.mode, c);
  }

  // ---------------------------------------------------------------------
  // Worked examples

  lemma ExampleUserPlusX()
    ensures ParseMode("u+x", 0x1A4) == 0x1E4       // 0644 -> 0744
  {
    var st := Start(0x1A4);
    assert "u+x"[..2] == "u+" && "u+"[..1] == "u" && "u"[..0] == [];
    assert Run(st, "u") == ScanState('u', Unset, 0x1A4);
    assert Run(st, "u+") == ScanState('u', '+', 0x1A4);
  }

  /** "go-w" acts as "o-w", which clears the group write bit. */
  lemma ExampleGoMinusW()
    ensures ParseMode("go-w", 0x1B6) == 0x1A6      // 0666 -> 0646
  {
    var st := Start(0x1B6);
    assert "go-w"[..3] == "go-" && "go-"[..2] == "go" && "go"[..1] == "g" && "g"[..0] == [];
    assert Run(st, "g") == ScanState('g', Unset, 0x1B6);
    assert Run(st, "go") == ScanState('o', Unset, 0x1B6);
    assert Run(st, "go-") == ScanState('o', '-', 0x1B6);
  }

  /** Under `=` each letter replaces the triad: "u=rw" leaves only w. */
  lemma ExampleUserSetRw()
    ensures ParseMode("u=rw", 0x1A4) == 0xA4       // 0644 -> 0244
  {
    var st := Start(0x1A4);
    assert "u=rw"[..3] == "u=r" && "u=r"[..2] == "u=" && "u="[..1] == "u" && "u"[..0] == [];
    assert Run(st, "u") == ScanState('u', Unset, 0x1A4);
    assert Run(st, "u=") == ScanState('u', '=', 0x1A4);
    assert Run(st, "u=r") == ScanState('u', '=', 0x124);
  }

  lemma ExampleAllPlusX()
    ensures ParseMode("a+x", 0x1A4) == 0x1ED       // 0644 -> 0755
  {
    var st := Start(0x1A4);
    assert "a+x"[..2] == "a+" && "a+"[..1] == "a" && "a"[..0] == [];
    assert Run(st, "a") == ScanState('a', Unset, 0x1A4);
    assert Run(st, "a+") == ScanState('a', '+', 0x1A4);
  }

  // ---------------------------------------------------------------------
  // The corrected parser

  /** State of the intended scan: the classes named by the current run of
      class letters, whether the last character was a class letter, the
      operator and the mode. */
  datatype IntendedState = IntendedState(mask: Mode, inClasses: bool, op: char, mode: Mode)

  /** Class letters accumulate until something else is read; each class is
      addressed through its own triad. */
  function IntendedStep(st: IntendedState, c: char): IntendedState {
    if IsWho(c) then
      st.(mask := (if st.inClasses then st.mask else 0) | ClassMask(c), inClasses := true)
    else if IsOp(c) then st.(op := c, inClasses := false)
    else if IsPerm(c) then st.(mode := IntendedEffect(st.mode, st.op, st.mask, c), inClasses := false)
    else st.(inClasses := false)
  }

  function IntendedRun(st: IntendedState, s: string): IntendedState
    decreases |s|
  {
    if |s| == 0 then st else IntendedStep(IntendedRun(st, s[..|s| - 1]), s[|s| - 1])
  }

  lemma IntendedStepPerm(st: IntendedState, c: char)
    requires IsPerm(c)
    ensures IntendedStep(st, c) == st.(mode := IntendedEffect(st.mode, st.op, st.mask, c), inClasses := false)
  {
  }

  lemma IntendedStepOp(st: IntendedState, c: char)
    requires IsOp(c)
    ensures IntendedStep(st, c) == st.(op := c, inClasses := false)
  {
  }

  /** The corrected parser: `parse_mode_str` with a run of class letters
      accumulated and each named class addressed in its own triad. It is
      not the whole of `chmod(1)`: `=` still replaces the triad letter by
      letter, and a clause without class letters changes nothing rather
      than acting on every class under the umask (`IntendedLimits`). */
  function ParseModeIntended(s: string, current: Mode): Mode {
    if StartsWithDigit(s) then Numbers.ToModeT(Numbers.StrtolOctal(s))
    else IntendedRun(IntendedState(0, false, Unset, current), s).mode
  }

  /** The union of the classes a run of class letters names. */
  function ClassesMask(ws: string): Mode {
    if |ws| == 0 then 0 else ClassesMask(ws[..|ws| - 1]) | ClassMask(ws[|ws| - 1])
  }

  /** A clause of class letters, an operator and a permission letter acts on
      exactly the named classes. */
  lemma IntendedClause(ws: string, op: char, c: char, current: Mode)
    requires |ws| > 0 && forall i :: 0 <= i < |ws| ==> IsWho(ws[i])
    requires IsOp(op) && IsPerm(c)
    ensures ParseModeIntended(ws + [op, c], current) ==
      IntendedEffect(current, op, ClassesMask(ws), c)
  {
    var s := ws + [op, c];
    assert s[0] == ws[0];
    assert s[..|s| - 1] == ws + [op];
    assert (ws + [op])[..|ws|] == ws;
    IntendedClassRun(ws, current);
    var st0 := IntendedState(0, false, Unset, current);
    var st1 := IntendedRun(st0, ws + [op]);
    IntendedStepOp(IntendedRun(st0, ws), op);
    assert st1 == IntendedState(ClassesMask(ws), false, op, current);
    assert IntendedRun(st0, s) == IntendedStep(st1, c);
    IntendedStepPerm(st1, c);
  }

  lemma {:induction false} IntendedClassRun(ws: string, current: Mode)
    requires |ws| > 0 && forall i :: 0 <= i < |ws| ==> IsWho(ws[i])
    ensures IntendedRun(IntendedState(0, false, Unset, current), ws) ==
      IntendedState(ClassesMask(ws), true, Unset, current)
    decreases |ws|
  {
    var init := ws[..|ws| - 1];
    if |init| > 0 {
      assert forall i :: 0 <= i < |init| ==> init[i] == ws[i];
      IntendedClassRun(init, current);
    } else {
      assert ClassesMask(init) == 0;
    }
  }

  /** "go-w" on 0666 gives 0644 under the intended reading, and "o+x" sets
      the other-execute bit. */
  lemma IntendedExamples()
    ensures ParseModeIntended("go-w", 0x1B6) == 0x1A4   // 0666 -> 0644
    ensures ParseModeIntended("o+x", 0) == S_IXOTH
  {
    assert "go-w" == "go" + ['-', 'w'];
    assert "go"[..1] == "g" && "g"[..0] == [];
    IntendedClause("go", '-', 'w', 0x1B6);
    assert "o+x" == "o" + ['+', 'x'];
    assert "o"[..0] == [];
    IntendedClause("o", '+', 'x', 0);
  }

  /** Where the corrected parser still differs from `chmod(1)`: "u=rw" on
      0644 keeps only w (0244, not 0644), and "+x" without a class letter
      changes nothing. */
  lemma IntendedLimits()
    ensures ParseModeIntended("u=rw", 0x1A4) == 0xA4
    ensures ParseModeIntended("+x", 0x1A4) == 0x1A4
  {
    var st := IntendedState(0, false, Unset, 0x1A4);
    assert "u=rw"[..3] == "u=r" && "u=r"[..2] == "u=" && "u="[..1] == "u" && "u"[..0] == [];
    assert IntendedRun(st, "u") == IntendedState(S_IRWXU, true, Unset, 0x1A4);
    assert IntendedRun(st, "u=") == IntendedState(S_IRWXU, false, '=', 0x1A4);
    EffectOfAssign(0x1A4, S_IRWXU, 'r');
    assert IntendedRun(st, "u=r") == IntendedState(S_IRWXU, false, '=', 0x124);
    EffectOfAssign(0x124, S_IRWXU, 'w');
    assert "+x"[..1] == "+" && "+"[..0] == [];
    assert IntendedRun(st, "+") == IntendedState(0, false, '+', 0x1A4);
    EffectOfPlus(0x1A4, 0, 'x');
  }

  /** The source as written and the corrected parser part ways on "go-w"
      over 0666: 0646 against 0644. */
  lemma GoMinusWDiffers()
    ensures ParseMode("go-w", 0x1B6) != ParseModeIntended("go-w", 0x1B6)
  {
    ExampleGoMinusW();
    IntendedExamples();
  }

  /** The same clause on a regular file, whose `st_mode` carries S_IFREG:
      the type bits pass through both parsers untouched. */
  lemma GoMinusWOnRegularFile()
    ensures ParseMode("go-w", S_IFREG | 0x1B6) == S_IFREG | 0x1A6
    ensures ParseModeIntended("go-w", S_IFREG | 0x1B6) == S_IFREG | 0x1A4
  {
    var m: Mode := S_IFREG | 0x1B6;
    var st := Start(m);
    assert "go-w"[..3] == "go-" && "go-"[..2] == "go" && "go"[..1] == "g" && "g"[..0] == [];
    assert Run(st, "g") == ScanState('g', Unset, m);
    assert Run(st, "go") == ScanState('o', Unset, m);
    assert Run(st, "go-") == ScanState('o', '-', m);
    assert "go-w" == "go" + ['-', 'w'];
    IntendedClause("go", '-', 'w', m);
    EffectOfMinus(m, ClassesMask("go"), 'w');
  }

  /** The two readings agree on every clause with a single class letter
      other than 'o'. */
  lemma IntendedAgreesOnSingleClass(w: char, op: char, c: char, current: Mode)
    requires w in {'u', 'g', 'a'} && IsOp(op) && IsPerm(c)
    ensures ParseMode([w, op, c], current) == ParseModeIntended([w, op, c], current)
  {
    var s := [w, op];
    assert s[..1] == [w] && [w][..0] == [];
    assert Run(Start(current), [w]) == ScanState(w, Unset, current);
    assert Run(Start(current), s) == ScanState(w, op, current);
    AppendPermLetter(s, c, current);
    assert s + [c] == [w, op, c];
    assert ClassesMask([w]) == ClassMask(w);
    IntendedClause([w], op, c, current);
    assert [w] + [op, c] == [w, op, c];
  }
}
