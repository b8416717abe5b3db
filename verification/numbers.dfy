/** The C library's number parsing as the shell uses it: `strtol(s, NULL, 8)`
    for octal modes and `atoi` for process ids and signal numbers, with the
    range clamping and the conversions to the narrower C types written out. */
module Numbers {
  import opened Base

  const LongMax: int := 0x7FFF_FFFF_FFFF_FFFF
  const LongMin: int := -0x8000_0000_0000_0000
  const TwoTo32: int := 0x1_0000_0000

  predicate IsDigit(c: char) {
    '0' <= c <= '9'
  }

  predicate IsOctalDigit(c: char) {
    '0' <= c <= '7'
  }

  /** `isspace` in the C locale. */
  predicate IsSpace(c: char) {
    c == ' ' || c == '\t' || c == '\n' || c == '\r' || c as int == 0x0B || c as int == 0x0C
  }

  predicate AllDigits(ds: string, base: nat) {
    forall i :: 0 <= i < |ds| ==> IsDigit(ds[i]) && DigitValue(ds[i]) < base
  }

  function DigitValue(c: char): nat
    requires IsDigit(c)
  {
    (c as int) - ('0' as int)
  }

  function DigitChar(d: nat): (c: char)
    requires d < 10
    ensures IsDigit(c) && DigitValue(c) == d
  {
    (('0' as int) + d) as char
  }

  /** The value of a digit string in `base`, most significant digit first. */
  function DigitsValue(ds: string, base: nat): nat
    requires AllDigits(ds, base)
  {
    if |ds| == 0 then 0
    else DigitsValue(ds[..|ds| - 1], base) * base + DigitValue(ds[|ds| - 1])
  }

  /** The longest prefix of `s` made of digits below `base`: what `strtol`
      consumes. */
  function LeadingDigits(s: string, base: nat): (ds: string)
    requires base <= 10
    ensures IsPrefix(ds, s) && AllDigits(ds, base)
    ensures |ds| < |s| ==> !(IsDigit(s[|ds|]) && DigitValue(s[|ds|]) < base)
  {
    if |s| > 0 && IsDigit(s[0]) && DigitValue(s[0]) < base then
      [s[0]] + LeadingDigits(s[1..], base)
    else []
  }

  /** Reading a digit string does not look past its first non-digit. */
  lemma {:induction false} LeadingDigitsAppend(ds: string, rest: string, base: nat)
    requires base <= 10 && AllDigits(ds, base)
    requires |rest| == 0 || !(IsDigit(rest[0]) && DigitValue(rest[0]) < base)
    ensures LeadingDigits(ds + rest, base) == ds
  {
    if |ds| > 0 {
      assert (ds + rest)[1..] == ds[1..] + rest;
      LeadingDigitsAppend(ds[1..], rest, base);
    } else {
      assert ds + rest == rest;
    }
  }

  /** `strtol(s, NULL, 8)` when `s` starts with a digit (no blank or sign can
      come first): the value of the leading octal digits, saturated at
      `LONG_MAX` on overflow; 0 when no octal digit leads. */
  function StrtolOctal(s: string): (v: int)
    ensures 0 <= v <= LongMax
  {
    var ds := LeadingDigits(s, 8);
    if DigitsValue(ds, 8) > LongMax then LongMax else DigitsValue(ds, 8)
  }

  /** The implicit conversion of a `long` to the unsigned 32-bit `mode_t`. */
  function ToModeT(v: int): Mode {
    (v % TwoTo32) as Mode
  }

  function Pow(b: nat, e: nat): (r: nat)
    ensures b > 0 ==> r > 0
  {
    if e == 0 then 1 else b * Pow(b, e - 1)
  }

  /** `n` as exactly `width` octal digits, most significant first. */
  function OctalDigits(n: nat, width: nat): (ds: string)
    ensures |ds| == width && AllDigits(ds, 8)
  {
    if width == 0 then []
    else OctalDigits(n / 8, width - 1) + [DigitChar(n % 8)]
  }

  lemma MulAtLeast(d: int, x: int)
    requires d > 0 && x >= 1
    ensures d * x >= d
    decreases x
  {
    if x > 1 {
      MulAtLeast(d, x - 1);
      assert d * x == d * (x - 1) + d;
    }
  }

  /** Euclidean division has a single remainder. */
  lemma ModUnique(n: int, d: int, a: int, c: int)
    requires d > 0 && n == d * a + c && 0 <= c < d
    ensures n % d == c
  {
    var q, r := n / d, n % d;
    assert n == d * q + r;
    assert d * (a - q) == r - c;
    if a - q >= 1 {
      MulAtLeast(d, a - q);
      assert false;
    } else if q - a >= 1 {
      MulAtLeast(d, q - a);
      assert false;
    }
  }

  lemma ModOfShifted(n: nat, p: nat)
    requires p > 0
    ensures ((n / 8) % p) * 8 + n % 8 == n % (8 * p)
  {
    var q, r := n / 8, n % 8;
    var a, b := q / p, q % p;
    assert q == p * a + b;
    assert n == (8 * p) * a + (8 * b + r);
    ModUnique(n, 8 * p, a, 8 * b + r);
  }

  /** Writing `width` octal digits and reading them back gives `n` modulo
      `8^width`. */
  lemma {:induction false} OctalDigitsValue(n: nat, width: nat)
    ensures DigitsValue(OctalDigits(n, width), 8) == n % Pow(8, width)
  {
    if width > 0 {
      var ds := OctalDigits(n, width);
      var init := OctalDigits(n / 8, width - 1);
      assert ds[..|ds| - 1] == init;
      assert DigitsValue(ds, 8) == DigitsValue(init, 8) * 8 + n % 8;
      OctalDigitsValue(n / 8, width - 1);
      ModOfShifted(n, Pow(8, width - 1));
    }
  }

  /** Eleven octal digits hold every 32-bit mode. */
  function OctalString(m: Mode): (s: string)
    ensures |s| == 11 && AllDigits(s, 8)
  {
    OctalDigits(ModeValue(m), 11)
  }

  function ModeValue(m: Mode): (n: nat)
    ensures n < TwoTo32
  {
    m as nat
  }

  /** Octal text produced by `OctalString` is read back by `strtol` and the
      conversion to `mode_t` as the mode it was written from. */
  lemma OctalRoundTrip(m: Mode)
    ensures ToModeT(StrtolOctal(OctalString(m))) == m
  {
    OctalStringValue(ModeValue(m));
    ToModeTOfValue(m);
  }

  /** Eleven octal digits of a 32-bit value read back as that value. */
  lemma OctalStringValue(n: nat)
    requires n < TwoTo32
    ensures StrtolOctal(OctalDigits(n, 11)) == n
  {
    var s := OctalDigits(n, 11);
    LeadingDigitsAppend(s, [], 8);
    assert s + [] == s;
    OctalDigitsValue(n, 11);
    PowEightEleven();
    SmallMod(n, Pow(8, 11));
  }

  lemma PowEightEleven()
    ensures Pow(8, 11) == 0x2_0000_0000
  {
    assert Pow(8, 2) == 64;
    assert Pow(8, 4) == 4096;
    assert Pow(8, 6) == 0x4_0000;
    assert Pow(8, 8) == 0x100_0000;
    assert Pow(8, 10) == 0x4000_0000;
  }

  lemma SmallMod(x: nat, p: nat)
    requires x < p
    ensures x % p == x
  {
  }

  /** A 32-bit value survives the trip through `long` and back. */
  lemma ToModeTOfValue(m: Mode)
    ensures ToModeT(ModeValue(m)) == m
  {
    SmallMod(m as int, TwoTo32);
  }

  lemma OctalExample644()
    ensures StrtolOctal("644") == 0x1A4
  {
    LeadingDigitsAppend("644", [], 8);
    assert "644" + [] == "644";
    assert "644"[..2] == "64" && "64"[..1] == "6" && "6"[..0] == [];
  }

  lemma OctalExampleTrailing()
    ensures StrtolOctal("64a") == 52
  {
    LeadingDigitsAppend("64", "a", 8);
    assert "64" + "a" == "64a";
    assert "64"[..1] == "6" && "6"[..0] == [];
  }

  /** '8' and '9' are digits for the octal test but not octal digits. */
  lemma OctalExampleNotOctal(s: string)
    requires |s| > 0 && (s[0] == '8' || s[0] == '9')
    ensures StrtolOctal(s) == 0
  {
  }

  /** The C `int` a `long` becomes on a 64-bit Linux host: the low 32 bits,
      read as two's complement. */
  function ToInt32(v: int): (r: int)
    ensures -0x8000_0000 <= r < 0x8000_0000
    ensures (r - v) % TwoTo32 == 0
  {
    var low := v % TwoTo32;
    if low < 0x8000_0000 then low else low - TwoTo32
  }

  function SkipSpaces(s: string): (r: string)
    ensures |r| <= |s|
    ensures |r| > 0 ==> !IsSpace(r[0])
  {
    if |s| > 0 && IsSpace(s[0]) then SkipSpaces(s[1..]) else s
  }

  /** `strtol(s, NULL, 10)`: blanks, an optional sign, the leading decimal
      digits, saturated to the `long` range. */
  function StrtolDecimal(s: string): (v: int)
    ensures LongMin <= v <= LongMax
  {
    SignedValue(SkipSpaces(s))
  }

  function SignedValue(t: string): int {
    if |t| > 0 && t[0] == '-' then Saturate(-(UnsignedValue(t[1..]) as int))
    else if |t| > 0 && t[0] == '+' then Saturate(UnsignedValue(t[1..]))
    else Saturate(UnsignedValue(t))
  }

  function UnsignedValue(t: string): nat {
    DigitsValue(LeadingDigits(t, 10), 10)
  }

  function Saturate(v: int): (r: int)
    ensures LongMin <= r <= LongMax
  {
    if v > LongMax then LongMax else if v < LongMin then LongMin else v
  }

  lemma UnsignedValueOfDigits(ds: string, rest: string)
    requires AllDigits(ds, 10)
    requires |rest| == 0 || !IsDigit(rest[0])
    ensures UnsignedValue(ds + rest) == DigitsValue(ds, 10)
  {
    LeadingDigitsAppend(ds, rest, 10);
  }

  /** `atoi` as glibc implements it: `(int) strtol(s, NULL, 10)`. */
  function Atoi(s: string): (r: int)
    ensures -0x8000_0000 <= r < 0x8000_0000
  {
    ToInt32(StrtolDecimal(s))
  }

  /** The shortest decimal text of `n`. */
  function DecimalString(n: nat): (ds: string)
    ensures |ds| > 0 && AllDigits(ds, 10)
  {
    if n < 10 then [DigitChar(n)] else DecimalString(n / 10) + [DigitChar(n % 10)]
  }

  lemma {:induction false} DecimalStringValue(n: nat)
    ensures DigitsValue(DecimalString(n), 10) == n
  {
    if n >= 10 {
      var ds := DecimalString(n);
      assert ds[..|ds| - 1] == DecimalString(n / 10);
      DecimalStringValue(n / 10);
    }
  }

  /** Decimal text with a '-' in front of negative values. */
  function DecimalText(n: int): string {
    if n < 0 then "-" + DecimalString(-n) else DecimalString(n)
  }

  /** `int` values are left alone by the conversion from `long`. */
  lemma ToInt32Small(v: int)
    requires -0x8000_0000 <= v < 0x8000_0000
    ensures ToInt32(v) == v
  {
    if v < 0 {
      ModUnique(v, TwoTo32, -1, v + TwoTo32);
    } else {
      SmallMod(v, TwoTo32);
    }
  }

  lemma StrtolDecimalRoundTrip(n: int)
    requires LongMin <= n <= LongMax
    ensures StrtolDecimal(DecimalText(n)) == n
  {
    if n < 0 {
      NegativeRoundTrip(DecimalString(-n), -n);
    } else {
      UnsignedRoundTrip(DecimalString(n), n);
    }
  }

  lemma UnsignedRoundTrip(ds: string, n: nat)
    requires n <= LongMax && ds == DecimalString(n)
    ensures StrtolDecimal(ds) == n
  {
    UnsignedValueOfDigits(ds, []);
    assert ds + [] == ds;
    DecimalStringValue(n);
    assert SkipSpaces(ds) == ds;
  }

  lemma NegativeRoundTrip(ds: string, n: nat)
    requires n <= -LongMin && ds == DecimalString(n)
    ensures StrtolDecimal("-" + ds) == -(n as int)
  {
    UnsignedValueOfDigits(ds, []);
    assert ds + [] == ds;
    DecimalStringValue(n);
    var s := "-" + ds;
    assert SkipSpaces(s) == s;
    assert s[1..] == ds;
  }

  /** `atoi` reads back every `int` written in decimal. */
  lemma AtoiRoundTrip(n: int)
    requires -0x8000_0000 <= n < 0x8000_0000
    ensures Atoi(DecimalText(n)) == n
  {
    StrtolDecimalRoundTrip(n);
    ToInt32Small(n);
  }

  predicate NoDigits(s: string) {
    forall i :: 0 <= i < |s| ==> !IsDigit(s[i])
  }

  /** Any text without a digit reads as 0, whatever blanks and sign come
      first. */
  lemma AtoiNoDigits(s: string)
    requires NoDigits(s)
    ensures Atoi(s) == 0
  {
    var t := SkipSpaces(s);
    SkipSpacesNoDigits(s);
    NoDigitsNoValue(t);
    if |t| > 0 {
      NoDigitsNoValue(t[1..]);
    }
    ToInt32Small(0);
  }

  lemma {:induction false} SkipSpacesNoDigits(s: string)
    requires NoDigits(s)
    ensures NoDigits(SkipSpaces(s))
    decreases |s|
  {
    if |s| > 0 && IsSpace(s[0]) {
      assert forall i :: 0 <= i < |s| - 1 ==> s[1..][i] == s[i + 1];
      SkipSpacesNoDigits(s[1..]);
    }
  }

  lemma NoDigitsNoValue(t: string)
    requires NoDigits(t)
    ensures UnsignedValue(t) == 0
  {
    assert LeadingDigits(t, 10) == [];
  }

  lemma AtoiTrailing()
    ensures Atoi("12x") == 12
  {
    UnsignedValueOfDigits("12", "x");
    assert "12" + "x" == "12x";
    assert "12"[..1] == "1" && "1"[..0] == [];
    assert SkipSpaces("12x") == "12x";
    assert StrtolDecimal("12x") == 12;
    ToInt32Small(12);
  }
}
