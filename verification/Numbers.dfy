/** Printing numbers and `strtoull` / `strtoul` (section 7.22.1.4 of ISO/IEC 9899:2011). */
module Numbers {

  const ULLONG_MAX: nat := 0xFFFF_FFFF_FFFF_FFFF

  // ----- Printing

  function DigitChar(d: nat): char
    requires d < 16
  {
    if d < 10 then ('0' as int + d) as char else ('a' as int + d - 10) as char
  }

  /** The digits of `n`, without leading zeros. */
  function Print(n: nat, base: nat): (s: string)
    requires base == 10 || base == 16
    ensures s != []
  {
    if n < base then [DigitChar(n)] else Print(n / base, base) + [DigitChar(n % base)]
  }

  /** The number format of jevents.py: plain below ten, otherwise hexadecimal with a prefix. */
  function Llx(n: nat): string {
    if n < 10 then Print(n, 10) else "0x" + Print(n, 16)
  }

  // ----- Reading

  predicate IsDigit(c: char) { '0' <= c <= '9' }

  predicate IsSpace(c: char) {
    c == ' ' || '\t' <= c <= '\r'
  }

  /** The value of a digit in bases up to 36; 36 for other characters. */
  function DigitValue(c: char): nat {
    if '0' <= c <= '9' then c as int - '0' as int
    else if 'a' <= c <= 'z' then c as int - 'a' as int + 10
    else if 'A' <= c <= 'Z' then c as int - 'A' as int + 10
    else 36
  }

  function DigitRun(s: string, base: nat): (n: nat)
    ensures n <= |s|
  {
    if s != [] && DigitValue(s[0]) < base then 1 + DigitRun(s[1..], base) else 0
  }

  /** The bases of the calls in this library, and the one that base 0 can turn into. */
  type Base = b: nat | b == 8 || b == 10 || b == 16 witness 10

  function Times(base: Base, x: nat): nat {
    if base == 10 then 10 * x else if base == 16 then 16 * x else 8 * x
  }

  function ValueOf(s: string, base: Base): nat {
    if s == [] then 0 else Times(base, ValueOf(s[..|s| - 1], base)) + DigitValue(s[|s| - 1])
  }

  predicate HexPrefix(s: string) {
    |s| >= 3 && s[0] == '0' && (s[1] == 'x' || s[1] == 'X') && DigitValue(s[2]) < 16
  }

  /** Base 0 takes the base from the prefix. */
  function EffectiveBase(u: string, base: nat): Base
    requires base in {0, 10, 16}
  {
    if base != 0 then base else if HexPrefix(u) then 16 else if u != [] && u[0] == '0' then 8 else 10
  }

  /** The digits after the sign: their value, and how many characters they take. */
  function Magnitude(u: string, base: nat): (r: (nat, nat))
    requires base in {0, 10, 16}
    ensures r.1 <= |u|
  {
    var b := EffectiveBase(u, base);
    var skip := if b == 16 && HexPrefix(u) then 2 else 0;
    var n := DigitRun(u[skip..], b);
    if n == 0 then (0, 0) else (ValueOf(u[skip..][..n], b), skip + n)
  }

  function Signed(t: string, base: nat): (r: (nat, nat))
    requires base in {0, 10, 16}
    ensures r.0 <= ULLONG_MAX && r.1 <= |t|
  {
    var sign := if t != [] && (t[0] == '-' || t[0] == '+') then 1 else 0;
    var (x, used) := Magnitude(t[sign..], base);
    if used == 0 then (0, 0)
    else if x > ULLONG_MAX then (ULLONG_MAX, sign + used)
    else (if sign == 1 && t[0] == '-' && x != 0 then ULLONG_MAX + 1 - x else x, sign + used)
  }

  /**
   * The converted value and the number of characters used (0 if there is no number). White space is skipped,
   * values out of range give ULLONG_MAX, and a minus sign negates modulo 2^64.
   */
  function StrToULL(s: string, base: nat): (r: (nat, nat))
    requires base in {0, 10, 16}
    ensures r.0 <= ULLONG_MAX && r.1 <= |s|
  {
    if s != [] && IsSpace(s[0]) then
      var (x, used) := StrToULL(s[1..], base);
      if used == 0 then (0, 0) else (x, 1 + used)
    else Signed(s, base)
  }

  /** The nearest 64-bit value. */
  function Clamp(n: nat): (c: nat)
    ensures c <= ULLONG_MAX
  {
    if n > ULLONG_MAX then ULLONG_MAX else n
  }

  // ----- Reading what was printed

  lemma DigitRoundTrip(d: nat)
    requires d < 16
    ensures DigitValue(DigitChar(d)) == d && !IsSpace(DigitChar(d))
    ensures DigitChar(d) != '-' && DigitChar(d) != '+' && DigitChar(d) != 'x' && DigitChar(d) != 'X'
    ensures DigitChar(d) == '0' <==> d == 0
  {
  }

  ghost predicate AllDigits(s: string, base: nat) {
    forall i :: 0 <= i < |s| ==> DigitValue(s[i]) < base
  }

  lemma ValueOfMore(head: string, last: char, base: Base)
    ensures ValueOf(head + [last], base) == Times(base, ValueOf(head, base)) + DigitValue(last)
  {
    assert (head + [last])[..|head|] == head;
  }

  lemma QuotientAndDigit(n: nat, base: nat)
    requires base == 10 || base == 16
    ensures Times(base, n / base) + n % base == n
  {
    if base == 10 { assert n == n / 10 * 10 + n % 10; } else { assert n == n / 16 * 16 + n % 16; }
  }

  lemma OneDigit(digit: char, base: Base)
    ensures ValueOf([digit], base) == DigitValue(digit)
  {
    assert [digit][..0] == [];
  }

  lemma {:induction false} PrintValue(n: nat, base: nat)
    requires base == 10 || base == 16
    ensures ValueOf(Print(n, base), base) == n
  {
    hide ValueOf, Times;
    DigitRoundTrip(n % base);
    if n < base {
      OneDigit(DigitChar(n), base);
    } else {
      PrintValue(n / base, base);
      ValueOfMore(Print(n / base, base), DigitChar(n % base), base);
      QuotientAndDigit(n, base);
    }
  }

  lemma {:induction false} PrintDigits(n: nat, base: nat)
    requires base == 10 || base == 16
    ensures AllDigits(Print(n, base), base)
    ensures var c := Print(n, base)[0]; !IsSpace(c) && c != '-' && c != '+' && (c == '0' <==> n == 0)
  {
    DigitRoundTrip(n % base);
    if n < base {
      assert n % base == n;
    } else {
      PrintDigits(n / base, base);
    }
  }

  lemma {:induction false} DigitRunOf(digits: string, rest: string, base: nat)
    requires AllDigits(digits, base)
    requires rest != [] ==> DigitValue(rest[0]) >= base
    ensures DigitRun(digits + rest, base) == |digits|
  {
    if digits == [] {
      assert digits + rest == rest;
    } else {
      assert (digits + rest)[1..] == digits[1..] + rest;
      DigitRunOf(digits[1..], rest, base);
    }
  }

  predicate Unsigned(s: string) {
    s != [] && !IsSpace(s[0]) && s[0] != '-' && s[0] != '+'
  }

  lemma MagnitudeReads(s: string, base: nat, b: Base, skip: nat, digits: string, rest: string)
    requires base in {0, 10, 16} && b == EffectiveBase(s, base)
    requires skip == (if b == 16 && HexPrefix(s) then 2 else 0)
    requires s[skip..] == digits + rest && digits != []
    requires AllDigits(digits, b)
    requires rest != [] ==> DigitValue(rest[0]) >= b
    ensures Magnitude(s, base) == (ValueOf(digits, b), skip + |digits|)
  {
    DigitRunOf(digits, rest, b);
    assert (digits + rest)[..|digits|] == digits;
  }

  lemma UnsignedReads(s: string, base: nat)
    requires base in {0, 10, 16}
    requires Unsigned(s) && Magnitude(s, base).1 > 0
    ensures var (x, used) := Magnitude(s, base); StrToULL(s, base) == (Clamp(x), used)
  {
    assert s[0..] == s;
  }

  /** A decimal number is read back in base 10, up to the first character that is not a digit. */
  lemma DecimalReadsBack(n: nat, rest: string)
    requires rest != [] ==> DigitValue(rest[0]) >= 10
    ensures StrToULL(Print(n, 10) + rest, 10) == (Clamp(n), |Print(n, 10)|)
  {
    var s := Print(n, 10) + rest;
    PrintValue(n, 10);
    PrintDigits(n, 10);
    assert s[0..] == s;
    MagnitudeReads(s, 10, 10, 0, Print(n, 10), rest);
    UnsignedReads(s, 10);
  }

  /** In base 0 a decimal number is read back too: it is printed without a leading zero. */
  lemma DecimalReadsBackInBaseZero(n: nat, rest: string)
    requires rest != [] ==> DigitValue(rest[0]) >= 10 && rest[0] != 'x' && rest[0] != 'X'
    ensures StrToULL(Print(n, 10) + rest, 0) == (Clamp(n), |Print(n, 10)|)
  {
    var digits := Print(n, 10);
    var s := digits + rest;
    PrintValue(n, 10);
    PrintDigits(n, 10);
    assert s[0..] == s && s[0] == digits[0];
    if n == 0 {
      ZeroReadsBack(rest);
    } else {
      MagnitudeReads(s, 0, 10, 0, digits, rest);
      UnsignedReads(s, 0);
    }
  }

  lemma ZeroReadsBack(rest: string)
    requires rest != [] ==> DigitValue(rest[0]) >= 10 && rest[0] != 'x' && rest[0] != 'X'
    ensures StrToULL("0" + rest, 0) == (0, 1)
  {
    var s := "0" + rest;
    ValueOfMore([], '0', 8);
    assert [] + ['0'] == "0" && s[0..] == "0" + rest && s[0] == '0';
    assert !HexPrefix(s);
    MagnitudeReads(s, 0, 8, 0, "0", rest);
    UnsignedReads(s, 0);
  }

  /** White space in front (a space, or the codes 9 to 13) is skipped and counted, unless no number follows. */
  lemma WhiteSpaceIsSkipped(c: char, s: string, base: nat)
    requires base in {0, 10, 16} && (c == ' ' || 9 <= c as int <= 13)
    ensures StrToULL([c] + s, base) ==
            if StrToULL(s, base).1 == 0 then (0, 0) else (StrToULL(s, base).0, StrToULL(s, base).1 + 1)
  {
    assert ([c] + s)[1..] == s;
  }

  lemma LeadingSpace(s: string, base: nat)
    requires base in {0, 10, 16}
    requires StrToULL(s, base).1 > 0
    ensures StrToULL([' '] + s, base) == (StrToULL(s, base).0, StrToULL(s, base).1 + 1)
  {
    WhiteSpaceIsSkipped(' ', s, base);
  }

  // ----- Reading any number

  /** The sixteen digits, in both cases for reading and in lower case for printing. */
  lemma DigitsAreSpelled(d: nat)
    requires d < 16
    ensures DigitChar(d) == "0123456789abcdef"[d]
    ensures DigitValue("0123456789abcdef"[d]) == DigitValue("0123456789ABCDEF"[d]) == d
  {
  }

  lemma OnlyDigitsCount(c: char)
    ensures DigitValue(c) < 16 <==> c in "0123456789abcdef" || c in "0123456789ABCDEF"
    ensures DigitValue(c) < 10 <==> c in "0123456789"
    ensures DigitValue(c) < 8 <==> c in "01234567"
  {
    if DigitValue(c) < 16 {
      DigitsAreSpelled(DigitValue(c));
    }
  }

  /** How a number can be written in front of `rest`, where `base` is asked for: the base it then has. */
  predicate IsWritten(prefix: string, digits: string, rest: string, base: nat, b: Base) {
    match prefix
    case "0x" => base != 10 && b == 16
    case "0X" => base != 10 && b == 16
    case "" =>
      && (base != 10 ==> !HexPrefix(digits + rest))
      && digits != [] && b == if base != 0 then base else if digits[0] == '0' then 8 else 10
    case _ => false
  }

  /** The value of any written number in front of a character that is not a digit of it. */
  lemma NumberIsRead(prefix: string, digits: string, rest: string, base: nat, b: Base)
    requires base in {0, 10, 16} && IsWritten(prefix, digits, rest, base, b)
    requires digits != [] && AllDigits(digits, b) && (rest != [] ==> DigitValue(rest[0]) >= b)
    ensures StrToULL(prefix + digits + rest, base) == (Clamp(ValueOf(digits, b)), |prefix| + |digits|)
  {
    hide ValueOf, Magnitude, StrToULL;
    var s := prefix + digits + rest;
    assert s[|prefix|..] == digits + rest;
    assert prefix == "" ==> s == digits + rest;
    assert prefix != "" ==> s[0] == prefix[0] && s[1] == prefix[1] && s[2] == digits[0];
    MagnitudeReads(s, base, b, |prefix|, digits, rest);
    UnsignedReads(s, base);
  }

  lemma SignedReads(s: string, x: nat, used: nat)
    requires Magnitude(s, 10) == (x, used) && used > 0
    ensures StrToULL(['+'] + s, 10) == (Clamp(x), 1 + used)
    ensures StrToULL(['-'] + s, 10) ==
            (if x > ULLONG_MAX then ULLONG_MAX else if x == 0 then 0 else 0x1_0000_0000_0000_0000 - x, 1 + used)
  {
    assert (['+'] + s)[1..] == s && (['-'] + s)[1..] == s;
  }

  /** A sign in front: a minus sign negates modulo two to the 64th, but not a number that is out of range. */
  lemma SignIsRead(n: nat, rest: string)
    requires rest != [] ==> DigitValue(rest[0]) >= 10
    ensures StrToULL(['+'] + (Print(n, 10) + rest), 10) == (Clamp(n), 1 + |Print(n, 10)|)
    ensures StrToULL(['-'] + (Print(n, 10) + rest), 10) ==
            (if n > ULLONG_MAX then ULLONG_MAX else if n == 0 then 0 else 0x1_0000_0000_0000_0000 - n,
             1 + |Print(n, 10)|)
  {
    hide Magnitude, StrToULL, Print;
    var digits := Print(n, 10);
    var s := digits + rest;
    PrintValue(n, 10);
    PrintDigits(n, 10);
    assert s[0..] == s;
    MagnitudeReads(s, 10, 10, 0, digits, rest);
    SignedReads(s, n, |digits|);
  }

  /** Nothing is converted where neither white space nor a sign nor a digit stands. */
  lemma NoNumber(s: string, base: nat)
    requires base in {0, 10, 16}
    requires s == [] || (!IsSpace(s[0]) && s[0] != '-' && s[0] != '+'
                         && DigitValue(s[0]) >= if base == 0 then 10 else base)
    ensures StrToULL(s, base) == (0, 0)
  {
    assert s[0..] == s;
  }

  /** Nor is a sign used up that no digit follows. */
  lemma SignWithoutNumber(sign: char, s: string, base: nat)
    requires base in {0, 10, 16} && sign in {'+', '-'}
    requires s == [] || DigitValue(s[0]) >= if base == 0 then 10 else base
    ensures StrToULL([sign] + s, base) == (0, 0)
  {
    assert ([sign] + s)[1..] == s;
  }

  /** The text of a number: one digit below ten, otherwise lower-case hexadecimal behind `0x`. */
  lemma LlxText(n: nat)
    ensures n < 10 ==> Llx(n) == ["0123456789"[n]]
    ensures n >= 10 ==> |Llx(n)| > 2 && Llx(n)[..2] == "0x" && Llx(n)[2] != '0' && ValueOf(Llx(n)[2..], 16) == n
    ensures n >= 10 ==> forall i :: 2 <= i < |Llx(n)| ==> Llx(n)[i] in "0123456789abcdef"
  {
    if n < 10 {
      DigitsAreSpelled(n);
    } else {
      var digits := Print(n, 16);
      assert Llx(n)[2..] == digits;
      PrintValue(n, 16);
      PrintDigits(n, 16);
      HexIsLowerCase(n);
      assert forall i :: 2 <= i < |Llx(n)| ==> Llx(n)[i] == digits[i - 2];
    }
  }

  lemma {:induction false} HexIsLowerCase(n: nat)
    ensures forall i :: 0 <= i < |Print(n, 16)| ==> Print(n, 16)[i] in "0123456789abcdef"
  {
    DigitsAreSpelled(n % 16);
    if n < 16 {
      assert n % 16 == n;
    } else {
      HexIsLowerCase(n / 16);
    }
  }

  lemma DigitReadsBack(n: nat)
    requires n < 10
    ensures StrToULL(Print(n, 10), 16) == (n, 1)
  {
    var digits := Print(n, 10);
    DigitRoundTrip(n);
    ValueOfMore([], DigitChar(n), 16);
    assert digits == [] + [DigitChar(n)];
    assert digits[0..] == digits + [];
    MagnitudeReads(digits, 16, 16, 0, digits, []);
    UnsignedReads(digits, 16);
  }

  lemma HexReadsBack(n: nat)
    ensures StrToULL("0x" + Print(n, 16), 16) == (Clamp(n), 2 + |Print(n, 16)|)
  {
    hide StrToULL;
    var digits := Print(n, 16);
    PrintValue(n, 16);
    PrintDigits(n, 16);
    NumberIsRead("0x", digits, [], 16, 16);
    assert "0x" + digits + [] == "0x" + digits;
  }

  /** What `Llx` prints is read back in base 16. */
  lemma LlxReadsBack(n: nat)
    ensures StrToULL(Llx(n), 16) == (Clamp(n), |Llx(n)|)
  {
    if n < 10 { DigitReadsBack(n); } else { HexReadsBack(n); }
  }

  lemma {:induction false} HexOfDecimalIsLarger(n: nat)
    ensures ValueOf(Print(n, 10), 16) >= n
    ensures n >= 10 ==> ValueOf(Print(n, 10), 16) > n
  {
    DigitRoundTrip(n % 10);
    if n < 10 {
      ValueOfMore([], DigitChar(n), 16);
    } else {
      HexOfDecimalIsLarger(n / 10);
      ValueOfMore(Print(n / 10, 10), DigitChar(n % 10), 16);
    }
  }

  /**
   * A decimal number that is read in base 16 keeps its value exactly when it has one digit
   * (or when both readings are at the limit).
   */
  lemma DecimalInBaseSixteen(n: nat)
    ensures StrToULL(Print(n, 10), 16).0 == n <==> n < 10 || n == ULLONG_MAX
  {
    var digits := Print(n, 10);
    PrintDigits(n, 10);
    HexOfDecimalIsLarger(n);
    assert digits[0..] == digits + [];
    assert !HexPrefix(digits);
    MagnitudeReads(digits, 16, 16, 0, digits, []);
    UnsignedReads(digits, 16);
    if n < 10 { DigitReadsBack(n); }
  }
}
