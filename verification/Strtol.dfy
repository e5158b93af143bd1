/** Model of `strtol` (lib/string.c), and the laws that make it the inverse of the
    printers of `vprintfmt`. */
module Strtol {
  import opened CString
  import opened Printnum
  import F = Format
  import W = WrittenFormat

  const LONG_MAX := 0x7fff_ffff

  // ---------------------------------------------------------------------------
  // The conversion, as section 7.20.1.4 of ISO C99 describes it
  // ---------------------------------------------------------------------------

  /** The value of a character as a digit, or -1. */
  function DigitValue(c: int): (d: int)
    ensures -1 <= d < 36
  {
    if ZERO <= c <= NINE then c - ZERO
    else if 97 <= c <= 122 then c - 97 + 10
    else if 65 <= c <= 90 then c - 65 + 10
    else -1
  }

  predicate IsDigitIn(c: int, base: int)
  {
    0 <= DigitValue(c) < base
  }

  /** The end of the longest run of digits from `i` on. */
  function DigitsEnd(s: seq<int>, i: nat, base: int): (e: nat)
    requires i <= |s|
    ensures i <= e <= |s|
    ensures forall k :: i <= k < e ==> IsDigitIn(s[k], base)
    ensures e < |s| ==> !IsDigitIn(s[e], base)
    decreases |s| - i
  {
    if i < |s| && IsDigitIn(s[i], base) then DigitsEnd(s, i + 1, base) else i
  }

  ghost predicate AllDigits(digits: seq<int>, base: int)
  {
    forall i :: 0 <= i < |digits| ==> IsDigitIn(digits[i], base)
  }

  /** The number that a run of digits denotes. */
  function Positional(digits: seq<int>, base: int): int
  {
    if digits == [] then 0
    else Positional(digits[..|digits| - 1], base) * base + DigitValue(digits[|digits| - 1])
  }

  /** The first character that is neither a space nor a tab. */
  function AfterBlanks(s: seq<int>, i: nat): (k: nat)
    requires i <= |s|
    ensures i <= k <= |s|
    decreases |s| - i
  {
    if i < |s| && (s[i] == SPACE || s[i] == TAB) then AfterBlanks(s, i + 1) else i
  }

  predicate HexPrefix(s: seq<int>, i: nat)
    requires i <= |s|
  {
    i + 1 < |s| && s[i] == ZERO && s[i + 1] == 120
  }

  /** Where the digits start, the base they are read in, and the sign. */
  datatype Start = Start(i: nat, base: int, neg: bool)

  function FindStart(s: seq<int>, base: int): (t: Start)
    ensures t.i <= |s|
  {
    var b := AfterBlanks(s, 0);
    var neg := b < |s| && s[b] == MINUS;
    var i := if neg || (b < |s| && s[b] == PLUS) then b + 1 else b;
    if (base == 0 || base == 16) && HexPrefix(s, i) then Start(i + 2, 16, neg)
    else if base == 0 && i < |s| && s[i] == ZERO then Start(i + 1, 8, neg)
    else Start(i, if base == 0 then 10 else base, neg)
  }

  function WithSign(neg: bool, n: int): int
  {
    if neg then -n else n
  }

  /** The magnitude of the number read. */
  function Magnitude(s: seq<int>, base: int): int
  {
    var t := FindStart(s, base);
    Positional(s[t.i..DigitsEnd(s, t.i, t.base)], t.base)
  }

  /** The value returned and the position stored in `*endptr`. */
  function Parsed(s: seq<int>, base: int): (int, nat)
  {
    var t := FindStart(s, base);
    (WithSign(t.neg, Magnitude(s, base)), DigitsEnd(s, t.i, t.base))
  }

  predicate InLong(n: int)
  {
    -LONG_MAX <= n <= LONG_MAX
  }

  /** `strtol` does not overflow on the string, returns `n` and ends at the
      terminator. */
  predicate ReadsBack(s: seq<int>, base: int, n: int)
  {
    Magnitude(s, base) <= LONG_MAX && Parsed(s, base) == (n, |s|)
  }

  // ---------------------------------------------------------------------------
  // The C function
  // ---------------------------------------------------------------------------

  lemma ProductNotBelow(p: int, base: int)
    requires base >= 1 && p >= 0
    ensures p * base >= p
  {
  }

  /** A digit appended to a run. */
  lemma PositionalAppend(digits: seq<int>, c: int, base: int)
    ensures Positional(digits + [c], base) == Positional(digits, base) * base + DigitValue(c)
    ensures IsDigitIn(c, base) && Positional(digits, base) >= 0 ==>
              Positional(digits + [c], base) >= Positional(digits, base)
  {
    assert (digits + [c])[..|digits|] == digits;
    if IsDigitIn(c, base) && Positional(digits, base) >= 0 {
      ProductNotBelow(Positional(digits, base), base);
    }
  }

  /** More digits never make the number smaller. */
  lemma {:induction false} PositionalMonotone(digits: seq<int>, more: seq<int>, base: int)
    requires AllDigits(more, base) && Positional(digits, base) >= 0
    ensures Positional(digits, base) <= Positional(digits + more, base)
  {
    if more == [] {
      assert digits + more == digits;
    } else {
      var last := |more| - 1;
      PositionalMonotone(digits, more[..last], base);
      PositionalAppend(digits + more[..last], more[last], base);
      assert digits + more == digits + more[..last] + [more[last]];
    }
  }

  /** The three ranges of digits. */
  method Digit(c: int) returns (dig: int)
    ensures dig == DigitValue(c)
  {
    if ZERO <= c <= NINE {
      dig := c - ZERO;
    } else if 97 <= c <= 122 {
      dig := c - 97 + 10;
    } else if 65 <= c <= 90 {
      dig := c - 65 + 10;
    } else {
      dig := -1;
    }
  }

  /** The value after one more digit of a run is not above that of the run. */
  lemma PartialValue(s: seq<int>, start: nat, k: nat, e: nat, base: int, val: int)
    requires start <= k < e <= |s| && AllDigits(s[start..e], base)
    requires val == Positional(s[start..k], base) && val >= 0
    ensures val * base + DigitValue(s[k]) == Positional(s[start..k + 1], base) >= 0
    ensures Positional(s[start..k + 1], base) <= Positional(s[start..e], base)
  {
    assert s[start..e][k - start] == s[k];
    PositionalAppend(s[start..k], s[k], base);
    assert s[start..k + 1] == s[start..k] + [s[k]];
    assert s[k + 1..e] == s[start..e][k + 1 - start..];
    PositionalMonotone(s[start..k + 1], s[k + 1..e], base);
    assert s[start..e] == s[start..k + 1] + s[k + 1..e];
  }

  /** The digit loop from `start` on. */
  method ReadDigits(buf: seq<int>, start: nat, base: int) returns (val: int, s: nat)
    requires Terminated(buf) && start < |buf|
    requires var text := buf[..|buf| - 1];
             Positional(text[start..DigitsEnd(text, start, base)], base) <= LONG_MAX
    ensures var text := buf[..|buf| - 1];
            && s == DigitsEnd(text, start, base)
            && val == Positional(text[start..s], base)
  {
    ghost var text := buf[..|buf| - 1];
    ghost var e := DigitsEnd(text, start, base);
    val, s := 0, start;
    while true
      invariant start <= s <= e && DigitsEnd(text, s, base) == e
      invariant val == Positional(text[start..s], base) && val >= 0
      decreases |buf| - s
    {
      var dig := Digit(buf[s]);
      if dig < 0 || dig >= base {
        break;
      }
      assert text[s] == buf[s];
      PartialValue(text, start, s, e, base, val);
      s, val := s + 1, val * base + dig;
      assert val <= LONG_MAX;  // no overflow
    }
  }

  /** Blanks, sign and prefix. */
  method ReadStart(buf: seq<int>, base: int) returns (s: nat, b: int, neg: bool)
    requires Terminated(buf)
    ensures s < |buf|
    ensures FindStart(buf[..|buf| - 1], base) == Start(s, b, neg)
  {
    ghost var text: Text := buf[..|buf| - 1];
    s, neg, b := 0, false, base;
    while buf[s] == SPACE || buf[s] == TAB
      invariant s < |buf|
      invariant AfterBlanks(text, s) == AfterBlanks(text, 0)
      decreases |buf| - s
    {
      assert text[s] == buf[s];
      s := s + 1;
    }
    if buf[s] == PLUS {
      s := s + 1;
    } else if buf[s] == MINUS {
      s, neg := s + 1, true;
    }
    if (b == 0 || b == 16) && buf[s] == ZERO && buf[s + 1] == 120 {
      s, b := s + 2, 16;
    } else if b == 0 && buf[s] == ZERO {
      s, b := s + 1, 8;
    } else if b == 0 {
      b := 10;
    }
  }

  /** `strtol(s, &end, base)` on the string in `buf`, when its value fits `long`;
      then no step of the accumulation overflows. */
  method Strtol(buf: seq<int>, base: int) returns (val: int, end: nat)
    requires Terminated(buf)
    requires Magnitude(buf[..|buf| - 1], base) <= LONG_MAX
    ensures (val, end) == Parsed(buf[..|buf| - 1], base)
  {
    var s, b, neg := ReadStart(buf, base);
    val, end := ReadDigits(buf, s, b);
    if neg {
      val := -val;
    }
  }

  // ---------------------------------------------------------------------------
  // Reading back a numeral
  // ---------------------------------------------------------------------------

  /** The number that a run of digits denotes, from that of all but the last. */
  lemma LastDigit(digits: seq<int>, c: int, base: int, p: int, n: int)
    requires p == Positional(digits, base) && n == p * base + DigitValue(c)
    ensures Positional(digits + [c], base) == n
  {
    assert (digits + [c])[..|digits|] == digits;
  }

  lemma {:induction false} NumeralIsDigits(num: nat, base: nat, ds: seq<int>)
    requires 2 <= base <= 16 && ds == Numeral(num, base)
    ensures AllDigits(ds, base)
    decreases num
  {
    var q: nat, r: nat := num / base, num % base;
    DivMod(num, base, q, r);
    assert DigitValue(DigitChar(r)) == r;
    if num >= base {
      NumeralIsDigits(q, base, Numeral(q, base));
    }
  }

  /** A numeral denotes its number. */
  lemma {:induction false} NumeralDenotes(num: nat, base: nat, ds: seq<int>)
    requires 2 <= base <= 16 && ds == Numeral(num, base)
    ensures Positional(ds, base) == num
    decreases num
  {
    var q: nat, r: nat := num / base, num % base;
    DivMod(num, base, q, r);
    var pre := if num >= base then Numeral(q, base) else [];
    if num >= base {
      NumeralDenotes(q, base, pre);
    }
    LastDigit(pre, DigitChar(r), base, q, num);
  }

  lemma AppendToBoth(a: seq<int>, b: seq<int>, c: int, base: int)
    requires Positional(a, base) == Positional(b, base)
    ensures Positional(a + [c], base) == Positional(b + [c], base)
  {
    assert (a + [c])[..|a|] == a && (b + [c])[..|b|] == b;
  }

  lemma {:induction false} ZerosDenoteZero(k: int, base: nat)
    ensures Positional(Repeat(ZERO, k), base) == 0
    decreases k
  {
    if k > 0 {
      ZerosDenoteZero(k - 1, base);
      LastDigit(Repeat(ZERO, k - 1), ZERO, base, 0, 0);
    }
  }

  /** Leading zeros do not change the number. */
  lemma {:induction false} LeadingZeros(k: int, digits: seq<int>, base: nat)
    ensures Positional(Repeat(ZERO, k) + digits, base) == Positional(digits, base)
    decreases |digits|
  {
    var zeros := Repeat(ZERO, k);
    if digits == [] {
      ZerosDenoteZero(k, base);
      assert zeros + [] == zeros;
    } else {
      var last := |digits| - 1;
      var pre, c := digits[..last], digits[last];
      LeadingZeros(k, pre, base);
      AppendToBoth(zeros + pre, pre, c, base);
      assert pre + [c] == digits && zeros + pre + [c] == zeros + digits;
    }
  }

  /** A run of digits up to the end of the string is read to the end. */
  lemma {:induction false} DigitsToEnd(s: seq<int>, i: nat, base: int)
    requires i <= |s| && AllDigits(s[i..], base)
    ensures DigitsEnd(s, i, base) == |s|
    decreases |s| - i
  {
    if i < |s| {
      assert s[i..][0] == s[i] && s[i..][1..] == s[i + 1..];
      DigitsToEnd(s, i + 1, base);
    }
  }

  lemma {:induction false} BlanksSkipped(s: seq<int>, i: nat, n: nat)
    requires i + n < |s|
    requires forall k :: i <= k < i + n ==> s[k] == SPACE
    requires s[i + n] != SPACE && s[i + n] != TAB
    ensures AfterBlanks(s, i) == i + n
    decreases n
  {
    if n > 0 {
      BlanksSkipped(s, i + 1, n - 1);
    }
  }

  /** The bases the printers use. */
  predicate PrintBase(base: int)
  {
    base == 8 || base == 10 || base == 16
  }

  /** Where the digits are found after blanks and at most one sign. */
  lemma SignedStart(s: seq<int>, blanks: int, sign: seq<int>, digits: seq<int>, base: int)
    requires PrintBase(base) && digits != [] && AllDigits(digits, base)
    requires sign == [] || sign == [MINUS]
    requires s == Repeat(SPACE, blanks) + sign + digits
    ensures FindStart(s, base) == Start(|s| - |digits|, base, sign == [MINUS])
  {
    var b := |Repeat(SPACE, blanks)|;
    var i := b + |sign|;
    assert s[i] == digits[0] && IsDigitIn(digits[0], base);
    BlanksSkipped(s, 0, b);
    assert s[b] == if sign == [] then digits[0] else MINUS;
    if |digits| > 1 {
      assert s[i + 1] == digits[1] && IsDigitIn(digits[1], base);
    }
    assert !HexPrefix(s, i);
  }

  /** Blanks, at most one sign and a nonempty run of digits are read as the number
      that the digits denote, up to the terminator. */
  lemma ReadsSigned(s: seq<int>, blanks: int, sign: seq<int>, digits: seq<int>, base: int, n: int)
    requires PrintBase(base) && digits != [] && AllDigits(digits, base)
    requires sign == [] || sign == [MINUS]
    requires s == Repeat(SPACE, blanks) + sign + digits
    requires n == Positional(digits, base)
    ensures Parsed(s, base) == (WithSign(sign == [MINUS], n), |s|)
  {
    SignedStart(s, blanks, sign, digits, base);
    var i := |s| - |digits|;
    assert s[i..] == digits;
    DigitsToEnd(s, i, base);
    assert s[i..|s|] == digits;
  }

  /** "0x" and a run of hexadecimal digits, read with base 0 or 16. */
  lemma ReadsPrefixed(s: seq<int>, digits: seq<int>, base: int, n: int)
    requires (base == 0 || base == 16) && AllDigits(digits, 16)
    requires s == [ZERO, 120] + digits
    requires n == Positional(digits, 16)
    ensures Parsed(s, base) == (n, |s|)
  {
    assert AfterBlanks(s, 0) == 0;
    assert FindStart(s, base) == Start(2, 16, false);
    assert s[2..] == digits;
    DigitsToEnd(s, 2, 16);
    assert s[2..|s|] == digits;
  }

  // ---------------------------------------------------------------------------
  // Print, then parse
  // ---------------------------------------------------------------------------

  /** The pad characters a directive can ask for. */
  predicate PadChar(c: int)
  {
    c == SPACE || c == ZERO || c == MINUS
  }

  /** The number of pad characters before a numeral. */
  function Pads(num: nat, base: nat, width: int): nat
    requires 2 <= base <= 16
  {
    var n := width - |Numeral(num, base)|;
    if n > 0 then n else 0
  }

  /** A second character that is no digit stops the parse right after a '-'. */
  lemma StopsAfterSign(s: seq<int>, base: int)
    requires PrintBase(base) && |s| >= 2 && s[0] == MINUS && (s[1] == MINUS || s[1] == SPACE)
    ensures Parsed(s, base) == (0, 1)
  {
  }

  lemma StopsAfterPrefix(s: seq<int>, base: int)
    requires (base == 0 || base == 16) && |s| >= 3 && s[..2] == [ZERO, 120] && (s[2] == MINUS || s[2] == SPACE)
    ensures Parsed(s, base) == (0, 2)
  {
  }

  /** A numeral after zeros is a run of digits that denotes its number. */
  lemma ZerosAndNumeral(num: nat, base: nat, k: int)
    requires 2 <= base <= 16
    ensures var ds := Repeat(ZERO, k) + Numeral(num, base);
            AllDigits(ds, base) && Positional(ds, base) == num
  {
    NumeralIsDigits(num, base, Numeral(num, base));
    NumeralDenotes(num, base, Numeral(num, base));
    LeadingZeros(k, Numeral(num, base), base);
  }

  /** Zeros before a numeral, read with the sign before them. */
  lemma ReadsZeros(s: seq<int>, sign: seq<int>, num: nat, base: nat, k: int)
    requires PrintBase(base) && (sign == [] || sign == [MINUS])
    requires s == sign + (Repeat(ZERO, k) + Numeral(num, base))
    ensures Parsed(s, base) == (WithSign(sign == [MINUS], num), |s|)
  {
    var ds := Repeat(ZERO, k) + Numeral(num, base);
    ZerosAndNumeral(num, base, k);
    assert s == Repeat(SPACE, 0) + sign + ds;
    ReadsSigned(s, 0, sign, ds, base, num);
  }

  lemma ReadsSpaces(s: seq<int>, num: nat, base: nat, k: int)
    requires PrintBase(base)
    requires s == Repeat(SPACE, k) + Numeral(num, base)
    ensures Parsed(s, base) == (num, |s|)
  {
    var ds := Numeral(num, base);
    NumeralIsDigits(num, base, Numeral(num, base));
    NumeralDenotes(num, base, Numeral(num, base));
    assert s == Repeat(SPACE, k) + [] + ds;
    ReadsSigned(s, k, [], ds, base, num);
  }

  /** What is read back from an unsigned number. */
  lemma ReadsUnsigned(s: seq<int>, num: nat, base: nat, width: int, padc: int)
    requires PrintBase(base) && PadChar(padc)
    requires s == Number(num, base, width, padc)
    ensures var k := Pads(num, base, width);
            Parsed(s, base) ==
            if padc != MINUS || k == 0 then (num, |s|) else if k == 1 then (WithSign(true, num), |s|) else (0, 1)
  {
    var k := width - |Numeral(num, base)|;
    if padc == SPACE {
      ReadsSpaces(s, num, base, k);
    } else if padc == ZERO || k <= 0 {
      var zeros := if padc == ZERO then k else 0;
      assert s == [] + (Repeat(ZERO, zeros) + Numeral(num, base));
      ReadsZeros(s, [], num, base, zeros);
    } else if k == 1 {
      assert s == [MINUS] + (Repeat(ZERO, 0) + Numeral(num, base));
      ReadsZeros(s, [MINUS], num, base, 0);
    } else {
      StopsAfterSign(s, base);
    }
  }

  lemma MagnitudeNotNegative(s: seq<int>, base: int)
    ensures Magnitude(s, base) >= 0
  {
    var t := FindStart(s, base);
    var digits := s[t.i..DigitsEnd(s, t.i, t.base)];
    PositionalMonotone([], digits, t.base);
    assert [] + digits == digits;
  }

  /** When the parse gives the number, its negation or 0. */
  lemma ReadsBackIff(s: seq<int>, base: int, n: int, read: int, end: nat)
    requires Parsed(s, base) == (read, end) && (read == n || read == -n || read == 0)
    ensures InLong(n) ==> Magnitude(s, base) <= LONG_MAX
    ensures ReadsBack(s, base, n) <==> InLong(n) && (read, end) == (n, |s|)
  {
    MagnitudeNotNegative(s, base);
  }

  /** An unsigned number is read back iff it fits `long` and is padded with zeros or
      spaces, or not padded, or is a single '-' before 0. */
  lemma UnsignedRoundTrip(num: nat, base: nat, width: int, padc: int, s: seq<int>)
    requires PrintBase(base) && PadChar(padc)
    requires s == Number(num, base, width, padc)
    ensures InLong(num) ==> Magnitude(s, base) <= LONG_MAX
    ensures ReadsBack(s, base, num)
       <==> InLong(num) && (padc != MINUS || Pads(num, base, width) == 0 || (Pads(num, base, width) == 1 && num == 0))
  {
    ReadsUnsigned(s, num, base, width, padc);
    ReadsBackIff(s, base, num, Parsed(s, base).0, Parsed(s, base).1);
  }

  /** What is read back from a negative decimal. */
  lemma ReadsNegative(s: seq<int>, num: nat, width: int, padc: int)
    requires PadChar(padc) && num > 0
    requires s == [MINUS] + Number(num, 10, width, padc)
    ensures Parsed(s, 10) == if padc == ZERO || Pads(num, 10, width) == 0 then (WithSign(true, num), |s|) else (0, 1)
  {
    var k := width - |Numeral(num, 10)|;
    if padc == ZERO || k <= 0 {
      assert s == [MINUS] + (Repeat(ZERO, k) + Numeral(num, 10));
      ReadsZeros(s, [MINUS], num, 10, k);
    } else {
      StopsAfterSign(s, 10);
    }
  }

  /** A signed decimal is read back iff its magnitude fits `long` and it is padded
      with zeros, or not padded, or is padded with spaces and not negative, or is a
      single '-' before 0. */
  lemma SignedRoundTrip(n: int, width: int, padc: int, s: seq<int>)
    requires PadChar(padc) && s == F.SignedNumber(n, width, padc)
    ensures InLong(n) ==> Magnitude(s, 10) <= LONG_MAX
    ensures var k := Pads(if n < 0 then -n else n, 10, width);
            && (ReadsBack(s, 10, n) <==>
                && InLong(n)
                && (padc == ZERO || k == 0 || (padc == SPACE && n >= 0) || (padc == MINUS && k == 1 && n == 0)))
  {
    if n >= 0 {
      UnsignedRoundTrip(n, 10, width, padc, s);
    } else {
      ReadsNegative(s, -n, width, padc);
      ReadsBackIff(s, 10, n, Parsed(s, 10).0, Parsed(s, 10).1);
    }
  }

  /** What is read back from a pointer. */
  lemma ReadsPointer(s: seq<int>, num: nat, width: int, padc: int, base: int)
    requires PadChar(padc) && (base == 0 || base == 16)
    requires s == [ZERO, 120] + Number(num, 16, width, padc)
    ensures Parsed(s, base) == if padc == ZERO || Pads(num, 16, width) == 0 then (num, |s|) else (0, 2)
  {
    var k := width - |Numeral(num, 16)|;
    if padc == ZERO || k <= 0 {
      ZerosAndNumeral(num, 16, k);
      assert s == [ZERO, 120] + (Repeat(ZERO, k) + Numeral(num, 16));
      ReadsPrefixed(s, Repeat(ZERO, k) + Numeral(num, 16), base, num);
    } else {
      StopsAfterPrefix(s, base);
    }
  }

  /** A pointer is read back with base 0 or 16 iff it fits `long` and is padded with
      zeros or not padded. Pointers into the kernel do not fit `long`. */
  lemma PointerRoundTrip(num: nat, width: int, padc: int, base: int, s: seq<int>)
    requires PadChar(padc) && (base == 0 || base == 16)
    requires s == [ZERO, 120] + Number(num, 16, width, padc)
    ensures InLong(num) ==> Magnitude(s, base) <= LONG_MAX
    ensures ReadsBack(s, base, num) <==> InLong(num) && (padc == ZERO || Pads(num, 16, width) == 0)
  {
    ReadsPointer(s, num, width, padc, base);
    ReadsBackIff(s, base, num, Parsed(s, base).0, Parsed(s, base).1);
  }

  /** The directives d, u, o, x and p. */
  predicate Numeric(conv: int)
  {
    conv == 100 || conv == 117 || conv == 111 || conv == 120 || conv == 112
  }

  /** The base in which the output of a numeric directive is read back. */
  function BaseOf(conv: int): int
  {
    if conv == 111 then 8 else if conv == 120 || conv == 112 then 16 else 10
  }

  /** The number a numeric directive prints. */
  function NumberOf(conv: int, arg: F.Arg): int
    requires arg.Word? || arg.Quad?
  {
    if conv != 100 then F.Bits(arg) else if arg.Word? then Signed32(arg.word) else Signed64(arg.quad)
  }

  /** Which numeric directives can be undone: those padded with zeros or not at
      all; with spaces, those that put nothing before the padding; with '-', only a
      0 that is two characters wide. */
  predicate Undoable(conv: int, spec: F.Spec, n: int)
  {
    var k := Pads(if n < 0 then -n else n, BaseOf(conv), spec.width);
    || spec.padc == ZERO || k == 0
    || (spec.padc == SPACE && conv != 112 && n >= 0)
    || (spec.padc == MINUS && conv != 112 && k == 1 && n == 0)
  }

  lemma {:induction false} PadCharKept(s: F.Spec, flags: seq<F.Flag>, args: seq<F.Arg>)
    requires PadChar(s.padc) && F.SetFlags(s, flags, args).Set?
    ensures PadChar(F.SetFlags(s, flags, args).spec.padc)
    decreases |flags|
  {
    if flags != [] {
      var t := F.SetFlag(s, flags[0], args);
      PadCharKept(t.spec, flags[1..], t.rest);
    }
  }

  /** The output of a numeric directive. */
  lemma NumericOutput(conv: int, spec: F.Spec, arg: F.Arg, s: seq<int>)
    requires Numeric(conv) && F.Convert(conv, spec, [arg]) == F.Done(s, [])
    ensures conv == 100 ==> s == F.SignedNumber(NumberOf(conv, arg), spec.width, spec.padc)
    ensures conv == 112 ==> s == [ZERO, 120] + Number(NumberOf(conv, arg), 16, spec.width, spec.padc)
    ensures conv != 100 && conv != 112 ==> s == Number(NumberOf(conv, arg), BaseOf(conv), spec.width, spec.padc)
  {
  }

  lemma UndoesConversion(conv: int, spec: F.Spec, n: int, s: seq<int>)
    requires Numeric(conv) && PadChar(spec.padc) && (conv != 100 ==> n >= 0)
    requires conv == 100 ==> s == F.SignedNumber(n, spec.width, spec.padc)
    requires conv == 112 ==> s == [ZERO, 120] + Number(n, 16, spec.width, spec.padc)
    requires conv != 100 && conv != 112 ==> s == Number(n, BaseOf(conv), spec.width, spec.padc)
    ensures InLong(n) ==> Magnitude(s, BaseOf(conv)) <= LONG_MAX
    ensures ReadsBack(s, BaseOf(conv), n) <==> InLong(n) && Undoable(conv, spec, n)
  {
    if conv == 100 {
      SignedRoundTrip(n, spec.width, spec.padc, s);
    } else if conv == 112 {
      PointerRoundTrip(n, spec.width, spec.padc, 16, s);
    } else {
      UnsignedRoundTrip(n, BaseOf(conv), spec.width, spec.padc, s);
    }
  }

  /** For every numeric directive with any flags and every number: `strtol` reads
      the number back from the output and ends at the terminator iff the number fits
      `long` and the directive can be undone. */
  lemma PrintThenParse(flags: seq<F.Flag>, conv: int, args: seq<F.Arg>, spec: F.Spec, arg: F.Arg, s: seq<int>)
    requires Numeric(conv)
    requires F.SetFlags(F.PLAIN, flags, args) == F.Set(spec, [arg])
    requires F.Convert(conv, spec, [arg]) == F.Done(s, [])
    ensures InLong(NumberOf(conv, arg)) ==> Magnitude(s, BaseOf(conv)) <= LONG_MAX
    ensures ReadsBack(s, BaseOf(conv), NumberOf(conv, arg))
       <==> InLong(NumberOf(conv, arg)) && Undoable(conv, spec, NumberOf(conv, arg))
  {
    PadCharKept(F.PLAIN, flags, args);
    NumericOutput(conv, spec, arg, s);
    UndoesConversion(conv, spec, NumberOf(conv, arg), s);
  }

  // ---------------------------------------------------------------------------
  // Base 0
  // ---------------------------------------------------------------------------

  /** A string of digits of base 8, 10 or 16 after `k` characters of prefix. */
  lemma ReadsFrom(s: seq<int>, k: nat, digits: seq<int>, base: int, start: Start, n: int)
    requires k <= |s| && s[k..] == digits && AllDigits(digits, start.base)
    requires FindStart(s, base) == start && start.i == k && !start.neg
    requires n == Positional(digits, start.base)
    ensures Parsed(s, base) == (n, |s|)
  {
    DigitsToEnd(s, k, start.base);
    assert s[k..|s|] == digits;
  }

  lemma DecimalStart(s: seq<int>)
    requires |s| > 0 && IsDigitIn(s[0], 10) && s[0] != ZERO
    ensures FindStart(s, 0) == Start(0, 10, false)
  {
    assert AfterBlanks(s, 0) == 0;
  }

  lemma OctalStart(s: seq<int>)
    requires |s| > 1 && s[0] == ZERO && IsDigitIn(s[1], 8)
    ensures FindStart(s, 0) == Start(1, 8, false)
  {
    assert AfterBlanks(s, 0) == 0;
  }

  lemma FirstDigit(n: nat, base: nat, ds: seq<int>)
    requires PrintBase(base) && ds == Numeral(n, base)
    ensures |ds| > 0 && AllDigits(ds, base) && IsDigitIn(ds[0], base)
    ensures Positional(ds, base) == n
    ensures base == 10 && n >= 1 ==> ds[0] != ZERO
  {
    NumeralIsDigits(n, base, ds);
    NumeralDenotes(n, base, ds);
    if base == 10 {
      W.NumeralIsRead(n, ds);
    }
  }

  /** With base 0 a positive decimal numeral that fits `long` is read as decimal. */
  lemma DecimalIsInferred(n: nat, s: seq<int>)
    requires n >= 1 && s == Numeral(n, 10)
    ensures ReadsBack(s, 0, n) <==> InLong(n)
  {
    FirstDigit(n, 10, s);
    DecimalStart(s);
    assert s[0..] == s;
    ReadsFrom(s, 0, s, 0, Start(0, 10, false), n);
    ReadsBackIff(s, 0, n, n, |s|);
  }

  /** With base 0 an octal numeral that fits `long`, after a '0', is read as octal. */
  lemma OctalIsInferred(n: nat, ds: seq<int>, s: seq<int>)
    requires ds == Numeral(n, 8) && s == [ZERO] + ds
    ensures ReadsBack(s, 0, n) <==> InLong(n)
  {
    FirstDigit(n, 8, ds);
    assert s[1] == ds[0] && s[1..] == ds;
    OctalStart(s);
    ReadsFrom(s, 1, ds, 0, Start(1, 8, false), n);
    ReadsBackIff(s, 0, n, n, |s|);
  }
}
