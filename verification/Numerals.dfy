/** What `strtol` (lib/string.c) reads: any blanks, any sign, any prefix, digits of any
    case in any base, and whatever follows. */
module Numerals {
  import opened CString
  import opened Strtol

  /** The digit of value `v`, in lower or upper case. */
  function DigitOf(v: nat, upper: bool): int
  {
    if v < 10 then '0' as int + v else (if upper then 'A' as int else 'a' as int) + v - 10
  }

  /** The digits have these values, below the base; their cases may differ. */
  ghost predicate Digits(ds: seq<int>, vs: seq<nat>, base: int)
  {
    && |ds| == |vs|
    && forall i :: 0 <= i < |ds| ==>
         vs[i] < base && (ds[i] == DigitOf(vs[i], false) || ds[i] == DigitOf(vs[i], true))
  }

  function ValueOf(vs: seq<nat>, base: int): int
  {
    if vs == [] then 0 else ValueOf(vs[..|vs| - 1], base) * base + vs[|vs| - 1]
  }

  /** What follows does not start with a digit of the base. */
  ghost predicate NoDigit(tail: seq<int>, base: int)
  {
    tail != [] ==>
      forall v: nat :: v < base ==> tail[0] != DigitOf(v, false) && tail[0] != DigitOf(v, true)
  }

  lemma DigitOfHasValue(v: nat, upper: bool)
    requires v < 36
    ensures DigitValue(DigitOf(v, upper)) == v
  {
  }

  lemma ValueHasDigit(c: int)
    requires DigitValue(c) >= 0
    ensures c == DigitOf(DigitValue(c), false) || c == DigitOf(DigitValue(c), true)
  {
  }

  lemma {:induction false} DigitsHaveValue(ds: seq<int>, vs: seq<nat>, base: int)
    requires base <= 36 && Digits(ds, vs, base)
    ensures AllDigits(ds, base) && Positional(ds, base) == ValueOf(vs, base)
    decreases |ds|
  {
    if ds != [] {
      var last := |ds| - 1;
      DigitOfHasValue(vs[last], false);
      DigitOfHasValue(vs[last], true);
      DigitsHaveValue(ds[..last], vs[..last], base);
      assert AllDigits(ds, base) by {
        assert forall i :: 0 <= i < last ==> ds[i] == ds[..last][i];
      }
    }
  }

  lemma {:induction false} DigitsEndAt(s: seq<int>, i: nat, e: nat, base: int)
    requires i <= e <= |s| && AllDigits(s[i..e], base) && (e < |s| ==> !IsDigitIn(s[e], base))
    ensures DigitsEnd(s, i, base) == e
    decreases e - i
  {
    if i < e {
      assert s[i..e][0] == s[i] && s[i..e][1..] == s[i + 1..e];
      DigitsEndAt(s, i + 1, e, base);
    }
  }

  ghost predicate AllBlanks(s: seq<int>)
  {
    forall i :: 0 <= i < |s| ==> s[i] == ' ' as int || s[i] == '\t' as int
  }

  lemma {:induction false} BlanksEndAt(s: seq<int>, i: nat, e: nat)
    requires i <= e <= |s| && AllBlanks(s[i..e])
    requires e < |s| ==> s[e] != ' ' as int && s[e] != '\t' as int
    ensures AfterBlanks(s, i) == e
    decreases e - i
  {
    if i < e {
      assert s[i..e][0] == s[i] && s[i..e][1..] == s[i + 1..e];
      BlanksEndAt(s, i + 1, e);
    }
  }

  /** No letter, digit, sign or blank. */
  predicate IsOther(c: int)
  {
    DigitValue(c) < 0 && c !in Codes(" \t+-")
  }

  /** The base and the prefix that lead to digits in base `b`, or to none; `rest` is
      what follows the prefix. */
  ghost predicate Prefixed(prefix: seq<int>, rest: seq<int>, base: int, b: int)
  {
    || (prefix == Codes("0x") && (base == 0 || base == 16) && b == 16)
    || (prefix == Codes("0") && base == 0 && b == 8 && (rest != [] ==> rest[0] != 'x' as int))
    || (prefix == [] && base == 0 && b == 10 && rest != [] && '1' as int <= rest[0] <= '9' as int)
    || (prefix == [] && base == b && 2 <= b <= 36 && rest != [] && DigitValue(rest[0]) >= 0
        && (base == 16 && rest[0] == '0' as int && |rest| > 1 ==> rest[1] != 'x' as int))
    || (prefix == [] && b == (if base == 0 then 10 else base) && 2 <= b <= 36 && (rest != [] ==> IsOther(rest[0])))
  }

  lemma Characters()
    ensures Codes("+") == [PLUS] && Codes("-") == [MINUS] && Codes(" \t+-") == [SPACE, TAB, PLUS, MINUS]
    ensures Codes("0x") == [ZERO, 120] && Codes("0") == [ZERO]
  {
  }

  /** What stands after the sign is no sign and no blank. */
  lemma FirstIsNoSign(all: seq<int>, prefix: seq<int>, rest: seq<int>, base: int, b: int)
    requires Prefixed(prefix, rest, base, b) && all == prefix + rest && all != []
    ensures all[0] !in {SPACE, TAB, PLUS, MINUS}
  {
    Characters();
    assert all[0] == if prefix != [] then prefix[0] else rest[0];
  }

  /** How the two characters at `j` tell the prefix. */
  lemma PrefixIs(s: seq<int>, j: nat, all: seq<int>, prefix: seq<int>, rest: seq<int>, base: int, b: int)
    requires j <= |s| && s[j..] == all == prefix + rest && Prefixed(prefix, rest, base, b)
    ensures if (base == 0 || base == 16) && HexPrefix(s, j) then |prefix| == 2 && b == 16
            else if base == 0 && j < |s| && s[j] == ZERO then |prefix| == 1 && b == 8
            else |prefix| == 0 && b == if base == 0 then 10 else base
  {
    Characters();
    assert |all| > 0 ==> s[j] == all[0];
    assert |all| > 1 ==> s[j + 1] == all[1];
    if prefix == [] {
      assert all == rest;
    } else if |prefix| == 1 {
      assert all[0] == ZERO && (rest != [] ==> all[1] == rest[0]);
    } else {
      assert all[0] == ZERO && all[1] == 120;
    }
  }

  lemma StartFrom(s: seq<int>, k: nat, j: nat, neg: bool, n: nat, base: int, b: int)
    requires k == AfterBlanks(s, 0) && neg == (k < |s| && s[k] == MINUS)
    requires j == (if neg || (k < |s| && s[k] == PLUS) then k + 1 else k) && j <= |s|
    requires if (base == 0 || base == 16) && HexPrefix(s, j) then n == 2 && b == 16
             else if base == 0 && j < |s| && s[j] == ZERO then n == 1 && b == 8
             else n == 0 && b == if base == 0 then 10 else base
    ensures FindStart(s, base) == Start(j + n, b, neg)
  {
  }

  lemma StartIs(s: seq<int>, blanks: seq<int>, sign: seq<int>, prefix: seq<int>, rest: seq<int>, base: int, b: int)
    requires AllBlanks(blanks) && (sign == [] || sign == Codes("+") || sign == Codes("-"))
    requires Prefixed(prefix, rest, base, b) && s == blanks + (sign + (prefix + rest))
    ensures FindStart(s, base) == Start(|s| - |rest|, b, sign == Codes("-"))
  {
    var i, j := |blanks|, |blanks| + |sign|;
    Characters();
    assert s[0..i] == blanks && s[j..] == prefix + rest;
    assert sign != [] ==> s[i] == sign[0];
    if prefix + rest != [] {
      FirstIsNoSign(prefix + rest, prefix, rest, base, b);
      assert s[j] == (prefix + rest)[0];
    }
    BlanksEndAt(s, 0, i);
    PrefixIs(s, j, prefix + rest, prefix, rest, base, b);
    StartFrom(s, i, j, sign == Codes("-"), |prefix|, base, b);
  }

  /** `strtol` reads blanks (spaces and tabs), a '+', a '-' or no sign, the prefix of
      the base if there is one, and digits in either case, up to the first character
      that is no digit of the base; the value is that of the digits, with the sign, and
      0 if there are none. */
  lemma ReadsNumeral(s: seq<int>, blanks: seq<int>, sign: seq<int>, prefix: seq<int>, ds: seq<int>, vs: seq<nat>,
                     tail: seq<int>, base: int, b: int, neg: bool, rest: seq<int>)
    requires AllBlanks(blanks) && (sign == [] || sign == Codes("+") || sign == Codes("-"))
    requires neg == (sign == Codes("-"))
    requires 2 <= b <= 36 && Digits(ds, vs, b) && NoDigit(tail, b) && rest == ds + tail
    requires Prefixed(prefix, rest, base, b)
    requires s == blanks + (sign + (prefix + rest))
    ensures Parsed(s, base) == (if neg then -ValueOf(vs, b) else ValueOf(vs, b), |s| - |tail|)
  {
    StartIs(s, blanks, sign, prefix, rest, base, b);
    DigitsHaveValue(ds, vs, b);
    Grouped(blanks, sign, prefix, rest);
    ParsedFrom(s, base, b, neg, blanks + sign + prefix, ds, tail);
  }

  lemma Grouped(x: seq<int>, y: seq<int>, z: seq<int>, rest: seq<int>)
    ensures x + (y + (z + rest)) == x + y + z + rest
  {
  }

  lemma StopsAt(tail: seq<int>, b: int)
    requires b <= 36 && NoDigit(tail, b)
    ensures tail != [] ==> !IsDigitIn(tail[0], b)
  {
    if tail != [] && IsDigitIn(tail[0], b) {
      ValueHasDigit(tail[0]);
    }
  }

  lemma ParsedFrom(s: seq<int>, base: int, b: int, neg: bool, before: seq<int>, ds: seq<int>, tail: seq<int>)
    requires s == before + (ds + tail) && FindStart(s, base) == Start(|before|, b, neg)
    requires b <= 36 && AllDigits(ds, b) && NoDigit(tail, b)
    ensures Parsed(s, base) == (if neg then -Positional(ds, b) else Positional(ds, b), |s| - |tail|)
  {
    var i, e := |before|, |before| + |ds|;
    SliceIs(s, before, ds, tail, i, e);
    StopsAt(tail, b);
    DigitsEndAt(s, i, e, b);
  }

  lemma SliceIs(s: seq<int>, before: seq<int>, ds: seq<int>, tail: seq<int>, i: nat, e: nat)
    requires s == before + (ds + tail) && i == |before| && e == i + |ds|
    ensures s[i..e] == ds && (e < |s| ==> tail != [] && s[e] == tail[0])
  {
  }
}
