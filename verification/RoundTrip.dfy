/** A number printed by `vsnprintf` and read by `strtol` from the same array. */
module RoundTrip {
  import opened CString
  import P = Printnum
  import opened Format
  import V = Vprintfmt
  import W = WrittenFormat
  import opened Strtol

  /** Characters that a string can hold and a `char` store. */
  ghost predicate Plain(s: seq<int>)
  {
    forall i :: 0 <= i < |s| ==> 1 <= s[i] <= 127
  }

  lemma {:induction false} NumeralIsPlain(num: nat, base: nat, s: seq<int>)
    requires 2 <= base <= 16 && s == P.Numeral(num, base)
    ensures Plain(s)
    decreases num
  {
    var q: nat, r: nat := num / base, num % base;
    P.DivMod(num, base, q, r);
    if num >= base {
      NumeralIsPlain(q, base, P.Numeral(q, base));
    }
  }

  lemma NumberIsPlain(num: nat, base: nat, width: int, padc: int)
    requires 2 <= base <= 16 && PadChar(padc)
    ensures Plain(P.Number(num, base, width, padc))
  {
    NumeralIsPlain(num, base, P.Numeral(num, base));
  }

  lemma NumericIsPlain(conv: int, spec: Spec, arg: Arg, s: seq<int>)
    requires Numeric(conv) && PadChar(spec.padc) && Convert(conv, spec, [arg]) == Done(s, [])
    ensures Plain(s)
  {
    NumericOutput(conv, spec, arg, s);
    ShapeIsPlain(conv, spec, NumberOf(conv, arg), s);
  }

  lemma ShapeIsPlain(conv: int, spec: Spec, n: int, s: seq<int>)
    requires PadChar(spec.padc) && (conv != 100 ==> n >= 0)
    requires conv == 100 ==> s == SignedNumber(n, spec.width, spec.padc)
    requires conv == 112 ==> s == [ZERO, 120] + P.Number(n, 16, spec.width, spec.padc)
    requires conv != 100 && conv != 112 ==> s == P.Number(n, BaseOf(conv), spec.width, spec.padc)
    ensures Plain(s)
  {
    NumberIsPlain(if n < 0 then -n else n, BaseOf(conv), spec.width, spec.padc);
  }

  /** A string of such characters, printed so that it fits, can be read back from
      the array. */
  lemma PrintedIsString(s: seq<int>, n: nat, before: seq<int>, after: seq<int>)
    requires Plain(s) && |s| < n <= |before| && after == V.Truncated(s, n, before)
    ensures after[..|s| + 1] == s + [NUL] && Terminated(after[..|s| + 1])
    ensures after[..|s| + 1][..|s|] == s
  {
    V.TruncatedFits(s, n, before);
  }

  /** The format is one numeric directive, applied to one number after the arguments
      of its stars. */
  ghost predicate OneNumber(f: Text, args: seq<Arg>, conv: int, spec: Spec, arg: Arg)
  {
    && |f| > 1 && f[0] == PERCENT && ScanFlags(f, 1).1 == |f| - 1
    && f[|f| - 1] == conv && Numeric(conv)
    && SetFlags(PLAIN, ScanFlags(f, 1).0, args) == Set(spec, [arg])
    && Convert(conv, spec, [arg]).Done?
  }

  lemma OneNumberMeaning(f: Text, args: seq<Arg>, conv: int, spec: Spec, arg: Arg, s: seq<int>)
    requires OneNumber(f, args, conv, spec, arg) && s == Convert(conv, spec, [arg]).out
    ensures Convert(conv, spec, [arg]) == Done(s, []) && Meaning(f, args) == Done(s, [])
  {
    var flags := ScanFlags(f, 1).0;
    W.OneItem(f, flags, conv, args);
    W.RenderDirective(flags, conv, args, spec, [arg]);
  }

  /** What such a format means is a string that `strtol` reads without overflow, and
      reads back iff the directive can be undone. */
  lemma MeaningReadsBack(f: Text, args: seq<Arg>, conv: int, spec: Spec, arg: Arg, s: seq<int>)
    requires OneNumber(f, args, conv, spec, arg) && InLong(NumberOf(conv, arg))
    requires s == Convert(conv, spec, [arg]).out
    ensures Meaning(f, args) == Done(s, []) && Plain(s)
    ensures Magnitude(s, BaseOf(conv)) <= LONG_MAX
    ensures Parsed(s, BaseOf(conv)) == (NumberOf(conv, arg), |s|) <==> Undoable(conv, spec, NumberOf(conv, arg))
  {
    var flags := ScanFlags(f, 1).0;
    OneNumberMeaning(f, args, conv, spec, arg, s);
    PadCharKept(PLAIN, flags, args);
    NumericIsPlain(conv, spec, arg, s);
    PrintThenParse(flags, conv, args, spec, arg, s);
  }

  /** `r = vsnprintf(buf, n, fmt, args)` and then `strtol(buf, &end, base)`. */
  method PrintThenRead(buf: array<int>, n: int, fmt: seq<int>, args: seq<Arg>, conv: int,
                       ghost spec: Spec, ghost arg: Arg)
    returns (r: nat, val: int, end: nat)
    requires Terminated(fmt) && OneNumber(V.Body(fmt), args, conv, spec, arg)
    requires |Convert(conv, spec, [arg]).out| < n <= buf.Length && n <= INT_MAX
    requires InLong(NumberOf(conv, arg))
    modifies buf
    ensures r < n && Terminated(buf[..r + 1])
    ensures (val, end) == (NumberOf(conv, arg), r) <==> Undoable(conv, spec, NumberOf(conv, arg))
  {
    ghost var s := Convert(conv, spec, [arg]).out;
    MeaningReadsBack(V.Body(fmt), args, conv, spec, arg, s);
    ghost var before := buf[..];
    r := V.Vsnprintf(buf, n, fmt, args);
    PrintedIsString(s, n, before, buf[..]);
    assert buf[..r + 1] == buf[..][..r + 1];
    val, end := Strtol.Strtol(buf[..r + 1], BaseOf(conv));
  }
}
