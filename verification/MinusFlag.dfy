/** The '-' flag (lib/printfmt.c): when it pads on the right, as its comment says. */
module MinusFlag {
  import opened CString
  import opened Printnum
  import opened Format
  import opened WrittenFormat
  import opened Strtol

  /** Nothing but spaces follows the unpadded output. */
  ghost predicate PaddedRight(s: seq<int>, unpadded: seq<int>)
  {
    exists k: nat :: s == unpadded + Repeat(SPACE, k)
  }

  /** A number after any prefix is padded on the right iff it is not padded: padding
      starts with a '-' where the unpadded output has a digit. */
  lemma NumberPadsRightIff(prefix: seq<int>, num: nat, base: nat, width: int, ds: seq<int>, s: seq<int>)
    requires 2 <= base <= 16 && ds == Numeral(num, base)
    requires s == prefix + Number(num, base, width, MINUS)
    ensures PaddedRight(s, prefix + ds) <==> width <= |ds|
  {
    var i := |prefix|;
    NumeralIsDigits(num, base, ds);
    assert IsDigitIn(ds[0], base);
    if width <= |ds| {
      assert s == prefix + ds + Repeat(SPACE, 0);
    } else {
      assert s[i] == MINUS;
      assert forall k: nat :: (prefix + ds + Repeat(SPACE, k))[i] == ds[0];
    }
  }

  /** What a numeric directive puts before the padding. */
  function Prefix(conv: int, n: int): seq<int>
  {
    if conv == 100 && n < 0 then [MINUS] else if conv == 112 then [ZERO, 120] else []
  }

  /** For every numeric directive with '-' and every number: the output is the number
      and then spaces iff the width asks for no padding. */
  lemma MinusPadsRightIff(conv: int, spec: Spec, arg: Arg, s: seq<int>, ds: seq<int>)
    requires Numeric(conv) && spec.padc == MINUS && Convert(conv, spec, [arg]) == Done(s, [])
    requires var n := NumberOf(conv, arg); ds == Numeral(if n < 0 then -n else n, BaseOf(conv))
    ensures PaddedRight(s, Prefix(conv, NumberOf(conv, arg)) + ds) <==> spec.width <= |ds|
  {
    var n := NumberOf(conv, arg);
    var m := if n < 0 then -n else n;
    NumericOutput(conv, spec, arg, s);
    PrefixThenNumber(conv, spec, n, s);
    NumberPadsRightIff(Prefix(conv, n), m, BaseOf(conv), spec.width, ds, s);
  }

  lemma PrefixThenNumber(conv: int, spec: Spec, n: int, s: seq<int>)
    requires conv != 100 ==> n >= 0
    requires conv == 100 ==> s == SignedNumber(n, spec.width, spec.padc)
    requires conv == 112 ==> s == [ZERO, 120] + Number(n, 16, spec.width, spec.padc)
    requires conv != 100 && conv != 112 ==> s == Number(n, BaseOf(conv), spec.width, spec.padc)
    ensures s == Prefix(conv, n) + Number(if n < 0 then -n else n, BaseOf(conv), spec.width, spec.padc)
  {
  }

  /** A string is padded on the right for every width. */
  lemma StringPadsRight(p: Text, spec: Spec, s: seq<int>)
    requires spec.padc == MINUS && Convert(115, spec, [Str(p)]) == Done(s, [])
    ensures PaddedRight(s, ShownAll(p[..Limited(|p|, spec.precision)], spec.alt))
  {
    var body := ShownAll(p[..Limited(|p|, spec.precision)], spec.alt);
    var k: nat := if spec.width > |body| then spec.width - |body| else 0;
    assert Repeat(SPACE, spec.width - |body|) == Repeat(SPACE, k);
    assert s == body + Repeat(SPACE, k);
  }

  /** `"%-5d"` of 42 is "---42". */
  lemma MinusPadsLeft(f: seq<int>)
    requires f == [PERCENT, MINUS, 53, 100]
    ensures NUL !in f && Meaning(f, [Word(42)]) == Done([MINUS, MINUS, MINUS, 52, 50], [])
  {
    var w := Written(true, [53], false, []);
    assert [53][1..] == [];
    assert w.Chars(100) == f;
    WrittenDirective(f, w, 100, [Word(42)]);
    FortyTwo(w.Read());
  }

  lemma FortyTwo(spec: Spec)
    requires spec == Spec(MINUS, 5, -1, 0, false)
    ensures Convert(100, spec, [Word(42)]) == Done([MINUS, MINUS, MINUS, 52, 50], [])
  {
    assert Numeral(42, 10) == Numeral(4, 10) + [50] == [52, 50];
    assert Repeat(MINUS, 3) == [MINUS, MINUS, MINUS];
  }
}
