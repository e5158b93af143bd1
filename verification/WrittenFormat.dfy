/** Directives as programmers write them, "%08x", "%-20s" or "%.5s": what a '-', a
    width and a precision written as decimal digits mean, and when that is what they
    say. */
module WrittenFormat {
  import opened CString
  import opened Printnum
  import opened Format

  ghost predicate DecimalDigits(ds: seq<int>)
  {
    forall i :: 0 <= i < |ds| ==> IsDigit(ds[i])
  }

  /** The number read from decimal digits, after `acc`. */
  function DigitsValue(ds: seq<int>, acc: nat): nat
    requires DecimalDigits(ds)
  {
    if ds == [] then acc else DigitsValue(ds[1..], acc * 10 + ds[0] - ZERO)
  }

  lemma {:induction false} DigitsValueAppend(ds: seq<int>, c: int, acc: nat)
    requires DecimalDigits(ds) && IsDigit(c)
    ensures DigitsValue(ds + [c], acc) == DigitsValue(ds, acc) * 10 + c - ZERO
    decreases |ds|
  {
    if ds == [] {
      assert [] + [c] == [c];
      assert DigitsValue([c][1..], acc * 10 + c - ZERO) == acc * 10 + c - ZERO;
    } else {
      assert (ds + [c])[1..] == ds[1..] + [c];
      DigitsValueAppend(ds[1..], c, acc * 10 + ds[0] - ZERO);
    }
  }

  /** A decimal numeral is read as its number, and starts with '0' for 0 only. */
  lemma {:induction false} NumeralIsRead(n: nat, ds: seq<int>)
    requires ds == Numeral(n, 10)
    ensures DecimalDigits(ds) && DigitsValue(ds, 0) == n
    ensures n > 0 ==> ds[0] != ZERO
    decreases n
  {
    var c := DigitChar(n % 10);
    if n >= 10 {
      var pre := Numeral(n / 10, 10);
      NumeralIsRead(n / 10, pre);
      DigitsValueAppend(pre, c, 0);
      assert ds == pre + [c];
    } else {
      DigitsValueAppend([], c, 0);
      assert ds == [] + [c];
    }
  }

  lemma {:induction false} ScanDigits(f: Text, i: nat, ds: seq<int>, acc: nat)
    requires DecimalDigits(ds) && i + |ds| <= |f| && f[i..i + |ds|] == ds
    requires i + |ds| < |f| ==> !IsDigit(f[i + |ds|])
    ensures ScanNumber(f, i, acc) == (i + |ds|, DigitsValue(ds, acc))
    decreases |ds|
  {
    if ds != [] {
      assert f[i] == ds[0] && f[i + 1..i + |ds|] == ds[1..];
      ScanDigits(f, i + 1, ds[1..], acc * 10 + ds[0] - ZERO);
    }
  }

  // ---------------------------------------------------------------------------
  // Digits in a format
  // ---------------------------------------------------------------------------

  /** Each leading '0' is the flag of that character; the other digits are a
      number. */
  ghost function DigitFlags(ds: seq<int>): seq<Flag>
    requires DecimalDigits(ds)
  {
    if ds == [] then []
    else if ds[0] == ZERO then [Zeros] + DigitFlags(ds[1..])
    else [Size(DigitsValue(ds, 0))]
  }

  /** More digits never make the number smaller. */
  lemma {:induction false} DigitsValueGrows(ds: seq<int>, acc: nat)
    requires DecimalDigits(ds)
    ensures DigitsValue(ds, acc) >= acc
    decreases |ds|
  {
    if ds != [] {
      DigitsValueGrows(ds[1..], acc * 10 + ds[0] - ZERO);
    }
  }

  /** One more flag before flags that are known. */
  lemma FlagThen(f: Text, i: nat, flag: Flag, k: nat, rest: seq<Flag>, j: nat)
    requires i < |f| && FlagAt(f, i) == ([flag], k)
    requires ScanFlags(f, k) == (rest, j)
    ensures ScanFlags(f, i) == ([flag] + rest, j)
  {
  }

  lemma SliceFirst(f: seq<int>, i: nat, k: nat, ds: seq<int>)
    requires i < k <= |f| && f[i..k] == ds
    ensures f[i] == ds[0] && f[i + 1..k] == ds[1..]
  {
  }

  lemma FlagAndFlags(flag: Flag, flags: seq<Flag>, rest: seq<Flag>)
    ensures [flag] + (flags + rest) == [flag] + flags + rest
  {
  }

  /** Digits that do not start with '0', in a format, are the flag of their
      number. */
  lemma NumberIsFlag(f: Text, i: nat, k: nat, ds: seq<int>)
    requires DecimalDigits(ds) && ds != [] && ds[0] != ZERO
    requires k == i + |ds| < |f| && f[i..k] == ds && !IsDigit(f[k])
    ensures FlagAt(f, i) == ([Size(DigitsValue(ds, 0))], k)
  {
    SliceFirst(f, i, k, ds);
    ScanDigits(f, i, ds, 0);
  }

  lemma {:induction false} DigitsAreFlags(f: Text, i: nat, k: nat, ds: seq<int>, rest: seq<Flag>, j: nat)
    requires DecimalDigits(ds)
    requires k == i + |ds| < |f| && f[i..k] == ds && !IsDigit(f[k])
    requires ScanFlags(f, k) == (rest, j)
    ensures ScanFlags(f, i) == (DigitFlags(ds) + rest, j)
    decreases |ds|
  {
    if ds == [] {
      assert [] + rest == rest;
    } else if ds[0] == ZERO {
      SliceFirst(f, i, k, ds);
      var flags := DigitFlags(ds[1..]);
      DigitsAreFlags(f, i + 1, k, ds[1..], rest, j);
      FlagAndFlags(Zeros, flags, rest);
      FlagThen(f, i, Zeros, i + 1, flags + rest, j);
    } else {
      NumberIsFlag(f, i, k, ds);
      FlagThen(f, i, Size(DigitsValue(ds, 0)), k, rest, j);
    }
  }

  /** The variables after a string of digits. */
  ghost function AfterDigits(s: Spec, ds: seq<int>): Spec
    requires DecimalDigits(ds)
  {
    var v := DigitsValue(ds, 0);
    var t := if ds != [] && ds[0] == ZERO then s.(padc := ZERO) else s;
    if v > 0 then WithNumber(t, v) else t
  }

  lemma {:induction false} DigitsAreSet(s: Spec, ds: seq<int>, rest: seq<Flag>, args: seq<Arg>)
    requires DecimalDigits(ds) && DigitsValue(ds, 0) <= NUMBER_MAX
    ensures SetFlags(s, DigitFlags(ds) + rest, args) == SetFlags(AfterDigits(s, ds), rest, args)
    decreases |ds|
  {
    if ds == [] {
      assert [] + rest == rest;
    } else if ds[0] == ZERO {
      var more := DigitFlags(ds[1..]) + rest;
      assert DigitFlags(ds) + rest == [Zeros] + more;
      assert ([Zeros] + more)[1..] == more;
      DigitsAreSet(s.(padc := ZERO), ds[1..], rest, args);
    } else {
      DigitsValueGrows(ds[1..], ds[0] - ZERO);
      assert ([Size(DigitsValue(ds, 0))] + rest)[1..] == rest;
    }
  }

  // ---------------------------------------------------------------------------
  // Written directives
  // ---------------------------------------------------------------------------

  /** '%', perhaps '-', a string of digits, and perhaps '.' and a second one. Any of
      the two strings may be empty, and may start with '0'. */
  datatype Written = Written(left: bool, width: seq<int>, dot: bool, precision: seq<int>)
  {
    /** The numbers are read without overflow. */
    ghost predicate Valid()
    {
      && DecimalDigits(width) && DigitsValue(width, 0) <= NUMBER_MAX
      && DecimalDigits(precision) && DigitsValue(precision, 0) <= NUMBER_MAX
      && (!dot ==> precision == [])
    }

    function Pad(): seq<int>
    {
      if left then [MINUS] else []
    }

    function Rest(): seq<int>
    {
      if dot then [DOT] + precision else []
    }

    function Chars(conv: int): seq<int>
    {
      [PERCENT] + Pad() + width + Rest() + [conv]
    }

    /** '0' padding is asked for by a '0' before the width, unless there is a '-'. */
    function AskedPad(): int
    {
      if left then MINUS else if width != [] && width[0] == ZERO then ZERO else SPACE
    }

    /** A '.' asks for the precision after it, which is 0 when it has no digits. */
    ghost function AskedPrecision(): int
      requires Valid()
    {
      if dot then DigitsValue(precision, 0) else -1
    }

    /** What the code makes of the directive: a '0' at the start of either string of
        digits asks for '0' padding, the last pad flag wins, and a precision of 0 is
        not seen. A width of 0 asks for nothing, like one of -1. */
    ghost function Read(): Spec
      requires Valid()
    {
      var zeros := (width != [] && width[0] == ZERO) || (precision != [] && precision[0] == ZERO);
      var w := DigitsValue(width, 0);
      var p := DigitsValue(precision, 0);
      Spec(if zeros then ZERO else if left then MINUS else SPACE,
           if w > 0 then w else if dot then 0 else -1,
           if p > 0 then p else -1,
           0, false)
    }
  }

  lemma EndOfFlags(f: Text, j: nat)
    requires j + 1 == |f| && IsConversion(f[j])
    ensures ScanFlags(f, j) == ([], j)
  {
    assert FlagAt(f, j) == ([], j);
  }

  ghost function RestFlags(w: Written): seq<Flag>
    requires w.Valid()
  {
    if w.dot then [Dot] + DigitFlags(w.precision) else []
  }

  lemma RestIsRead(f: Text, i: nat, w: Written)
    requires w.Valid() && i < |f| && IsConversion(f[|f| - 1])
    requires f[i..|f| - 1] == w.Rest()
    ensures ScanFlags(f, i) == (RestFlags(w), |f| - 1)
    ensures !IsDigit(f[i])
  {
    var j := |f| - 1;
    EndOfFlags(f, j);
    if w.dot {
      SliceFirst(f, i, j, w.Rest());
      assert w.Rest()[1..] == w.precision;
      DigitsAreFlags(f, i + 1, j, w.precision, [], j);
      assert DigitFlags(w.precision) + [] == DigitFlags(w.precision);
      assert FlagAt(f, i) == ([Dot], i + 1);
      FlagThen(f, i, Dot, i + 1, DigitFlags(w.precision), j);
    }
  }

  ghost function PadFlags(w: Written): seq<Flag>
  {
    if w.left then [Left] else []
  }

  lemma PadIsRead(f: Text, w: Written, i: nat, flags: seq<Flag>, j: nat)
    requires i == 1 + |w.Pad()| <= |f| && f[1..i] == w.Pad()
    requires ScanFlags(f, i) == (flags, j)
    ensures ScanFlags(f, 1) == (PadFlags(w) + flags, j)
  {
    if w.left {
      SliceFirst(f, 1, 2, [MINUS]);
      FlagThen(f, 1, Left, 2, flags, j);
    } else {
      assert [] + flags == flags;
    }
  }

  /** The positions after the pad flag and after the width. */
  lemma WrittenParts(f: seq<int>, pad: seq<int>, width: seq<int>, rest: seq<int>, conv: int, i: nat, k: nat)
    requires f == [PERCENT] + pad + width + rest + [conv]
    requires i == 1 + |pad| && k == i + |width|
    ensures k < |f| && f[0] == PERCENT && f[|f| - 1] == conv
    ensures f[1..i] == pad && f[i..k] == width && f[k..|f| - 1] == rest
  {
  }

  lemma WidthIsRead(f: Text, w: Written, i: nat, k: nat)
    requires w.Valid() && i <= k == i + |w.width| < |f| && IsConversion(f[|f| - 1])
    requires f[i..k] == w.width && f[k..|f| - 1] == w.Rest()
    ensures ScanFlags(f, i) == (DigitFlags(w.width) + RestFlags(w), |f| - 1)
  {
    RestIsRead(f, k, w);
    DigitsAreFlags(f, i, k, w.width, RestFlags(w), |f| - 1);
  }

  lemma RestIsSet(s: Spec, w: Written, args: seq<Arg>)
    requires w.Valid()
    ensures SetFlags(s, RestFlags(w), args) ==
            Set(if w.dot then AfterDigits(if s.width < 0 then s.(width := 0) else s, w.precision) else s, args)
  {
    if w.dot {
      var t := if s.width < 0 then s.(width := 0) else s;
      assert ([Dot] + DigitFlags(w.precision))[1..] == DigitFlags(w.precision);
      DigitsAreSet(t, w.precision, [], args);
      assert DigitFlags(w.precision) + [] == DigitFlags(w.precision);
    }
  }

  lemma WrittenIsSet(w: Written, args: seq<Arg>)
    requires w.Valid()
    ensures SetFlags(PLAIN, PadFlags(w) + (DigitFlags(w.width) + RestFlags(w)), args) == Set(w.Read(), args)
  {
    var more := DigitFlags(w.width) + RestFlags(w);
    var s := if w.left then PLAIN.(padc := MINUS) else PLAIN;
    assert SetFlags(PLAIN, PadFlags(w) + more, args) == SetFlags(s, more, args) by {
      assert w.left ==> (PadFlags(w) + more)[1..] == more;
      assert !w.left ==> PadFlags(w) + more == more;
    }
    DigitsAreSet(s, w.width, RestFlags(w), args);
    RestIsSet(AfterDigits(s, w.width), w, args);
  }

  // ---------------------------------------------------------------------------
  // Their meaning
  // ---------------------------------------------------------------------------

  /** A directive whose flags are set, `rest` being what its stars leave. */
  lemma RenderDirective(flags: seq<Flag>, conv: int, args: seq<Arg>, spec: Spec, rest: seq<Arg>)
    requires IsConversion(conv) && SetFlags(PLAIN, flags, args) == Set(spec, rest)
    ensures RenderItem(Directive(flags, conv), args) == Convert(conv, spec, rest)
  {
  }

  /** A format that is one directive. */
  lemma OneItem(f: Text, flags: seq<Flag>, conv: int, args: seq<Arg>)
    requires |f| > 1 && f[0] == PERCENT && IsConversion(conv)
    requires ScanFlags(f, 1) == (flags, |f| - 1) && f[|f| - 1] == conv
    ensures Meaning(f, args) == RenderItem(Directive(flags, conv), args)
  {
    assert Parse(f, |f|) == [];
    var items := Parse(f, 0);
    assert items == [Directive(flags, conv)] && items[1..] == [];
    var r := RenderItem(items[0], args);
    if r.Done? {
      assert Render(items[1..], r.rest) == Done([], r.rest);
      assert r.out + [] == r.out;
    }
  }

  /** What a written directive means, for every pad flag, every string of digits as
      its width, none included, and every one as its precision. */
  lemma WrittenDirective(f: Text, w: Written, conv: int, args: seq<Arg>)
    requires w.Valid() && IsConversion(conv) && f == w.Chars(conv)
    ensures Meaning(f, args) == Convert(conv, w.Read(), args)
  {
    var flags := PadFlags(w) + (DigitFlags(w.width) + RestFlags(w));
    var i := 1 + |w.Pad()|;
    WrittenParts(f, w.Pad(), w.width, w.Rest(), conv, i, i + |w.width|);
    WidthIsRead(f, w, i, i + |w.width|);
    PadIsRead(f, w, i, DigitFlags(w.width) + RestFlags(w), |f| - 1);
    WrittenIsSet(w, args);
    OneItem(f, flags, conv, args);
    RenderDirective(flags, conv, args, w.Read(), args);
  }

  /** The number of a string of digits that starts with another digit than '0'. */
  lemma NumberIsPositive(ds: seq<int>)
    requires DecimalDigits(ds)
    ensures ds != [] && ds[0] != ZERO ==> DigitsValue(ds, 0) > 0
  {
    if ds != [] {
      DigitsValueGrows(ds[1..], ds[0] - ZERO);
    }
  }

  /** Padding and precision are what the directive says iff its width does not put a
      '0' after a '-', and what follows a '.' is a number that does not start with
      '0', or is positive where '0' padding was asked for anyway. */
  lemma ReadAsWrittenIff(w: Written)
    requires w.Valid()
    ensures w.Read().padc == w.AskedPad() && w.Read().precision == w.AskedPrecision()
       <==> && (w.left && w.width != [] ==> w.width[0] != ZERO)
            && (w.dot ==> && w.precision != []
                          && (w.precision[0] != ZERO
                              || (w.AskedPad() == ZERO && DigitsValue(w.precision, 0) > 0)))
  {
    NumberIsPositive(w.precision);
  }

  /** `"%.0s"` is not the empty string but the whole one, in '0' padding. */
  lemma ZeroPrecisionPrintsAll(t: Text)
    requires |t| <= INT_MAX
    ensures NUL !in [PERCENT, DOT, ZERO, 115]
    ensures Meaning([PERCENT, DOT, ZERO, 115], [Str(t)]) == Done(Field(t, 0, -1, ZERO, false), [])
    ensures Field(t, 0, -1, ZERO, false) == t && Field(t, 0, 0, SPACE, false) == []
  {
    var w := Written(false, [], true, [ZERO]);
    assert [ZERO][1..] == [];
    assert w.Chars(115) == [PERCENT, DOT, ZERO, 115];
    WrittenDirective([PERCENT, DOT, ZERO, 115], w, 115, [Str(t)]);
    NoPrecision(t, w.Read());
  }

  lemma NoPrecision(t: Text, spec: Spec)
    requires |t| <= INT_MAX && spec == Spec(ZERO, 0, -1, 0, false)
    ensures Convert(115, spec, [Str(t)]) == Done(Field(t, 0, -1, ZERO, false), [])
    ensures Field(t, 0, -1, ZERO, false) == t && Field(t, 0, 0, SPACE, false) == []
  {
    assert ShownAll(t[..|t|], false) == t;
  }

  /** `"%*s"`, when the star reads the least `int`: the width is counted down once for
      every character, which underflows unless there are none. */
  lemma StarWidthUnderflows(t: Text)
    requires |t| <= INT_MAX
    ensures NUL !in [PERCENT, STAR, 115]
    ensures Meaning([PERCENT, STAR, 115], [Word(0x8000_0000), Str(t)]) == if t == [] then Done([], []) else Undefined
  {
    var f: Text := [PERCENT, STAR, 115];
    var args := [Word(0x8000_0000), Str(t)];
    EndOfFlags(f, 2);
    FlagThen(f, 1, Star, 2, [], 2);
    assert [Star] + [] == [Star];
    OneItem(f, [Star], 115, args);
    StarIsSet(args, t);
    RenderDirective([Star], 115, args, PLAIN.(width := INT_MIN), [Str(t)]);
  }

  lemma StarIsSet(args: seq<Arg>, t: Text)
    requires args == [Word(0x8000_0000), Str(t)]
    ensures SetFlags(PLAIN, [Star], args) == Set(PLAIN.(width := INT_MIN), [Str(t)])
  {
    assert args[1..] == [Str(t)];
    assert [Star][1..] == [];
  }
}
