/** Model of `vprintfmt`, `printfmt` and `vsnprintf` (lib/printfmt.c): the loops
    that read a format, proved against its meaning. */
module Vprintfmt {
  import opened CString
  import opened Printnum
  import opened Format

  /** The text of a terminated format. */
  function Body(fmt: seq<int>): Text
    requires Terminated(fmt)
  {
    fmt[..|fmt| - 1]
  }

  /** From `i` on, no `%e` directive. */
  ghost predicate NoErrorFrom(f: Text, i: nat)
    requires i <= |f|
    decreases |f| - i
  {
    i < |f| ==>
      var (item, k) := NextItem(f, i);
      !(item.Directive? && item.conv == 101) && NoErrorFrom(f, k)
  }

  /** The digits of a width or of a precision. */
  method ReadNumber(fmt: seq<int>, i: nat) returns (k: nat, n: nat)
    requires Terminated(fmt) && i < |fmt| && ScanNumber(Body(fmt), i, 0).1 <= NUMBER_MAX
    ensures (k, n) == ScanNumber(Body(fmt), i, 0)
  {
    k, n := i, 0;
    while IsDigit(fmt[k])
      invariant i <= k < |fmt|
      invariant ScanNumber(Body(fmt), k, n) == ScanNumber(Body(fmt), i, 0)
      decreases |fmt| - k
    {
      assert n * 10 + fmt[k] - ZERO <= ScanNumber(Body(fmt), i, 0).1;
      assert n * 10 + fmt[k] <= INT_MAX;  // no overflow
      n := n * 10 + fmt[k] - ZERO;
      k := k + 1;
    }
  }

  /** One flag: the `case`s that end in `goto reswitch`. */
  method ReadFlag(fmt: seq<int>, i: nat, spec: Spec, args: seq<Arg>) returns (k: nat, next: Spec, rest: seq<Arg>)
    requires Terminated(fmt) && i < |fmt| - 1 && FlagAt(Body(fmt), i).0 != []
    requires SetFlag(spec, FlagAt(Body(fmt), i).0[0], args).Set?
    ensures k == FlagAt(Body(fmt), i).1
    ensures Set(next, rest) == SetFlag(spec, FlagAt(Body(fmt), i).0[0], args)
  {
    var ch := fmt[i];
    assert Body(fmt)[i] == ch;
    k, next, rest := i + 1, spec, args;
    if ch == MINUS {
      next := spec.(padc := MINUS);
    } else if ch == ZERO {
      next := spec.(padc := ZERO);
    } else if IsDigit(ch) {
      var n;
      k, n := ReadNumber(fmt, i);
      next := WithNumber(spec, n);
    } else if ch == STAR {
      next := WithNumber(spec, Signed32(args[0].word));
      rest := args[1..];
    } else if ch == DOT {
      if spec.width < 0 {
        next := spec.(width := 0);
      }
    } else if ch == HASH {
      next := spec.(alt := true);
    } else {
      next := spec.(lflag := spec.lflag + 1);
    }
  }

  /** The `reswitch` loop: from the character after '%' to the one that is no flag.
      Returns its position, the variables set and the arguments left. */
  method ReadFlags(fmt: seq<int>, start: nat, args: seq<Arg>) returns (i: nat, spec: Spec, rest: seq<Arg>)
    requires Terminated(fmt) && start < |fmt|
    requires SetFlags(PLAIN, ScanFlags(Body(fmt), start).0, args).Set?
    ensures i == ScanFlags(Body(fmt), start).1
    ensures Set(spec, rest) == SetFlags(PLAIN, ScanFlags(Body(fmt), start).0, args)
  {
    i, spec, rest := start, PLAIN, args;
    ghost var f := Body(fmt);
    while FlagOf(fmt[i]) != [] || IsDigit(fmt[i])
      invariant i < |fmt|
      invariant ScanFlags(f, i).1 == ScanFlags(f, start).1
      invariant SetFlags(spec, ScanFlags(f, i).0, rest) == SetFlags(PLAIN, ScanFlags(f, start).0, args)
      decreases |fmt| - i
    {
      assert f[i] == fmt[i];
      ghost var flags := ScanFlags(f, i).0;
      assert flags[0] == FlagAt(f, i).0[0] && flags[1..] == ScanFlags(f, FlagAt(f, i).1).0;
      i, spec, rest := ReadFlag(fmt, i, spec, rest);
    }
  }

  /** The magnitude and the base of an unsigned conversion. */
  method PutUnsigned(b: Sprintbuf, conv: int, spec: Spec, args: seq<Arg>)
    requires b.Valid() && (conv == 117 || conv == 111 || conv == 120) && Convert(conv, spec, args).Done?
    modifies b, b.data
    ensures b.Valid() && b.emitted == old(b.emitted) + Convert(conv, spec, args).out
  {
    var base := if conv == 117 then 10 else if conv == 111 then 8 else 16;
    PutNumber(b, Bits(args[0]), base, spec.width, spec.padc);
  }

  /** `case 'd'`. */
  method PutSigned(b: Sprintbuf, spec: Spec, args: seq<Arg>)
    requires b.Valid() && Convert(100, spec, args).Done?
    modifies b, b.data
    ensures b.Valid() && b.emitted == old(b.emitted) + Convert(100, spec, args).out
  {
    var num := if spec.lflag >= 2 then Signed64(args[0].quad) else Signed32(args[0].word);
    if num < 0 {
      b.Put(MINUS);
      num := -num;
    }
    PutNumber(b, num, 10, spec.width, spec.padc);
  }

  /** `case 'p'`. */
  method PutPointer(b: Sprintbuf, spec: Spec, args: seq<Arg>)
    requires b.Valid() && Convert(112, spec, args).Done?
    modifies b, b.data
    ensures b.Valid() && b.emitted == old(b.emitted) + Convert(112, spec, args).out
  {
    b.Put(ZERO);
    b.Put(120);
    PutNumber(b, args[0].word, 16, spec.width, spec.padc);
  }

  /** `case 's'`. */
  method PutString(b: Sprintbuf, spec: Spec, args: seq<Arg>)
    requires b.Valid() && Convert(115, spec, args).Done? && INT_MIN <= spec.precision
    modifies b, b.data
    ensures b.Valid() && b.emitted == old(b.emitted) + Convert(115, spec, args).out
  {
    CodesAreText("(null)");
    var p: Text := if args[0].NullStr? then NULL_TEXT else args[0].text;
    PutField(b, p, spec.width, spec.precision, spec.padc, spec.alt);
  }

  /** `case 'e'`: the message is printed by a nested `printfmt`. */
  method PutError(b: Sprintbuf, spec: Spec, args: seq<Arg>)
    requires b.Valid() && Convert(101, spec, args).Done?
    modifies b, b.data
    ensures b.Valid() && b.emitted == old(b.emitted) + Convert(101, spec, args).out
    decreases 1, 0
  {
    var err := Signed32(args[0].word);
    if err < 0 {
      err := -err;
    }
    if err >= 7 || err == 0 {
      NumberMessage(err);
      Vprintfmt(b, ERROR_FORMAT + [NUL], [Word(err)], 0);
    } else {
      ErrorTextIsText(err);
      TextMessage(ErrorText(err));
      Vprintfmt(b, [PERCENT, 115, NUL], [Str(ErrorText(err))], 0);
    }
  }

  lemma NumberMessage(err: nat)
    requires err <= INT_MAX
    ensures var fmt := ERROR_FORMAT + [NUL];
            && Terminated(fmt) && NoErrorFrom(Body(fmt), 0)
            && Meaning(Body(fmt), [Word(err)]) == Done(Codes("error ") + Numeral(err, 10), [])
  {
    ErrorNumber(err);
    ErrorFormatHasNoError();
    assert (ERROR_FORMAT + [NUL])[..|ERROR_FORMAT|] == ERROR_FORMAT;
  }

  lemma TextMessage(t: Text)
    requires |t| <= INT_MAX
    ensures var fmt := [PERCENT, 115, NUL];
            && Terminated(fmt) && NoErrorFrom(Body(fmt), 0)
            && Meaning(Body(fmt), [Str(t)]) == Done(t, [])
  {
    PlainString(t);
    PlainDirective(115, []);
    assert [PERCENT, 115, NUL][..2] == [PERCENT, 115];
    assert NoErrorFrom([PERCENT, 115], 2);
  }

  /** The `switch` on the conversion character. Returns the arguments left. */
  method PutConversion(b: Sprintbuf, conv: int, spec: Spec, args: seq<Arg>, ghost level: nat)
    returns (rest: seq<Arg>)
    requires b.Valid() && IsConversion(conv) && Convert(conv, spec, args).Done?
    requires INT_MIN <= spec.precision && level <= 1 && (conv == 101 ==> level == 1)
    modifies b, b.data
    ensures b.Valid() && b.emitted == old(b.emitted) + Convert(conv, spec, args).out
    ensures rest == Convert(conv, spec, args).rest
    decreases level, 1
  {
    if conv == PERCENT {
      b.Put(conv);
      return args;
    }
    rest := args[1..];
    if conv == 99 {
      b.Put(Signed32(args[0].word));
    } else if conv == 101 {
      PutError(b, spec, args);
    } else if conv == 115 {
      PutString(b, spec, args);
    } else if conv == 100 {
      PutSigned(b, spec, args);
    } else if conv == 112 {
      PutPointer(b, spec, args);
    } else {
      PutUnsigned(b, conv, spec, args);
    }
  }

  lemma {:induction false} PrecisionInRange(s: Spec, flags: seq<Flag>, args: seq<Arg>)
    requires INT_MIN <= s.precision
    requires SetFlags(s, flags, args).Set?
    ensures INT_MIN <= SetFlags(s, flags, args).spec.precision
    decreases |flags|
  {
    if flags != [] {
      var t := SetFlag(s, flags[0], args);
      PrecisionInRange(t.spec, flags[1..], t.rest);
    }
  }

  lemma ErrorFormatHasNoError()
    ensures NUL !in ERROR_FORMAT && NoErrorFrom(ERROR_FORMAT, 0)
  {
    var f: Text := ERROR_FORMAT;
    assert f == [101, 114, 114, 111, 114, 32, PERCENT, 100];
    assert ScanFlags(f, 7) == ([], 7);
    assert NextItem(f, 6) == (Directive([], 100), 8);
    assert NoErrorFrom(f, 8);
    assert NoErrorFrom(f, 6);
    assert NoErrorFrom(f, 4);
    assert NoErrorFrom(f, 2);
  }

  /** Rendering the item at `i` after `before`, and then what follows. */
  lemma RenderStep(f: Text, i: nat, args: seq<Arg>, before: seq<int>)
    requires i < |f| && Render(Parse(f, i), args).Done?
    ensures var (item, k) := NextItem(f, i);
            var r := RenderItem(item, args);
            && r.Done? && Render(Parse(f, k), r.rest).Done?
            && before + Render(Parse(f, i), args).out == before + r.out + Render(Parse(f, k), r.rest).out
            && (f[i] != PERCENT ==> r == Done([f[i]], args) && k == i + 1)
  {
    var (item, k) := NextItem(f, i);
    assert Parse(f, i)[1..] == Parse(f, k);
    var r := RenderItem(item, args);
    assert before + (r.out + Render(Parse(f, k), r.rest).out) == before + r.out + Render(Parse(f, k), r.rest).out;
  }

  /** `vprintfmt(putch, b, fmt, args)`, for a format and arguments whose meaning is
      defined. It reads the format inside its buffer only, and its position grows
      with every round of the loop: after an escape that is not recognised, it
      resumes right after the '%'. */
  method Vprintfmt(b: Sprintbuf, fmt: seq<int>, args: seq<Arg>, ghost level: nat := 1)
    requires b.Valid() && Terminated(fmt) && Meaning(Body(fmt), args).Done?
    requires level == 1 || (level == 0 && NoErrorFrom(Body(fmt), 0))
    modifies b, b.data
    ensures b.Valid() && b.emitted == old(b.emitted) + Meaning(Body(fmt), args).out
    decreases level, 2
  {
    ghost var f := Body(fmt);
    ghost var out := old(b.emitted) + Meaning(f, args).out;
    var i, rest := 0, args;
    while fmt[i] != NUL
      invariant i < |fmt| && b.Valid()
      invariant level == 0 ==> NoErrorFrom(f, i)
      invariant Render(Parse(f, i), rest).Done?
      invariant b.emitted + Render(Parse(f, i), rest).out == out
      decreases |fmt| - i
    {
      RenderStep(f, i, rest, b.emitted);
      if fmt[i] != PERCENT {
        b.Put(fmt[i]);
        i := i + 1;
      } else {
        i, rest := PutEscape(b, fmt, i, rest, level);
      }
    }
    assert b.emitted + [] == b.emitted;
  }

  /** One %-escape at `start`: a directive, or the '%' of an escape that is not
      recognised. */
  method PutEscape(b: Sprintbuf, fmt: seq<int>, start: nat, args: seq<Arg>, ghost level: nat)
    returns (i: nat, rest: seq<Arg>)
    requires b.Valid() && Terminated(fmt) && start < |fmt| - 1 && fmt[start] == PERCENT
    requires RenderItem(NextItem(Body(fmt), start).0, args).Done?
    requires level == 1 || (level == 0 && NoErrorFrom(Body(fmt), start))
    modifies b, b.data
    ensures b.Valid()
    ensures i == NextItem(Body(fmt), start).1
    ensures var r := RenderItem(NextItem(Body(fmt), start).0, args);
            b.emitted == old(b.emitted) + r.out && rest == r.rest
    decreases level, 2, 0
  {
    ghost var f := Body(fmt);
    ghost var flags := ScanFlags(f, start + 1).0;
    var spec;
    i, spec, rest := ReadFlags(fmt, start + 1, args);
    PrecisionInRange(PLAIN, flags, args);
    if IsConversion(fmt[i]) {
      assert fmt[i] == f[i];
      rest := PutConversion(b, fmt[i], spec, rest, level);
      i := i + 1;
    } else {
      b.Put(PERCENT);
      ghost var j := i;
      FlagsHaveNoPercent(f, start + 1, j);
      while fmt[i - 1] != PERCENT
        invariant start + 1 <= i <= j
        decreases i
      {
        assert f[i - 1] == fmt[i - 1];
        i := i - 1;
      }
      assert f[i - 1] == fmt[i - 1];
    }
  }

  // ---------------------------------------------------------------------------
  // vsnprintf
  // ---------------------------------------------------------------------------

  const E_INVAL := 3

  /** What `vsnprintf` leaves in an array that held `before`, given the unbounded
      output: its first characters, a terminator, and the rest as it was. */
  function Truncated(out: seq<int>, n: nat, before: seq<int>): (s: seq<int>)
    requires 1 <= n <= |before|
    ensures |s| == |before|
    ensures var k := Fitting(|out|, n - 1);
            && (forall i :: 0 <= i < k ==> s[i] == ToChar(out[i]))
            && s[k] == NUL
            && (forall i :: k < i < |s| ==> s[i] == before[i])
  {
    Stored(out, n - 1, before)[Fitting(|out|, n - 1) := NUL]
  }

  /** Output that fits, of characters that fit a `char`, is a C string in the
      array. */
  lemma TruncatedFits(out: seq<int>, n: nat, before: seq<int>)
    requires |out| < n <= |before|
    requires forall i :: 0 <= i < |out| ==> -128 <= out[i] <= 127
    ensures Truncated(out, n, before)[..|out| + 1] == out + [NUL]
  {
    assert forall i :: 0 <= i < |out| ==> ToChar(out[i]) == out[i];
  }

  /** `vsnprintf(buf, n, fmt, args)`, for an output whose length fits an `int`; then
      no step of the count overflows, for the count only grows. */
  method Vsnprintf(buf: array?<int>, n: int, fmt: seq<int>, args: seq<Arg>) returns (r: int)
    requires Terminated(fmt) && Meaning(Body(fmt), args).Done?
    requires |Meaning(Body(fmt), args).out| <= INT_MAX
    requires buf != null ==> n <= buf.Length
    modifies buf
    ensures buf == null || n < 1 ==> r == -3 && (buf != null ==> buf[..] == old(buf[..]))
    ensures buf != null && n >= 1 ==>
              var out := Meaning(Body(fmt), args).out;
              r == |out| && buf[..] == Truncated(out, n, old(buf[..]))
  {
    if buf == null || n < 1 {
      return -E_INVAL;
    }
    var b := new Sprintbuf(buf, n);
    Vprintfmt(b, fmt, args);
    assert [] + Meaning(Body(fmt), args).out == Meaning(Body(fmt), args).out;
    buf[b.pos] := NUL;
    r := b.cnt;
  }
}
