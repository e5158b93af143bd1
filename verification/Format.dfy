/** The meaning of a format string of `vprintfmt` (lib/printfmt.c): it is parsed
    into literals and directives, and these are rendered one after the other. */
module Format {
  import opened CString
  import opened Printnum

  /** The largest number in a format that is read without overflow: the sum with the
      code of the last digit, before '0' is subtracted, must fit an `int`. */
  const NUMBER_MAX := INT_MAX - ZERO

  // ---------------------------------------------------------------------------
  // Arguments and results
  // ---------------------------------------------------------------------------

  /** A variable argument: the bits of an `int`, a `long` or a pointer; the bits of
      a `long long`; a string, or a null pointer where a string is expected. */
  datatype Arg = Word(word: uint32) | Quad(quad: uint64) | Str(text: Text) | NullStr

  /** The characters put and the arguments not read. `Undefined` where C leaves the
      behaviour undefined: an argument is missing or of the wrong kind; a number in
      the format overflows `int`, or the width does when it is counted down; `%e`
      negates the least `int`, or `%d` the least `long long`. */
  datatype Rendering = Done(out: seq<int>, rest: seq<Arg>) | Undefined
  {
    function After(before: seq<int>): Rendering
    {
      if Done? then Done(before + out, rest) else Undefined
    }
  }

  // ---------------------------------------------------------------------------
  // Parsing
  // ---------------------------------------------------------------------------

  datatype Flag = Left | Zeros | Size(n: nat) | Star | Dot | Alt | Long

  /** A literal character, a directive, or an escape that is not recognised: its
      '%' is literal and what follows is read again. */
  datatype Item = Literal(ch: int) | Directive(flags: seq<Flag>, conv: int) | Unrecognised(flags: seq<Flag>)

  predicate IsDigit(c: int)
  {
    ZERO <= c <= NINE
  }

  /** The characters c e s d u o p x %. */
  predicate IsConversion(c: int)
  {
    c == 99 || c == 101 || c == 115 || c == 100 || c == 117 || c == 111 || c == 112 || c == 120 || c == PERCENT
  }

  /** Flags of one character; '1' to '9' start a number. */
  function FlagOf(c: int): (f: seq<Flag>)
    ensures |f| <= 1
  {
    if c == MINUS then [Left] else if c == ZERO then [Zeros] else if c == STAR then [Star]
    else if c == DOT then [Dot] else if c == HASH then [Alt] else if c == 108 then [Long]
    else []
  }

  /** The end of the number whose digits start at `i`, and its value after `acc`. */
  function ScanNumber(f: Text, i: nat, acc: nat): (r: (nat, nat))
    requires i <= |f|
    ensures i <= r.0 <= |f|
    ensures i < |f| && IsDigit(f[i]) ==> i < r.0
    ensures r.1 >= acc
    decreases |f| - i
  {
    if i < |f| && IsDigit(f[i]) then ScanNumber(f, i + 1, acc * 10 + f[i] - ZERO) else (i, acc)
  }

  /** The flag at `i`, if any, and the position after it. */
  function FlagAt(f: Text, i: nat): (r: (seq<Flag>, nat))
    requires i <= |f|
    ensures if r.0 == [] then r.1 == i else |r.0| == 1 && i < r.1 <= |f|
  {
    if i == |f| then ([], i)
    else if IsDigit(f[i]) && f[i] != ZERO then
      var (k, n) := ScanNumber(f, i, 0);
      ([Size(n)], k)
    else if FlagOf(f[i]) != [] then (FlagOf(f[i]), i + 1)
    else ([], i)
  }

  /** The flags from `i` on, and the position of the conversion character. */
  function ScanFlags(f: Text, i: nat): (r: (seq<Flag>, nat))
    requires i <= |f|
    ensures i <= r.1 <= |f|
    decreases |f| - i
  {
    var (flag, k) := FlagAt(f, i);
    if flag == [] then ([], i)
    else
      var (flags, j) := ScanFlags(f, k);
      (flag + flags, j)
  }

  lemma {:induction false} NumberHasNoPercent(f: Text, i: nat, acc: nat)
    requires i <= |f|
    ensures forall k :: i <= k < ScanNumber(f, i, acc).0 ==> f[k] != PERCENT
    decreases |f| - i
  {
    if i < |f| && IsDigit(f[i]) {
      NumberHasNoPercent(f, i + 1, acc * 10 + f[i] - ZERO);
    }
  }

  /** No '%' is among the flags. */
  lemma {:induction false} FlagsHaveNoPercent(f: Text, i: nat, j: nat)
    requires i <= |f| && j == ScanFlags(f, i).1
    ensures forall k :: i <= k < j ==> f[k] != PERCENT
    decreases |f| - i
  {
    var (flag, k) := FlagAt(f, i);
    if flag != [] {
      NumberHasNoPercent(f, i, 0);
      FlagsHaveNoPercent(f, k, j);
    }
  }

  /** The item at `i` and the position after it. */
  function NextItem(f: Text, i: nat): (r: (Item, nat))
    requires i < |f|
    ensures i < r.1 <= |f|
  {
    if f[i] != PERCENT then (Literal(f[i]), i + 1)
    else
      var (flags, j) := ScanFlags(f, i + 1);
      if j < |f| && IsConversion(f[j]) then (Directive(flags, f[j]), j + 1)
      else (Unrecognised(flags), i + 1)
  }

  /** The items from `i` on. */
  function Parse(f: Text, i: nat): seq<Item>
    requires i <= |f|
    decreases |f| - i
  {
    if i == |f| then [] else [NextItem(f, i).0] + Parse(f, NextItem(f, i).1)
  }

  /** From `i` on, no directive runs into the end of the format. */
  predicate Complete(f: Text, i: nat)
    requires i <= |f|
    decreases |f| - i
  {
    i < |f| ==> (f[i] == PERCENT ==> ScanFlags(f, i + 1).1 < |f|) && Complete(f, NextItem(f, i).1)
  }

  // ---------------------------------------------------------------------------
  // Rendering
  // ---------------------------------------------------------------------------

  /** The variables a directive sets before its conversion. */
  datatype Spec = Spec(padc: int, width: int, precision: int, lflag: nat, alt: bool)

  const PLAIN := Spec(SPACE, -1, -1, 0, false)

  datatype Setting = Set(spec: Spec, rest: seq<Arg>) | Bad

  /** `process_precision`: a number is the width, unless the width was given. */
  function WithNumber(s: Spec, n: int): Spec
  {
    if s.width < 0 then s.(width := n, precision := -1) else s.(precision := n)
  }

  function SetFlag(s: Spec, flag: Flag, args: seq<Arg>): Setting
  {
    match flag
    case Left => Set(s.(padc := MINUS), args)
    case Zeros => Set(s.(padc := ZERO), args)
    case Size(n) => if n <= NUMBER_MAX then Set(WithNumber(s, n), args) else Bad
    case Star => if args != [] && args[0].Word? then Set(WithNumber(s, Signed32(args[0].word)), args[1..]) else Bad
    case Dot => Set(if s.width < 0 then s.(width := 0) else s, args)
    case Alt => Set(s.(alt := true), args)
    case Long => Set(s.(lflag := s.lflag + 1), args)
  }

  function SetFlags(s: Spec, flags: seq<Flag>, args: seq<Arg>): Setting
    decreases |flags|
  {
    if flags == [] then Set(s, args)
    else
      var t := SetFlag(s, flags[0], args);
      if t.Bad? then Bad else SetFlags(t.spec, flags[1..], t.rest)
  }

  /** `error_string`. */
  function ErrorText(err: nat): seq<int>
    requires 1 <= err <= 6
  {
    match err
    case 1 => Codes("unspecified error")
    case 2 => Codes("bad environment")
    case 3 => Codes("invalid parameter")
    case 4 => Codes("out of memory")
    case 5 => Codes("out of environments")
    case _ => Codes("segmentation fault")
  }

  /** What `%e` prints for a code that is not negative. */
  function ErrorMessage(err: nat): seq<int>
  {
    if 1 <= err <= 6 then ErrorText(err) else Codes("error ") + Numeral(err, 10)
  }

  const NULL_TEXT := Codes("(null)")

  /** A signed decimal: the sign comes before the padding. */
  function SignedNumber(n: int, width: int, padc: int): seq<int>
  {
    if n < 0 then [MINUS] + Number(-n, 10, width, padc) else Number(n, 10, width, padc)
  }

  /** The argument has the size that `lflag` asks for. */
  predicate HasSize(arg: Arg, lflag: nat)
  {
    if lflag >= 2 then arg.Quad? else arg.Word?
  }

  function Bits(arg: Arg): nat
    requires arg.Word? || arg.Quad?
  {
    if arg.Word? then arg.word else arg.quad
  }

  /** The number put before the arguments `rest`, unless the width underflows. */
  function NumberDone(out: seq<int>, num: nat, base: nat, width: int, rest: seq<Arg>): Rendering
    requires 2 <= base <= 16
  {
    if WidthLasts(width, |Numeral(num, base)|) then Done(out, rest) else Undefined
  }

  /** `%d` of a number. */
  function SignedDone(n: int, s: Spec, rest: seq<Arg>): Rendering
  {
    if n < -LLONG_MAX then Undefined
    else NumberDone(SignedNumber(n, s.width, s.padc), if n < 0 then -n else n, 10, s.width, rest)
  }

  /** `%s` of a string. */
  function StringDone(p: seq<int>, s: Spec, rest: seq<Arg>): Rendering
  {
    var n := Limited(|p|, s.precision);
    if WidthLasts(WidthLeft(n, s.width, s.padc), n) then Done(Field(p, s.width, s.precision, s.padc, s.alt), rest)
    else Undefined
  }

  /** One conversion applied to one argument. */
  function Convert(conv: int, s: Spec, args: seq<Arg>): Rendering
    requires IsConversion(conv)
  {
    if conv == PERCENT then Done([PERCENT], args)
    else if args == [] then Undefined
    else
      var a, rest := args[0], args[1..];
      if conv == 99 then
        if a.Word? then Done([Signed32(a.word)], rest) else Undefined
      else if conv == 101 then
        if !a.Word? || Signed32(a.word) == INT_MIN then Undefined
        else Done(ErrorMessage(if Signed32(a.word) < 0 then -Signed32(a.word) else Signed32(a.word)), rest)
      else if conv == 115 then
        if a.NullStr? then StringDone(NULL_TEXT, s, rest)
        else if a.Str? && |a.text| <= INT_MAX then StringDone(a.text, s, rest)
        else Undefined
      else if conv == 112 then
        if a.Word? then NumberDone([ZERO, 120] + Number(a.word, 16, s.width, s.padc), a.word, 16, s.width, rest)
        else Undefined
      else if !HasSize(a, s.lflag) then Undefined
      else if conv == 100 then SignedDone(if s.lflag >= 2 then Signed64(a.quad) else Signed32(a.word), s, rest)
      else
        var base := if conv == 117 then 10 else if conv == 111 then 8 else 16;
        NumberDone(Number(Bits(a), base, s.width, s.padc), Bits(a), base, s.width, rest)
  }

  function RenderItem(item: Item, args: seq<Arg>): Rendering
  {
    match item
    case Literal(ch) => Done([ch], args)
    case Directive(flags, conv) =>
      var t := SetFlags(PLAIN, flags, args);
      if t.Bad? || !IsConversion(conv) then Undefined else Convert(conv, t.spec, t.rest)
    case Unrecognised(flags) =>
      var t := SetFlags(PLAIN, flags, args);
      if t.Bad? then Undefined else Done([PERCENT], t.rest)
  }

  function Render(items: seq<Item>, args: seq<Arg>): Rendering
  {
    if items == [] then Done([], args)
    else
      var r := RenderItem(items[0], args);
      if r.Undefined? then Undefined else Render(items[1..], r.rest).After(r.out)
  }

  /** The meaning of a format applied to arguments. */
  function Meaning(f: Text, args: seq<Arg>): Rendering
  {
    Render(Parse(f, 0), args)
  }

  // ---------------------------------------------------------------------------
  // Composition
  // ---------------------------------------------------------------------------

  lemma AfterAfter(r: Rendering, a: seq<int>, b: seq<int>)
    ensures r.After(b).After(a) == r.After(a + b)
  {
    if r.Done? {
      assert a + (b + r.out) == a + b + r.out;
    }
  }

  lemma {:induction false} RenderConcat(xs: seq<Item>, ys: seq<Item>, args: seq<Arg>)
    ensures Render(xs + ys, args) ==
            var r := Render(xs, args);
            if r.Undefined? then Undefined else Render(ys, r.rest).After(r.out)
  {
    if xs == [] {
      assert xs + ys == ys;
      var t := Render(ys, args);
      assert t.Done? ==> [] + t.out == t.out;
    } else {
      assert (xs + ys)[0] == xs[0] && (xs + ys)[1..] == xs[1..] + ys;
      var r := RenderItem(xs[0], args);
      if r.Done? {
        RenderConcat(xs[1..], ys, r.rest);
        var t := Render(xs[1..], r.rest);
        if t.Done? {
          AfterAfter(Render(ys, t.rest), r.out, t.out);
        }
      }
    }
  }

  /** Arguments that are not read stay. */
  lemma {:induction false} SetFlagsExtraArgs(s: Spec, flags: seq<Flag>, args: seq<Arg>, more: seq<Arg>)
    requires SetFlags(s, flags, args).Set?
    ensures SetFlags(s, flags, args + more) == Set(SetFlags(s, flags, args).spec, SetFlags(s, flags, args).rest + more)
    decreases |flags|
  {
    if flags != [] {
      var t := SetFlag(s, flags[0], args);
      assert args != [] ==> (args + more)[0] == args[0] && (args + more)[1..] == args[1..] + more;
      SetFlagsExtraArgs(t.spec, flags[1..], t.rest, more);
    }
  }

  lemma RenderItemExtraArgs(item: Item, args: seq<Arg>, more: seq<Arg>)
    requires RenderItem(item, args).Done?
    ensures RenderItem(item, args + more) == Done(RenderItem(item, args).out, RenderItem(item, args).rest + more)
  {
    if !item.Literal? {
      SetFlagsExtraArgs(PLAIN, item.flags, args, more);
      var t := SetFlags(PLAIN, item.flags, args);
      if item.Directive? {
        ConvertExtraArgs(item.conv, t.spec, t.rest, more);
      }
    }
  }

  lemma ConvertExtraArgs(conv: int, s: Spec, args: seq<Arg>, more: seq<Arg>)
    requires IsConversion(conv) && Convert(conv, s, args).Done?
    ensures Convert(conv, s, args + more) == Done(Convert(conv, s, args).out, Convert(conv, s, args).rest + more)
  {
    if args != [] {
      assert (args + more)[0] == args[0] && (args + more)[1..] == args[1..] + more;
    }
  }

  lemma {:induction false} RenderExtraArgs(items: seq<Item>, args: seq<Arg>, more: seq<Arg>)
    requires Render(items, args).Done?
    ensures Render(items, args + more) == Done(Render(items, args).out, Render(items, args).rest + more)
  {
    if items != [] {
      RenderItemExtraArgs(items[0], args, more);
      RenderExtraArgs(items[1..], RenderItem(items[0], args).rest, more);
    }
  }

  lemma {:induction false} ScanNumberPrefix(f: Text, g: Text, i: nat, acc: nat)
    requires i <= |f| && ScanNumber(f, i, acc).0 < |f|
    ensures ScanNumber(f + g, i, acc) == ScanNumber(f, i, acc)
    decreases |f| - i
  {
    if IsDigit(f[i]) {
      ScanNumberPrefix(f, g, i + 1, acc * 10 + f[i] - ZERO);
    }
  }

  lemma FlagAtPrefix(f: Text, g: Text, i: nat)
    requires i < |f| && FlagAt(f, i).1 < |f|
    ensures FlagAt(f + g, i) == FlagAt(f, i)
  {
    if IsDigit(f[i]) && f[i] != ZERO {
      ScanNumberPrefix(f, g, i, 0);
    }
  }

  lemma {:induction false} ScanFlagsPrefix(f: Text, g: Text, i: nat)
    requires i <= |f| && ScanFlags(f, i).1 < |f|
    ensures ScanFlags(f + g, i) == ScanFlags(f, i)
    decreases |f| - i
  {
    FlagAtPrefix(f, g, i);
    var (flag, k) := FlagAt(f, i);
    if flag != [] {
      ScanFlagsPrefix(f, g, k);
    }
  }

  /** `h` is `g` after `n` other characters. */
  ghost predicate EndsWith(h: Text, n: nat, g: Text)
  {
    |h| == n + |g| && forall i :: 0 <= i < |g| ==> h[n + i] == g[i]
  }

  lemma {:induction false} ScanNumberSuffix(h: Text, n: nat, g: Text, i: nat, acc: nat)
    requires EndsWith(h, n, g) && i <= |g|
    ensures ScanNumber(h, n + i, acc) == (n + ScanNumber(g, i, acc).0, ScanNumber(g, i, acc).1)
    decreases |g| - i
  {
    if i < |g| && IsDigit(g[i]) {
      ScanNumberSuffix(h, n, g, i + 1, acc * 10 + g[i] - ZERO);
    }
  }

  lemma FlagAtSuffix(h: Text, n: nat, g: Text, i: nat, flag: seq<Flag>, k: nat)
    requires EndsWith(h, n, g) && i <= |g| && (flag, k) == FlagAt(g, i)
    ensures FlagAt(h, n + i) == (flag, n + k)
  {
    if i < |g| {
      ScanNumberSuffix(h, n, g, i, 0);
    }
  }

  lemma {:induction false} ScanFlagsSuffix(h: Text, n: nat, g: Text, i: nat, flags: seq<Flag>, j: nat)
    requires EndsWith(h, n, g) && i <= |g| && (flags, j) == ScanFlags(g, i)
    ensures ScanFlags(h, n + i) == (flags, n + j)
    decreases |g| - i
  {
    var (flag, k) := FlagAt(g, i);
    FlagAtSuffix(h, n, g, i, flag, k);
    if flag != [] {
      ScanFlagsSuffix(h, n, g, k, ScanFlags(g, k).0, j);
    }
  }

  /** The item at a '%', when the flags after it are known. */
  lemma NextEscape(f: Text, i: nat, flags: seq<Flag>, j: nat, r: (Item, nat))
    requires i < |f| && f[i] == PERCENT && (flags, j) == ScanFlags(f, i + 1) && r == NextItem(f, i)
    ensures r == if j < |f| && IsConversion(f[j]) then (Directive(flags, f[j]), j + 1) else (Unrecognised(flags), i + 1)
  {
  }

  /** Two escapes with the same flags and the same character after them. */
  lemma SameEscape(h: Text, at: nat, end: nat, g: Text, i: nat, j: nat, flags: seq<Flag>, item: Item, k: nat)
    requires at < |h| && h[at] == PERCENT && (flags, end) == ScanFlags(h, at + 1)
    requires i < |g| && g[i] == PERCENT && (flags, j) == ScanFlags(g, i + 1) && (item, k) == NextItem(g, i)
    requires end - at == j - i && (end < |h| <==> j < |g|) && (j < |g| ==> h[end] == g[j])
    ensures NextItem(h, at) == (item, k + at - i)
  {
    NextEscape(g, i, flags, j, (item, k));
    NextEscape(h, at, flags, end, NextItem(h, at));
  }

  lemma CharSuffix(h: Text, n: nat, g: Text, i: nat)
    requires EndsWith(h, n, g) && i <= |g|
    ensures n + i < |h| <==> i < |g|
    ensures i < |g| ==> h[n + i] == g[i]
  {
  }

  lemma NextItemSuffix(h: Text, n: nat, g: Text, i: nat, item: Item, k: nat)
    requires EndsWith(h, n, g) && i < |g| && (item, k) == NextItem(g, i)
    ensures NextItem(h, n + i) == (item, n + k)
  {
    CharSuffix(h, n, g, i);
    if g[i] == PERCENT {
      var flags, j := ScanFlags(g, i + 1).0, ScanFlags(g, i + 1).1;
      ScanFlagsSuffix(h, n, g, i + 1, flags, j);
      CharSuffix(h, n, g, j);
      SameEscape(h, n + i, n + j, g, i, j, flags, item, k);
    }
  }

  lemma ParseStep(f: Text, i: nat, item: Item, k: nat, rest: seq<Item>)
    requires i < |f| && NextItem(f, i) == (item, k) && rest == Parse(f, k)
    ensures Parse(f, i) == [item] + rest
  {
  }

  lemma {:induction false} ParseSuffix(h: Text, n: nat, g: Text, i: nat, items: seq<Item>)
    requires EndsWith(h, n, g) && i <= |g| && items == Parse(g, i)
    ensures Parse(h, n + i) == items
    decreases |g| - i
  {
    if i < |g| {
      var (item, k) := NextItem(g, i);
      var rest := Parse(g, k);
      NextItemSuffix(h, n, g, i, item, k);
      ParseSuffix(h, n, g, k, rest);
      ParseStep(g, i, item, k, rest);
      ParseStep(h, n + i, item, n + k, rest);
    }
  }

  lemma NextItemPrefix(f: Text, g: Text, i: nat)
    requires i < |f|
    requires f[i] == PERCENT ==> ScanFlags(f, i + 1).1 < |f|
    ensures NextItem(f + g, i) == NextItem(f, i)
  {
    if f[i] == PERCENT {
      ScanFlagsPrefix(f, g, i + 1);
    }
  }

  lemma {:induction false} ParseConcat(f: Text, g: Text, i: nat)
    requires i <= |f| && Complete(f, i)
    ensures Parse(f + g, i) == Parse(f, i) + Parse(g, 0)
    decreases |f| - i
  {
    if i == |f| {
      ParseSuffix(f + g, |f|, g, 0, Parse(g, 0));
    } else {
      NextItemPrefix(f, g, i);
      var (item, k) := NextItem(f, i);
      ParseConcat(f, g, k);
      assert [item] + (Parse(f, k) + Parse(g, 0)) == [item] + Parse(f, k) + Parse(g, 0);
    }
  }

  /** Formats compose: if `f` does not end inside a directive, the output of the
      concatenated format on the concatenated arguments is the concatenation of the
      outputs. Arguments that `f` leaves unread are read by `g`. */
  lemma FormatsCompose(f: Text, g: Text, args: seq<Arg>, more: seq<Arg>)
    requires Complete(f, 0)
    requires Meaning(f, args).Done?
    ensures Meaning(f + g, args + more) ==
            Meaning(g, Meaning(f, args).rest + more).After(Meaning(f, args).out)
  {
    ParseConcat(f, g, 0);
    RenderExtraArgs(Parse(f, 0), args, more);
    RenderConcat(Parse(f, 0), Parse(g, 0), args + more);
  }

  // ---------------------------------------------------------------------------
  // Unrecognised escapes print back literally
  // ---------------------------------------------------------------------------

  lemma LiteralStep(f: Text, i: nat, args: seq<Arg>, out: seq<int>)
    requires i < |f| && f[i] != PERCENT && Render(Parse(f, i + 1), args) == Done(out, args)
    ensures Render(Parse(f, i), args) == Done([f[i]] + out, args)
  {
    assert Parse(f, i)[0] == Literal(f[i]) && Parse(f, i)[1..] == Parse(f, i + 1);
  }

  lemma FirstOfTail(f: seq<int>, i: nat, tail: seq<int>)
    requires i < |f| && tail == f[i..]
    ensures tail == [f[i]] + f[i + 1..] && f[i] in tail
    ensures PERCENT !in tail ==> PERCENT !in f[i + 1..]
  {
  }

  /** Text without '%' prints itself. */
  lemma {:induction false} LiteralText(f: Text, i: nat, args: seq<Arg>)
    requires i <= |f| && PERCENT !in f[i..]
    ensures Render(Parse(f, i), args) == Done(f[i..], args)
    decreases |f| - i
  {
    if i < |f| {
      FirstOfTail(f, i, f[i..]);
      LiteralText(f, i + 1, args);
      LiteralStep(f, i, args, f[i + 1..]);
    }
  }

  /** A '%' with any flags before a character that is no conversion, or before the
      end of the format, prints back as it is. Of the arguments, it uses up those
      that its stars read. */
  lemma UnrecognisedPrintsBack(f: Text, args: seq<Arg>)
    requires |f| > 0 && f[0] == PERCENT
    requires var j := ScanFlags(f, 1).1; (j + 1 == |f| && !IsConversion(f[j])) || j == |f|
    requires SetFlags(PLAIN, ScanFlags(f, 1).0, args).Set?
    ensures Meaning(f, args) == Done(f, SetFlags(PLAIN, ScanFlags(f, 1).0, args).rest)
  {
    var (flags, j) := ScanFlags(f, 1);
    FlagsHaveNoPercent(f, 1, j);
    NoPercentAfter(f, j);
    var rest := SetFlags(PLAIN, flags, args).rest;
    LiteralText(f, 1, rest);
    LiteralPercent(f, flags, args, rest);
  }

  lemma NoPercentAfter(f: Text, j: nat)
    requires 1 <= j <= |f| && forall k :: 1 <= k < j ==> f[k] != PERCENT
    requires j < |f| ==> j + 1 == |f| && !IsConversion(f[j])
    ensures PERCENT !in f[1..]
  {
  }

  /** The '%' of an unrecognised escape, before what follows it. */
  lemma LiteralPercent(f: Text, flags: seq<Flag>, args: seq<Arg>, rest: seq<Arg>)
    requires |f| > 0 && NextItem(f, 0) == (Unrecognised(flags), 1) && f[0] == PERCENT
    requires SetFlags(PLAIN, flags, args).Set? && rest == SetFlags(PLAIN, flags, args).rest
    requires Render(Parse(f, 1), rest) == Done(f[1..], rest)
    ensures Meaning(f, args) == Done(f, rest)
  {
    var items := Parse(f, 0);
    assert items[0] == Unrecognised(flags) && items[1..] == Parse(f, 1);
    assert [PERCENT] + f[1..] == f;
  }

  // ---------------------------------------------------------------------------
  // The formats that `%e` prints with
  // ---------------------------------------------------------------------------

  lemma {:induction false} LiteralTextIsComplete(f: Text, i: nat)
    requires i <= |f| && PERCENT !in f[i..]
    ensures Complete(f, i)
    decreases |f| - i
  {
    if i < |f| {
      assert f[i] == f[i..][0] && f[i..][1..] == f[i + 1..];
      LiteralTextIsComplete(f, i + 1);
    }
  }

  /** A directive without flags. */
  lemma PlainDirective(conv: int, args: seq<Arg>)
    requires IsConversion(conv)
    ensures NUL !in [PERCENT, conv]
    ensures NextItem([PERCENT, conv], 0) == (Directive([], conv), 2)
    ensures Meaning([PERCENT, conv], args) == Convert(conv, PLAIN, args)
  {
    var f: Text := [PERCENT, conv];
    assert ScanFlags(f, 1) == ([], 1);
    assert Parse(f, 2) == [];
    var items := Parse(f, 0);
    assert items == [Directive([], conv)];
    var r := Convert(conv, PLAIN, args);
    assert SetFlags(PLAIN, [], args) == Set(PLAIN, args);
    assert RenderItem(items[0], args) == r;
    if r.Done? {
      assert items[1..] == [];
      assert Render(items[1..], r.rest) == Done([], r.rest);
      assert r.out + [] == r.out;
    }
  }

  /** `"%s"` prints a string as it is. */
  lemma PlainString(t: Text)
    requires |t| <= INT_MAX
    ensures NUL !in [PERCENT, 115]
    ensures Meaning([PERCENT, 115], [Str(t)]) == Done(t, [])
  {
    PlainDirective(115, [Str(t)]);
    assert ShownAll(t[..|t|], false) == t;
    assert Field(t, -1, -1, SPACE, false) == t;
  }

  const ERROR_PREFIX: seq<int> := [101, 114, 114, 111, 114, 32]
  const ERROR_FORMAT: seq<int> := ERROR_PREFIX + [PERCENT, 100]

  /** A plain directive after literal text does not end inside a directive. */
  lemma {:induction false} OneDirectiveComplete(prefix: Text, conv: int, i: nat)
    requires PERCENT !in prefix && IsConversion(conv) && i <= |prefix|
    ensures NUL !in [PERCENT, conv] && Complete(prefix + [PERCENT, conv], i)
    decreases |prefix| - i
  {
    var f: Text := prefix + [PERCENT, conv];
    if i < |prefix| {
      OneDirectiveComplete(prefix, conv, i + 1);
    } else {
      assert f[i] == PERCENT && f[i + 1] == conv;
      assert ScanFlags(f, i + 1) == ([], i + 1);
      assert Complete(f, i + 2);
    }
  }

  lemma LiteralThenDirective(prefix: Text, conv: int, args: seq<Arg>)
    requires PERCENT !in prefix && IsConversion(conv)
    ensures NUL !in [PERCENT, conv]
    ensures Meaning(prefix + [PERCENT, conv], args) == Convert(conv, PLAIN, args).After(prefix)
  {
    assert prefix[0..] == prefix;
    LiteralText(prefix, 0, []);
    LiteralTextIsComplete(prefix, 0);
    PlainDirective(conv, args);
    FormatsCompose(prefix, [PERCENT, conv], [], args);
    assert [] + args == args;
  }

  /** A format with one plain directive between literal texts. */
  lemma OneDirective(prefix: Text, conv: int, suffix: Text, args: seq<Arg>, r: Rendering)
    requires PERCENT !in prefix && PERCENT !in suffix && IsConversion(conv)
    requires r == Convert(conv, PLAIN, args) && r.Done?
    ensures NUL !in [PERCENT, conv]
    ensures Meaning(prefix + [PERCENT, conv] + suffix, args) == Done(prefix + r.out + suffix, r.rest)
  {
    LiteralThenDirective(prefix, conv, args);
    OneDirectiveComplete(prefix, conv, 0);
    FormatsCompose(prefix + [PERCENT, conv], suffix, args, []);
    assert suffix[0..] == suffix;
    LiteralText(suffix, 0, r.rest);
    assert args + [] == args && r.rest + [] == r.rest;
  }

  /** `"error %d"` prints the code of an unknown error. */
  lemma ErrorNumber(err: nat)
    requires err <= INT_MAX
    ensures NUL !in ERROR_FORMAT
    ensures Meaning(ERROR_FORMAT, [Word(err)]) == Done(Codes("error ") + Numeral(err, 10), [])
  {
    assert ERROR_PREFIX == Codes("error ");
    LiteralThenDirective(ERROR_PREFIX, 100, [Word(err)]);
    NumeralLength(err, 10, Numeral(err, 10));
    assert Number(err, 10, -1, SPACE) == Numeral(err, 10);
  }

  lemma CodesAreText(s: string)
    requires forall i :: 0 <= i < |s| ==> s[i] != '\0'
    ensures NUL !in Codes(s)
  {
  }

  lemma ErrorTextIsText(err: nat)
    requires 1 <= err <= 6
    ensures NUL !in ErrorText(err) && |ErrorText(err)| < 100
  {
    CodesAreText("unspecified error");
    CodesAreText("bad environment");
    CodesAreText("invalid parameter");
    CodesAreText("out of memory");
    CodesAreText("out of environments");
    CodesAreText("segmentation fault");
  }
}
