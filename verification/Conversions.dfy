/** What the directives of `vprintfmt` (lib/printfmt.c) print, in literal text. */
module Conversions {
  import opened CString
  import opened Printnum
  import opened Format
  import opened WrittenFormat
  import opened Strtol
  import opened MinusFlag
  import opened RoundTrip

  // ---------------------------------------------------------------------------
  // Numbers
  // ---------------------------------------------------------------------------

  /** Prefix, padding, digits. */
  function Shape(prefix: seq<int>, spec: Spec, ds: seq<int>): seq<int>
  {
    prefix + (Repeat(spec.padc, spec.width - |ds|) + ds)
  }

  lemma NumericShape(conv: int, spec: Spec, arg: Arg, s: seq<int>, n: int, ds: seq<int>)
    requires Numeric(conv) && Convert(conv, spec, [arg]) == Done(s, []) && n == NumberOf(conv, arg)
    requires ds == Numeral(if n < 0 then -n else n, BaseOf(conv))
    ensures s == Shape(Prefix(conv, n), spec, ds)
  {
    NumericOutput(conv, spec, arg, s);
    PrefixThenNumber(conv, spec, n, s);
    NumberIsShape(Prefix(conv, n), if n < 0 then -n else n, BaseOf(conv), spec, ds);
  }

  lemma NumberIsShape(prefix: seq<int>, m: nat, base: nat, spec: Spec, ds: seq<int>)
    requires 2 <= base <= 16 && ds == Numeral(m, base)
    ensures prefix + Number(m, base, spec.width, spec.padc) == Shape(prefix, spec, ds)
  {
  }

  /** For every format that is one numeric directive, every number and all flags: the
      sign or "0x", the padding, and the shortest lower-case digits that denote the
      number in base 8 for `%o`, 16 for `%x` and `%p`, and 10 otherwise. */
  lemma NumericText(f: Text, args: seq<Arg>, conv: int, spec: Spec, arg: Arg, n: int, base: int, prefix: seq<int>)
    returns (ds: seq<int>)
    requires OneNumber(f, args, conv, spec, arg) && n == NumberOf(conv, arg)
    requires base == if conv == 'o' as int then 8 else if conv == 'x' as int || conv == 'p' as int then 16 else 10
    requires prefix == if conv == 'p' as int then Codes("0x") else if n < 0 then Codes("-") else []
    ensures LowerDigits(ds, base) && Denoted(ds, base) == if n < 0 then -n else n
    ensures |ds| > 0 && (ds[0] == '0' as int ==> n == 0 && |ds| == 1)
    ensures Meaning(f, args) == Done(Shape(prefix, spec, ds), [])
  {
    var m: nat := if n < 0 then -n else n;
    ds := Numeral(m, BaseOf(conv));
    NumeralSpells(m, BaseOf(conv), ds);
    var s := Convert(conv, spec, [arg]).out;
    OneNumberMeaning(f, args, conv, spec, arg, s);
    NumericShape(conv, spec, arg, s, n, ds);
    assert prefix == Prefix(conv, n);
  }

  /** `cprintf("%x", 57616)`, as the kernel monitor does when it starts. */
  lemma HexText(f: Text)
    requires f == Codes("%x")
    ensures Meaning(f, [Word(57616)]) == Done(Codes("e110"), [])
  {
    assert f == [PERCENT, 120];
    PlainDirective(120, [Word(57616)]);
    assert Numeral(57616, 16) == Numeral(3601, 16) + [48];
    assert Numeral(3601, 16) == Numeral(225, 16) + [49];
    assert Numeral(225, 16) == Numeral(14, 16) + [49] == [101, 49];
    assert Codes("e110") == [101, 49, 49, 48];
    assert Number(57616, 16, -1, SPACE) == Numeral(57616, 16);
  }

  /** One 'l' makes no difference; with two, the argument is a `long long`. */
  lemma LongText(f: Text, l: Text, ll: Text, w: uint32, q: uint64)
    requires f == Codes("%x") && l == Codes("%lx") && ll == Codes("%llx")
    ensures Meaning(f, [Word(w)]) == Meaning(l, [Word(w)])
    ensures Meaning(f, [Quad(q)]) == Meaning(l, [Quad(q)]) == Meaning(ll, [Word(w)]) == Undefined
    ensures WidthLasts(-1, |Numeral(q, 16)|) ==> Meaning(ll, [Quad(q)]) == Done(Numeral(q, 16), [])
  {
    Plain(f, 120, [Word(w)]);
    Plain(f, 120, [Quad(q)]);
    LongFlags(l, ll);
    OneItem(l, [Long], 120, [Word(w)]);
    OneItem(l, [Long], 120, [Quad(q)]);
    OneItem(ll, [Long, Long], 120, [Word(w)]);
    OneItem(ll, [Long, Long], 120, [Quad(q)]);
    LongsAreSet([Word(w)]);
    LongsAreSet([Quad(q)]);
    assert Number(q, 16, -1, SPACE) == Numeral(q, 16);
  }

  lemma LongFlags(l: Text, ll: Text)
    requires l == Codes("%lx") && ll == Codes("%llx")
    ensures l == [PERCENT, 108, 120] && ScanFlags(l, 1) == ([Long], 2)
    ensures ll == [PERCENT, 108, 108, 120] && ScanFlags(ll, 1) == ([Long, Long], 3)
  {
    EndOfFlags(l, 2);
    FlagThen(l, 1, Long, 2, [], 2);
    EndOfFlags(ll, 3);
    FlagThen(ll, 2, Long, 3, [], 3);
    FlagThen(ll, 1, Long, 2, [Long] + [], 3);
    assert [Long] + [] == [Long] && [Long] + [Long] == [Long, Long];
  }

  lemma LongsAreSet(args: seq<Arg>)
    ensures SetFlags(PLAIN, [Long], args) == Set(PLAIN.(lflag := 1), args)
    ensures SetFlags(PLAIN, [Long, Long], args) == Set(PLAIN.(lflag := 2), args)
  {
    assert [Long][1..] == [] && [Long, Long][1..] == [Long];
    assert SetFlags(PLAIN.(lflag := 2), [], args) == Set(PLAIN.(lflag := 2), args);
    assert SetFlags(PLAIN.(lflag := 1), [Long], args) == Set(PLAIN.(lflag := 2), args);
  }

  // ---------------------------------------------------------------------------
  // What is undefined
  // ---------------------------------------------------------------------------

  /** `%lld` is defined except for the least `long long`, whose negation overflows, and
      for widths that underflow when counted down by the digits. */
  lemma LongLongDefinedIff(spec: Spec, q: uint64, n: int)
    requires spec.lflag >= 2 && n == Signed64(q)
    ensures Convert(100, spec, [Quad(q)]).Done? <==>
              && q != 0x8000_0000_0000_0000
              && spec.width - |Numeral(if n < 0 then -n else n, 10)| >= -0x8000_0000
  {
  }

  /** A number in a format is read iff the sum of its last step fits an `int` before
      '0' is subtracted. */
  lemma NumberReadIff(s: Spec, n: nat, args: seq<Arg>)
    ensures SetFlag(s, Size(n), args).Set? <==> n + '0' as int <= 0x7fff_ffff
  {
  }

  // ---------------------------------------------------------------------------
  // Characters and texts
  // ---------------------------------------------------------------------------

  /** A format that is '%' and a conversion character. */
  lemma Plain(f: Text, conv: int, args: seq<Arg>)
    requires IsConversion(conv) && f == [PERCENT, conv]
    ensures Meaning(f, args) == Convert(conv, PLAIN, args)
  {
    PlainDirective(conv, args);
  }

  /** `"%c"` prints the `int` whose bits are the argument. */
  lemma CharText(f: Text, w: uint32, n: int)
    requires f == Codes("%c") && INT_MIN <= n <= INT_MAX && (w - n) % 0x1_0000_0000 == 0
    ensures Meaning(f, [Word(w)]) == Done([n], [])
  {
    assert f == [PERCENT, 99];
    Plain(f, 99, [Word(w)]);
    SignedBits(w, 0);
  }

  lemma PercentText(f: Text, args: seq<Arg>)
    requires f == Codes("%%")
    ensures Meaning(f, args) == Done(Codes("%"), args)
  {
    assert f == [PERCENT, PERCENT] && Codes("%") == [PERCENT];
    Plain(f, PERCENT, args);
  }

  lemma NullText(f: Text)
    requires f == Codes("%s")
    ensures Meaning(f, [NullStr]) == Done(Codes("(null)"), [])
  {
    assert f == [PERCENT, 115];
    Plain(f, 115, [NullStr]);
    var p := Codes("(null)");
    assert ShownAll(p[..|p|], false) == p;
    assert Field(p, -1, -1, SPACE, false) == p;
  }

  /** `"%e"` prints the text of an error, whatever the sign of its code, and the code
      when it has no text. */
  lemma ErrorsText(f: Text, w: uint32, n: nat)
    requires f == Codes("%e") && (Signed32(w) == n || Signed32(w) + n == 0) && n <= INT_MAX
    ensures n == 1 ==> Meaning(f, [Word(w)]) == Done(Codes("unspecified error"), [])
    ensures n == 2 ==> Meaning(f, [Word(w)]) == Done(Codes("bad environment"), [])
    ensures n == 3 ==> Meaning(f, [Word(w)]) == Done(Codes("invalid parameter"), [])
    ensures n == 4 ==> Meaning(f, [Word(w)]) == Done(Codes("out of memory"), [])
    ensures n == 5 ==> Meaning(f, [Word(w)]) == Done(Codes("out of environments"), [])
    ensures n == 6 ==> Meaning(f, [Word(w)]) == Done(Codes("segmentation fault"), [])
    ensures n == 0 || n > 6 ==> Meaning(f, [Word(w)]) == Done(Codes("error ") + Numeral(n, 10), [])
  {
    assert f == [PERCENT, 101];
    Plain(f, 101, [Word(w)]);
  }

  /** `"%#s"` shows characters that are not printable as '?'. */
  lemma SharpText(f: Text, t: Text, s: seq<int>)
    requires f == Codes("%#s") && |t| <= INT_MAX && |s| == |t|
    requires forall i :: 0 <= i < |t| ==> s[i] == if ' ' as int <= t[i] <= '~' as int then t[i] else '?' as int
    ensures Meaning(f, [Str(t)]) == Done(s, [])
  {
    var args := [Str(t)];
    assert f == [PERCENT, HASH, 115];
    EndOfFlags(f, 2);
    FlagThen(f, 1, Alt, 2, [], 2);
    assert [Alt] + [] == [Alt] && [Alt][1..] == [];
    OneItem(f, [Alt], 115, args);
    RenderDirective([Alt], 115, args, PLAIN.(alt := true), args);
    assert ShownAll(t[..|t|], true) == s;
    assert Field(t, -1, -1, SPACE, true) == s;
  }

  /** The two numbers of `"%*.*s"` are a width and a precision. */
  lemma StarsText(f: Text, w: nat, p: nat, t: Text, s: seq<int>)
    requires f == Codes("%*.*s") && w <= INT_MAX && p <= INT_MAX && |t| <= INT_MAX
    requires s == StarsField(w, p, t)
    requires var n := if |t| <= p then |t| else p; w == 0 || w > n || w - 2 * n >= INT_MIN
    ensures Meaning(f, [Word(w), Word(p), Str(t)]) == Done(s, [])
  {
    var args := [Word(w), Word(p), Str(t)];
    var flags := [Star, Dot, Star];
    StarsFlags(f, flags);
    OneItem(f, flags, 115, args);
    StarsAreSet(args, w, p, t);
    var spec := PLAIN.(width := w, precision := p);
    RenderDirective(flags, 115, args, spec, [Str(t)]);
    FieldOfStars(spec, w, p, t);
  }

  /** The first `p` characters, after spaces up to the width. */
  function StarsField(w: nat, p: nat, t: Text): seq<int>
  {
    var n := if |t| <= p then |t| else p;
    Repeat(' ' as int, w - n) + t[..n]
  }

  lemma FieldOfStars(spec: Spec, w: nat, p: nat, t: Text)
    requires spec == PLAIN.(width := w, precision := p) && |t| <= INT_MAX
    requires var n := if |t| <= p then |t| else p; w == 0 || w > n || w - 2 * n >= INT_MIN
    ensures Convert(115, spec, [Str(t)]) == Done(StarsField(w, p, t), [])
  {
    var n := Limited(|t|, p);
    assert ShownAll(t[..n], false) == t[..n];
  }

  lemma StarsFlags(f: Text, flags: seq<Flag>)
    requires f == Codes("%*.*s") && flags == [Star, Dot, Star]
    ensures f == [PERCENT, STAR, DOT, STAR, 115] && ScanFlags(f, 1) == (flags, 4)
  {
    EndOfFlags(f, 4);
    FlagThen(f, 3, Star, 4, [], 4);
    FlagThen(f, 2, Dot, 3, [Star] + [], 4);
    FlagThen(f, 1, Star, 2, [Dot] + ([Star] + []), 4);
    assert [Star] + ([Dot] + ([Star] + [])) == flags;
  }

  lemma StarsAreSet(args: seq<Arg>, w: nat, p: nat, t: Text)
    requires w <= INT_MAX && p <= INT_MAX && args == [Word(w), Word(p), Str(t)]
    ensures SetFlags(PLAIN, [Star, Dot, Star], args) == Set(PLAIN.(width := w, precision := p), [Str(t)])
  {
    var s1, s2 := PLAIN.(width := w), PLAIN.(width := w, precision := p);
    assert args[1..] == [Word(p), Str(t)] && args[1..][1..] == [Str(t)];
    assert [Star, Dot, Star][1..] == [Dot, Star] && [Dot, Star][1..] == [Star] && [Star][1..] == [];
    assert SetFlags(s2, [], [Str(t)]) == Set(s2, [Str(t)]);
    assert SetFlags(s1, [Star], args[1..]) == Set(s2, [Str(t)]);
    assert SetFlags(s1, [Dot, Star], args[1..]) == Set(s2, [Str(t)]);
  }

  /** '%' before any character that is neither a flag nor a conversion prints back. */
  lemma OtherCharacters(f: Text, c: int, args: seq<Arg>)
    requires c !in Codes("-0123456789*.#l") && c !in Codes("cesduopx%") && f == [PERCENT, c]
    ensures Meaning(f, args) == Done(f, args)
  {
    var flags, conversions := Codes("-0123456789*.#l"), Codes("cesduopx%");
    assert flags == [45, 48, 49, 50, 51, 52, 53, 54, 55, 56, 57, 42, 46, 35, 108];
    assert conversions == [99, 101, 115, 100, 117, 111, 112, 120, 37];
    assert FlagAt(f, 1) == ([], 1);
    assert SetFlags(PLAIN, [], args) == Set(PLAIN, args);
    UnrecognisedPrintsBack(f, args);
  }
}
