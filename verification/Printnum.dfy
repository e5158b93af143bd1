/** Model of `printnum`, `sprintputch` and `strnlen` (lib/printfmt.c, lib/string.c):
    the output object of `vsnprintf` and the two printers that write to it. */
module Printnum {
  import opened CString

  // ---------------------------------------------------------------------------
  // Numerals
  // ---------------------------------------------------------------------------

  /** `"0123456789abcdef"[d]`. */
  function DigitChar(d: nat): int
    requires d < 16
  {
    if d < 10 then ZERO + d else 97 + d - 10
  }

  /** The numeral of `num`, most significant digit first. */
  function Numeral(num: nat, base: nat): (s: seq<int>)
    requires 2 <= base <= 16
    ensures |s| > 0
    decreases num
  {
    DivMod(num, base, num / base, num % base);
    (if num >= base then Numeral(num / base, base) else []) + [DigitChar(num % base)]
  }

  lemma DivMod(num: nat, base: nat, q: nat, r: nat)
    requires base >= 2 && q == num / base && r == num % base
    ensures q * base + r == num && r < base
    ensures if num >= base then q < num else q == 0
  {
  }

  /** All digits but the last are those of a number that is smaller by at least one. */
  lemma Shorter(num: nat, base: nat, q: nat)
    requires 2 <= base <= num && q == num / base
    ensures 1 <= q && q + 1 <= num
  {
    DivMod(num, base, q, num % base);
  }

  lemma {:induction false} NumeralLength(num: nat, base: nat, ds: seq<int>)
    requires 2 <= base <= 16 && ds == Numeral(num, base)
    ensures |ds| <= if num == 0 then 1 else num
    decreases num
  {
    if num >= base {
      var q := num / base;
      Shorter(num, base, q);
      NumeralLength(q, base, Numeral(q, base));
    }
  }

  /** The value of a lower-case digit. */
  function LowerValue(c: int): int
  {
    if c <= '9' as int then c - '0' as int else c - 'a' as int + 10
  }

  /** The number that lower-case digits denote. */
  function Denoted(ds: seq<int>, base: int): int
  {
    if ds == [] then 0 else Denoted(ds[..|ds| - 1], base) * base + LowerValue(ds[|ds| - 1])
  }

  predicate LowerDigit(c: int, base: int)
  {
    ('0' as int <= c <= '9' as int || 'a' as int <= c <= 'f' as int) && LowerValue(c) < base
  }

  /** Digits '0' to '9' and 'a' to 'f', all below the base. */
  ghost predicate LowerDigits(ds: seq<int>, base: int)
  {
    forall i :: 0 <= i < |ds| ==> LowerDigit(ds[i], base)
  }

  lemma DigitIsLower(r: nat, base: nat)
    requires r < base <= 16
    ensures LowerDigit(DigitChar(r), base) && LowerValue(DigitChar(r)) == r
  {
  }

  lemma DenotedAppend(ds: seq<int>, c: int, base: int, q: int, n: int)
    requires q == Denoted(ds, base) && n == q * base + LowerValue(c)
    ensures Denoted(ds + [c], base) == n
  {
    assert (ds + [c])[..|ds|] == ds;
  }

  lemma LowerAppend(ds: seq<int>, c: int, base: int)
    requires LowerDigits(ds, base) && LowerDigit(c, base)
    ensures LowerDigits(ds + [c], base)
  {
  }

  lemma {:induction false} NumeralIsLower(num: nat, base: nat, ds: seq<int>)
    requires 2 <= base <= 16 && ds == Numeral(num, base)
    ensures LowerDigits(ds, base)
    decreases num
  {
    var q: nat, r: nat := num / base, num % base;
    DivMod(num, base, q, r);
    DigitIsLower(r, base);
    var pre := if num >= base then Numeral(q, base) else [];
    if num >= base {
      NumeralIsLower(q, base, pre);
    }
    LowerAppend(pre, DigitChar(r), base);
  }

  lemma {:induction false} NoLeadingZero(num: nat, base: nat, ds: seq<int>)
    requires 2 <= base <= 16 && ds == Numeral(num, base)
    ensures |ds| > 0 && (ds[0] == '0' as int ==> num == 0 && |ds| == 1)
    decreases num
  {
    var q: nat, r: nat := num / base, num % base;
    DivMod(num, base, q, r);
    if num >= base {
      Shorter(num, base, q);
      NoLeadingZero(q, base, Numeral(q, base));
    }
  }

  lemma {:induction false} NumeralIsDenoted(num: nat, base: nat, ds: seq<int>)
    requires 2 <= base <= 16 && ds == Numeral(num, base)
    ensures Denoted(ds, base) == num
    decreases num
  {
    var q: nat, r: nat := num / base, num % base;
    DivMod(num, base, q, r);
    DigitIsLower(r, base);
    var pre := if num >= base then Numeral(q, base) else [];
    if num >= base {
      NumeralIsDenoted(q, base, pre);
    }
    DenotedAppend(pre, DigitChar(r), base, q, num);
  }

  /** A numeral is the shortest run of lower-case digits that denotes its number. */
  lemma NumeralSpells(num: nat, base: nat, ds: seq<int>)
    requires 2 <= base <= 16 && ds == Numeral(num, base)
    ensures LowerDigits(ds, base) && Denoted(ds, base) == num
    ensures |ds| > 0 && (ds[0] == '0' as int ==> num == 0 && |ds| == 1)
  {
    NumeralIsLower(num, base, ds);
    NumeralIsDenoted(num, base, ds);
    NoLeadingZero(num, base, ds);
  }

  /** The numeral, padded on the left to `width`. */
  function Number(num: nat, base: nat, width: int, padc: int): seq<int>
    requires 2 <= base <= 16
  {
    Repeat(padc, width - |Numeral(num, base)|) + Numeral(num, base)
  }

  // ---------------------------------------------------------------------------
  // Strings in a field
  // ---------------------------------------------------------------------------

  /** With the '#' flag, characters that are not printable become '?'. */
  function Shown(ch: int, alt: bool): int
  {
    if alt && (ch < SPACE || ch > 126) then 63 else ch
  }

  function ShownAll(p: seq<int>, alt: bool): (s: seq<int>)
    ensures |s| == |p|
    ensures forall i :: 0 <= i < |p| ==> s[i] == Shown(p[i], alt)
  {
    seq(|p|, i requires 0 <= i < |p| => Shown(p[i], alt))
  }

  /** The number of characters that a precision lets through; a negative precision
      lets all of them through. */
  function Limited(len: nat, precision: int): (n: nat)
    ensures n <= len
  {
    if precision < 0 || len <= precision then len else precision
  }

  /** A string of a given width and precision: padded on the left with `padc`, or
      on the right with spaces when `padc` is '-'. */
  function Field(p: seq<int>, width: int, precision: int, padc: int, alt: bool): seq<int>
  {
    var body := ShownAll(p[..Limited(|p|, precision)], alt);
    if padc != MINUS then Repeat(padc, width - |body|) + body
    else body + Repeat(SPACE, width - |body|)
  }

  /** What the code puts on the left of a string of `n` characters; the rest of the
      width, if any is left, goes to the right. */
  function LeftPad(n: nat, width: int, padc: int): seq<int>
  {
    if width > 0 && padc != MINUS then Repeat(padc, width - n) else []
  }

  function WidthLeft(n: nat, width: int, padc: int): int
  {
    if width <= 0 || padc == MINUS then width else if width > n then 0 else width - n
  }

  /** A width that fits an `int` can be counted down `n` times. */
  predicate WidthLasts(width: int, n: nat)
  {
    width - n >= INT_MIN
  }

  /** The length of a `%s` field, and what is where in it: '?' for a character that
      is not printable, with the '#' flag. */
  lemma FieldShape(p: seq<int>, width: int, precision: int, padc: int, alt: bool)
    ensures var n := Limited(|p|, precision);
            var f := Field(p, width, precision, padc, alt);
            var start := if padc == MINUS then 0 else |f| - n;
            && n == (if 0 <= precision < |p| then precision else |p|)
            && |f| == (if width > n then width else n)
            && (forall i :: 0 <= i < |f| ==>
                  f[i] == if !(start <= i < start + n) then (if padc == '-' as int then ' ' as int else padc)
                          else if alt && !(' ' as int <= p[i - start] <= '~' as int) then '?' as int
                          else p[i - start])
  {
  }

  // ---------------------------------------------------------------------------
  // The output object
  // ---------------------------------------------------------------------------

  /** How many of `len` characters fit below `limit`. */
  function Fitting(len: nat, limit: nat): (n: nat)
    ensures n <= len && n <= limit
  {
    if len < limit then len else limit
  }

  /** An array that held `before`, once `out` was put into its first `limit`
      places. */
  function Stored(out: seq<int>, limit: nat, before: seq<int>): (s: seq<int>)
    requires limit <= |before|
    ensures |s| == |before|
  {
    var n := Fitting(|out|, limit);
    seq(n, i requires 0 <= i < n => ToChar(out[i])) + before[n..]
  }

  /** `struct sprintbuf`: `pos` is the offset of `b->buf` and `limit` that of
      `b->ebuf`. `emitted` is everything that was ever put; `before` is what the
      array held at the start. */
  class Sprintbuf {
    const data: array<int>
    const limit: nat
    var pos: nat
    var cnt: nat
    ghost var emitted: seq<int>
    ghost const before: seq<int>

    /** The array holds the output as far as it fits; the rest is untouched. */
    ghost predicate Valid()
      reads this, data
    {
      && limit < |before|
      && cnt == |emitted|
      && pos == Fitting(|emitted|, limit)
      && data[..] == Stored(emitted, limit, before)
    }

    constructor (a: array<int>, n: nat)
      requires 1 <= n <= a.Length
      ensures Valid() && data == a && limit == n - 1 && before == a[..] && emitted == []
    {
      data, limit, pos, cnt := a, n - 1, 0, 0;
      emitted, before := [], a[..];
    }

    /** `sprintputch(ch, b)`. */
    method Put(ch: int)
      requires Valid()
      modifies this, data
      ensures Valid() && emitted == old(emitted) + [ch]
    {
      cnt := cnt + 1;
      if pos < limit {
        data[pos] := ToChar(ch);
        pos := pos + 1;
      }
      emitted := emitted + [ch];
      assert data[..] == Stored(emitted, limit, before);
    }
  }

  // ---------------------------------------------------------------------------
  // The printers
  // ---------------------------------------------------------------------------

  /** `for (...; width > 0; width--) putch(c)`. */
  method PutRepeated(b: Sprintbuf, c: int, n: int)
    requires b.Valid()
    modifies b, b.data
    ensures b.Valid() && b.emitted == old(b.emitted) + Repeat(c, n)
  {
    var k := n;
    while k > 0
      invariant k == n || 0 <= k <= n
      invariant b.Valid() && b.emitted == old(b.emitted) + Repeat(c, n - k)
    {
      b.Put(c);
      k := k - 1;
    }
  }

  /** What comes before the last digit, and how long a numeral is. */
  lemma LastDigitOf(num: nat, base: nat, width: int, padc: int, q: nat, before: seq<int>)
    requires 2 <= base <= 16 && q == num / base
    requires before == if num >= base then Number(q, base, width - 1, padc) else Repeat(padc, width - 1)
    ensures Number(num, base, width, padc) == before + [DigitChar(num % base)]
    ensures |Numeral(num, base)| == if num >= base then |Numeral(q, base)| + 1 else 1
  {
  }

  /** `printnum(putch, b, num, base, width, padc)`. The width is counted down once
      for every digit. */
  method PutNumber(b: Sprintbuf, num: nat, base: nat, width: int, padc: int)
    requires b.Valid() && 2 <= base <= 16 && WidthLasts(width, |Numeral(num, base)|)
    modifies b, b.data
    ensures b.Valid() && b.emitted == old(b.emitted) + Number(num, base, width, padc)
    decreases num
  {
    assert width - 1 >= INT_MIN;  // no underflow
    var q: nat := num / base;
    DivMod(num, base, q, num % base);
    ghost var before := if num >= base then Number(q, base, width - 1, padc) else Repeat(padc, width - 1);
    LastDigitOf(num, base, width, padc, q, before);
    if num >= base {
      PutNumber(b, q, base, width - 1, padc);
    } else {
      PutRepeated(b, padc, width - 1);
    }
    b.Put(DigitChar(num % base));
  }

  /** `strnlen(s, size)`. */
  method Strnlen(s: Text, size: nat) returns (n: nat)
    ensures n == if |s| <= size then |s| else size
  {
    n := 0;
    var left: nat := size;
    while left > 0 && CharAt(s, n) != NUL
      invariant left + n == size && n <= |s|
    {
      n := n + 1;
      left := left - 1;
    }
  }

  /** The loop that puts the characters of a string and counts `width` and
      `precision` down; returns what is left of the width. */
  method PutBody(b: Sprintbuf, p: Text, width: int, precision: int, alt: bool) returns (w: int)
    requires b.Valid() && WidthLasts(width, Limited(|p|, precision)) && INT_MIN <= precision
    modifies b, b.data
    ensures b.Valid()
    ensures b.emitted == old(b.emitted) + ShownAll(p[..Limited(|p|, precision)], alt)
    ensures w == width - Limited(|p|, precision)
  {
    ghost var body := ShownAll(p[..Limited(|p|, precision)], alt);
    w := width;
    var prec := precision;
    var i := 0;
    while i < |p| && (prec < 0 || prec - 1 >= 0)
      invariant 0 <= i <= |body|
      invariant precision < 0 ==> prec == precision
      invariant precision >= 0 ==> prec == precision - i
      invariant w == width - i
      invariant b.Valid() && b.emitted == old(b.emitted) + body[..i]
    {
      prec := if prec < 0 then prec else prec - 1;
      b.Put(Shown(p[i], alt));
      i := i + 1;
      w := w - 1;
      assert w >= INT_MIN;  // no underflow
    }
    assert body[..i] == body;
  }

  /** A field is what the code puts on the left, the string and what it then puts
      on the right. */
  lemma FieldSides(p: seq<int>, width: int, precision: int, padc: int, alt: bool, body: seq<int>, f: seq<int>)
    requires body == ShownAll(p[..Limited(|p|, precision)], alt)
    requires f == Field(p, width, precision, padc, alt)
    ensures f == LeftPad(|body|, width, padc) + body + Repeat(SPACE, WidthLeft(|body|, width, padc) - |body|)
  {
    BothSides(body, width, padc, f);
  }

  lemma BothSides(body: seq<int>, width: int, padc: int, f: seq<int>)
    requires f == if padc != MINUS then Repeat(padc, width - |body|) + body else body + Repeat(SPACE, width - |body|)
    ensures f == LeftPad(|body|, width, padc) + body + Repeat(SPACE, WidthLeft(|body|, width, padc) - |body|)
  {
    var right := Repeat(SPACE, WidthLeft(|body|, width, padc) - |body|);
    if padc == MINUS {
      assert [] + body == body;
    } else {
      assert right == [];
      assert width <= 0 ==> Repeat(padc, width - |body|) == [];
      assert LeftPad(|body|, width, padc) == Repeat(padc, width - |body|);
    }
  }

  lemma AppendedThrice(e: seq<int>, a: seq<int>, b: seq<int>, c: seq<int>)
    ensures e + a + b + c == e + (a + b + c)
  {
  }

  /** The left padding of the `case 's'`; returns what is left of the width. A
      negative precision becomes a `size_t` of at least 2^31, which no string
      reaches. */
  method PutLeftPad(b: Sprintbuf, p: Text, width: int, precision: int, padc: int) returns (w: int)
    requires b.Valid()
    requires |p| <= INT_MAX && INT_MIN <= precision
    modifies b, b.data
    ensures b.Valid() && b.emitted == old(b.emitted) + LeftPad(Limited(|p|, precision), width, padc)
    ensures w == WidthLeft(Limited(|p|, precision), width, padc)
  {
    w := width;
    if width > 0 && padc != MINUS {
      var n := Strnlen(p, if precision < 0 then precision + 0x1_0000_0000 else precision);
      w := width - n;
      assert w >= INT_MIN;  // no underflow
      PutRepeated(b, padc, w);
      w := if w > 0 then 0 else w;
    }
  }

  /** The `case 's'` of `vprintfmt`. */
  method PutField(b: Sprintbuf, p: Text, width: int, precision: int, padc: int, alt: bool)
    requires b.Valid()
    requires |p| <= INT_MAX && INT_MIN <= precision
    requires var n := Limited(|p|, precision); WidthLasts(WidthLeft(n, width, padc), n)
    modifies b, b.data
    ensures b.Valid() && b.emitted == old(b.emitted) + Field(p, width, precision, padc, alt)
  {
    ghost var before := b.emitted;
    ghost var body := ShownAll(p[..Limited(|p|, precision)], alt);
    ghost var left := LeftPad(|body|, width, padc);
    var w := PutLeftPad(b, p, width, precision, padc);
    w := PutBody(b, p, w, precision, alt);
    PutRepeated(b, SPACE, w);
    assert b.emitted == before + left + body + Repeat(SPACE, w);
    AppendedThrice(before, left, body, Repeat(SPACE, w));
    FieldSides(p, width, precision, padc, alt, body, Field(p, width, precision, padc, alt));
  }
}
