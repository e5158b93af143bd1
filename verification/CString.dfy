/** Characters and C strings. A character is an `int`: `char` is signed on this
    target, so a character of a string is in -128..127, while a character passed
    to an output routine may be any `int`. */
module CString {
  const NUL := 0
  const BACKSPACE := 8
  const TAB := 9
  const NEWLINE := 10
  const RETURN := 13
  const SPACE := 32
  const HASH := 35
  const PERCENT := 37
  const STAR := 42
  const PLUS := 43
  const MINUS := 45
  const DOT := 46
  const ZERO := 48
  const NINE := 57

  const INT_MAX := 0x7fff_ffff
  const INT_MIN := -0x8000_0000

  /** The characters of a C string, without its terminator. */
  type Text = s: seq<int> | NUL !in s witness []

  /** The characters of a string constant. */
  function Codes(s: string): seq<int>
  {
    seq(|s|, i requires 0 <= i < |s| => s[i] as int)
  }

  /** A buffer that holds a C string from its first byte to its last. */
  ghost predicate Terminated(buf: seq<int>)
  {
    |buf| > 0 && buf[|buf| - 1] == NUL && NUL !in buf[..|buf| - 1]
  }

  /** The character a C program reads at `s[i]`. */
  function CharAt(s: Text, i: nat): (c: int)
    requires i <= |s|
    ensures c == NUL <==> i == |s|
  {
    if i < |s| then s[i] else NUL
  }

  /** `n` copies of `c`; none when `n` is negative. */
  function Repeat(c: int, n: int): (r: seq<int>)
    ensures |r| == if n > 0 then n else 0
    ensures forall i :: 0 <= i < |r| ==> r[i] == c
  {
    if n <= 0 then [] else Repeat(c, n - 1) + [c]
  }

  type byte = n: nat | n < 256

  /** A `char`. */
  type schar = c: int | -128 <= c <= 127

  type uint32 = n: nat | n <= 0xffff_ffff
  type uint64 = n: nat | n <= 0xffff_ffff_ffff_ffff

  /** A 32-bit pattern read as an `int`. */
  function Signed32(bits: uint32): (n: int)
    ensures INT_MIN <= n <= INT_MAX
  {
    if bits < 0x8000_0000 then bits else bits - 0x1_0000_0000
  }

  const LLONG_MAX := 0x7fff_ffff_ffff_ffff

  /** A 64-bit pattern read as a `long long`. */
  function Signed64(bits: uint64): int
  {
    if bits < 0x8000_0000_0000_0000 then bits else bits - 0x1_0000_0000_0000_0000
  }

  /** An `int` stored in a `char`. */
  function ToChar(ch: int): schar
  {
    var low := ch % 256;
    if low < 128 then low else low - 256
  }

  /** The bits of an `int` are those of its pattern, and so for a `long long`. */
  lemma SignedBits(word: uint32, quad: uint64)
    ensures INT_MIN <= Signed32(word) <= INT_MAX && (word - Signed32(word)) % 0x1_0000_0000 == 0
    ensures -LLONG_MAX - 1 <= Signed64(quad) <= LLONG_MAX && (quad - Signed64(quad)) % 0x1_0000_0000_0000_0000 == 0
  {
  }

  /** A `char` keeps the low eight bits. */
  lemma CharBits(ch: int)
    ensures -128 <= ToChar(ch) <= 127 && (ch - ToChar(ch)) % 256 == 0
  {
  }
}
