/** Model of `memmove` and `memset` (lib/string.c), in place on a memory. Addresses
    are indices of an array; the string instructions are copy loops. */
module Memory {

  /** Memory after the `n` cells at `src` were copied to `dst`. */
  function Moved<T>(m: seq<T>, dst: nat, src: nat, n: nat): (r: seq<T>)
    requires dst + n <= |m| && src + n <= |m|
    ensures |r| == |m|
    ensures forall i :: 0 <= i < |m| ==> r[i] == if dst <= i < dst + n then m[i - dst + src] else m[i]
  {
    seq(|m|, i requires 0 <= i < |m| => if dst <= i < dst + n then m[i - dst + src] else m[i])
  }

  /** Memory after the `n` cells at `dst` were set to `c`. */
  function Filled<T>(m: seq<T>, dst: nat, c: T, n: nat): (r: seq<T>)
    requires dst + n <= |m|
    ensures |r| == |m|
    ensures forall i :: 0 <= i < |m| ==> r[i] == if dst <= i < dst + n then c else m[i]
  {
    seq(|m|, i requires 0 <= i < |m| => if dst <= i < dst + n then c else m[i])
  }

  /** `w` more cells above `k` cells that were moved: their sources have not been
      written. */
  lemma MovedUp<T>(was: seq<T>, dst: nat, src: nat, k: nat, w: nat)
    requires dst + k + w <= |was| && src + k + w <= |was|
    requires dst <= src || src + k + w <= dst
    ensures Moved(Moved(was, dst, src, k), dst + k, src + k, w) == Moved(was, dst, src, k + w)
  {
  }

  /** `w` more cells below `k` cells that were moved. */
  lemma MovedDown<T>(was: seq<T>, dst: nat, src: nat, k: nat, w: nat)
    requires dst + k + w <= |was| && src <= dst
    ensures Moved(Moved(was, dst + w, src + w, k), dst, src, w) == Moved(was, dst, src, k + w)
  {
  }

  // ---------------------------------------------------------------------------
  // memmove
  // ---------------------------------------------------------------------------

  method MoveCell<T>(mem: array<T>, d: nat, s: nat)
    requires d < mem.Length && s < mem.Length
    modifies mem
    ensures mem[..] == Moved(old(mem[..]), d, s, 1)
  {
    mem[d] := mem[s];
  }

  /** One word move: all four cells are loaded before any is stored. */
  method MoveWord<T>(mem: array<T>, d: nat, s: nat)
    requires d + 4 <= mem.Length && s + 4 <= mem.Length
    modifies mem
    ensures mem[..] == Moved(old(mem[..]), d, s, 4)
  {
    var b0, b1, b2, b3 := mem[s], mem[s + 1], mem[s + 2], mem[s + 3];
    mem[d] := b0;
    mem[d + 1] := b1;
    mem[d + 2] := b2;
    mem[d + 3] := b3;
  }

  /** `cld; rep movsb`: upwards, one cell at a time. */
  method ForwardBytes<T>(mem: array<T>, dst: nat, src: nat, count: nat)
    requires dst + count <= mem.Length && src + count <= mem.Length
    requires dst <= src || src + count <= dst
    modifies mem
    ensures mem[..] == Moved(old(mem[..]), dst, src, count)
  {
    ghost var was := mem[..];
    var k := 0;
    while k < count
      invariant 0 <= k <= count
      invariant mem[..] == Moved(was, dst, src, k)
    {
      MovedUp(was, dst, src, k, 1);
      MoveCell(mem, dst + k, src + k);
      k := k + 1;
    }
  }

  /** `std; rep movsb`, started at the last cells: downwards, one cell at a time. */
  method BackwardBytes<T>(mem: array<T>, dst: nat, src: nat, count: nat)
    requires dst + count <= mem.Length && src <= dst
    modifies mem
    ensures mem[..] == Moved(old(mem[..]), dst, src, count)
  {
    ghost var was := mem[..];
    var k := count;
    while k > 0
      invariant 0 <= k <= count
      invariant mem[..] == Moved(was, dst + k, src + k, count - k)
    {
      k := k - 1;
      MovedDown(was, dst + k, src + k, count - k - 1, 1);
      MoveCell(mem, dst + k, src + k);
    }
  }

  /** `cld; rep movsl`: upwards, one word at a time. It moves `4 * words` cells,
      whatever the alignment. */
  method ForwardWords<T>(mem: array<T>, dst: nat, src: nat, words: nat)
    requires dst + 4 * words <= mem.Length && src + 4 * words <= mem.Length
    requires dst <= src || src + 4 * words <= dst
    modifies mem
    ensures mem[..] == Moved(old(mem[..]), dst, src, 4 * words)
  {
    ghost var was := mem[..];
    ghost var k := 0;
    var d, s, left := dst, src, words;
    while left > 0
      invariant 0 <= left <= words && k == 4 * (words - left)
      invariant d == dst + k && s == src + k
      invariant mem[..] == Moved(was, dst, src, k)
    {
      MovedUp(was, dst, src, k, 4);
      MoveWord(mem, d, s);
      d, s, left := d + 4, s + 4, left - 1;
      k := k + 4;
    }
  }

  /** `std; rep movsl`, started at the last words: downwards. */
  method BackwardWords<T>(mem: array<T>, dst: nat, src: nat, words: nat)
    requires dst + 4 * words <= mem.Length && src <= dst
    modifies mem
    ensures mem[..] == Moved(old(mem[..]), dst, src, 4 * words)
  {
    ghost var was := mem[..];
    ghost var k := 0;
    var d, s, left := dst + 4 * words, src + 4 * words, words;
    while left > 0
      invariant 0 <= left <= words && k == 4 * (words - left)
      invariant d == dst + 4 * left && s == src + 4 * left
      invariant mem[..] == Moved(was, d, s, k)
    {
      d, s, left := d - 4, s - 4, left - 1;
      MovedDown(was, d, s, k, 4);
      MoveWord(mem, d, s);
      k := k + 4;
    }
  }

  /** `memmove(dst, src, n)`: correct for every overlap. */
  method Memmove<T>(mem: array<T>, dst: nat, src: nat, n: nat)
    requires dst + n <= mem.Length && src + n <= mem.Length
    modifies mem
    ensures mem[..] == Moved(old(mem[..]), dst, src, n)
  {
    var s, d := src, dst;
    if s < d && s + n > d {
      s, d := s + n, d + n;
      if s % 4 == 0 && d % 4 == 0 && n % 4 == 0 {
        BackwardWords(mem, d - 4 * (n / 4), s - 4 * (n / 4), n / 4);
      } else {
        BackwardBytes(mem, d - n, s - n, n);
      }
    } else {
      if s % 4 == 0 && d % 4 == 0 && n % 4 == 0 {
        ForwardWords(mem, d, s, n / 4);
      } else {
        ForwardBytes(mem, d, s, n);
      }
    }
  }

  /** `while (n-- > 0) *--d = *--s`. */
  method CopyDown<T>(mem: array<T>, dst: nat, src: nat, n: nat)
    requires dst + n <= mem.Length && src <= dst
    modifies mem
    ensures mem[..] == Moved(old(mem[..]), dst, src, n)
  {
    ghost var was := mem[..];
    var s, d, left := src + n, dst + n, n;
    while left > 0
      invariant 0 <= left <= n && s == src + left && d == dst + left
      invariant mem[..] == Moved(was, d, s, n - left)
    {
      left := left - 1;
      s, d := s - 1, d - 1;
      MovedDown(was, d, s, n - left - 1, 1);
      MoveCell(mem, d, s);
    }
  }

  /** `while (n-- > 0) *d++ = *s++`. */
  method CopyUp<T>(mem: array<T>, dst: nat, src: nat, n: nat)
    requires dst + n <= mem.Length && src + n <= mem.Length
    requires dst <= src || src + n <= dst
    modifies mem
    ensures mem[..] == Moved(old(mem[..]), dst, src, n)
  {
    ghost var was := mem[..];
    var s, d, left := src, dst, n;
    while left > 0
      invariant 0 <= left <= n && s == src + n - left && d == dst + n - left
      invariant mem[..] == Moved(was, dst, src, n - left)
    {
      MovedUp(was, dst, src, n - left, 1);
      MoveCell(mem, d, s);
      s, d, left := s + 1, d + 1, left - 1;
    }
  }

  /** The variant without string instructions. */
  method MemmoveC<T>(mem: array<T>, dst: nat, src: nat, n: nat)
    requires dst + n <= mem.Length && src + n <= mem.Length
    modifies mem
    ensures mem[..] == Moved(old(mem[..]), dst, src, n)
  {
    if src < dst && src + n > dst {
      CopyDown(mem, dst, src, n);
    } else {
      CopyUp(mem, dst, src, n);
    }
  }

  /** Moving whole words only moves all cells, for every memory with distinct cells,
      iff the count is a multiple of four: the last part of the alignment test is
      what the word paths need. */
  lemma WordsMoveAllIff(m: seq<int>, dst: nat, src: nat, n: nat)
    requires dst + n <= |m| && src + n <= |m| && dst != src
    requires forall i, j :: 0 <= i < j < |m| ==> m[i] != m[j]
    ensures Moved(m, dst, src, 4 * (n / 4)) == Moved(m, dst, src, n) <==> n % 4 == 0
  {
    if n % 4 != 0 {
      var i := n - 1;
      assert Moved(m, dst, src, n)[dst + i] == m[src + i];
      assert Moved(m, dst, src, 4 * (n / 4))[dst + i] == m[dst + i];
    }
  }

  // ---------------------------------------------------------------------------
  // memset
  // ---------------------------------------------------------------------------

  /** `(c<<24)|(c<<16)|(c<<8)|c` for a byte `c`. */
  function Replicated(c: nat): nat
  {
    c * 0x100_0000 + c * 0x1_0000 + c * 0x100 + c
  }

  /** Every byte of the replicated word is the byte. */
  lemma ReplicatedBytes(c: nat)
    requires c < 256
    ensures var w := Replicated(c);
            w % 256 == c && w / 0x100 % 256 == c && w / 0x1_0000 % 256 == c && w / 0x100_0000 % 256 == c
  {
    var w := Replicated(c);
    assert w == (c * 0x1_0101) * 0x100 + c;
    assert w / 0x100 == c * 0x1_0101 == (c * 0x101) * 0x100 + c;
    assert w == (c * 0x101) * 0x1_0000 + c * 0x101;
    assert w / 0x1_0000 == c * 0x101 == c * 0x100 + c;
    assert w == c * 0x100_0000 + c * 0x1_0101;
    assert w / 0x100_0000 == c;
  }

  /** `cld; rep stosl`: stores a word in little-endian order, upwards. */
  method StoreWords(mem: array<int>, dst: nat, w: nat, words: nat)
    requires dst + 4 * words <= mem.Length
    requires w / 0x100 % 256 == w % 256 && w / 0x1_0000 % 256 == w % 256 && w / 0x100_0000 % 256 == w % 256
    modifies mem
    ensures mem[..] == Filled(old(mem[..]), dst, w % 256, 4 * words)
  {
    ghost var was := mem[..];
    var k := 0;
    while k < words
      invariant 0 <= k <= words
      invariant forall i :: dst <= i < dst + 4 * k ==> mem[i] == w % 256
      invariant forall i :: (0 <= i < dst || dst + 4 * k <= i < mem.Length) ==> mem[i] == was[i]
    {
      var d := dst + 4 * k;
      mem[d] := w % 256;
      mem[d + 1] := w / 0x100 % 256;
      mem[d + 2] := w / 0x1_0000 % 256;
      mem[d + 3] := w / 0x100_0000 % 256;
      k := k + 1;
    }
  }

  /** `cld; rep stosb`. */
  method StoreBytes(mem: array<int>, dst: nat, c: int, count: nat)
    requires dst + count <= mem.Length
    modifies mem
    ensures mem[..] == Filled(old(mem[..]), dst, c % 256, count)
  {
    ghost var was := mem[..];
    var k := 0;
    while k < count
      invariant 0 <= k <= count
      invariant forall i :: dst <= i < dst + k ==> mem[i] == c % 256
      invariant forall i :: (0 <= i < dst || dst + k <= i < mem.Length) ==> mem[i] == was[i]
    {
      mem[dst + k] := c % 256;
      k := k + 1;
    }
  }

  /** `memset(v, c, n)` on a memory of bytes. */
  method Memset(mem: array<int>, v: nat, c: int, n: nat)
    requires v + n <= mem.Length
    modifies mem
    ensures mem[..] == Filled(old(mem[..]), v, c % 256, n)
  {
    if n == 0 {
      return;
    }
    if v % 4 == 0 && n % 4 == 0 {
      ReplicatedBytes(c % 256);
      StoreWords(mem, v, Replicated(c % 256), n / 4);
    } else {
      StoreBytes(mem, v, c, n);
    }
  }
}
