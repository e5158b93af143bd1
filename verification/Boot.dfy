/** Model of the boot loader (boot/main.c): it reads an ELF image from disk by whole
    sectors into physical memory, headers first, and follows program headers that
    lie in the memory it is writing. */
module Boot {
  import opened CString

  const SECTSIZE := 512
  const ELFHDR := 0x1_0000
  const HDRSIZE := 4096
  const ELF_MAGIC := 0x464c_457f

  /** Sizes and offsets of the fields of `struct Elf` and `struct Proghdr`. */
  const E_ENTRY := 24
  const E_PHOFF := 28
  const E_PHNUM := 44
  const PH_SIZE := 32
  const P_OFFSET := 4
  const P_PA := 12
  const P_MEMSZ := 20

  // ---------------------------------------------------------------------------
  // Sector arithmetic
  // ---------------------------------------------------------------------------

  /** `a & ~(SECTSIZE - 1)`. */
  function RoundDown(a: nat): (r: nat)
    ensures r <= a < r + SECTSIZE && r % SECTSIZE == 0
  {
    a - a % SECTSIZE
  }

  function RoundUp(a: nat): (r: nat)
    ensures a <= r < a + SECTSIZE && r % SECTSIZE == 0
  {
    RoundDown(a + SECTSIZE - 1)
  }

  // ---------------------------------------------------------------------------
  // One segment
  // ---------------------------------------------------------------------------

  /** A part of the image and where it goes: `p_pa`, `p_memsz`, `p_offset`. */
  datatype Segment = Segment(pa: nat, size: nat, offset: nat)
  {
    /** The memory that is written: from the block of the first byte to the end of
        the block of the last one. */
    function Lo(): nat
    {
      RoundDown(pa)
    }

    function Hi(): (h: nat)
      ensures h >= pa + size && h >= Lo()
    {
      RoundUp(pa + size)
    }

    predicate Writes(x: int)
    {
      Lo() <= x < Hi()
    }

    /** Memory and image hold the blocks. */
    predicate Fits(memory: nat, image: nat)
    {
      Hi() <= memory && RoundDown(offset) + (Hi() - Lo()) <= image
    }

    /** Address and offset lie at the same place of their blocks. */
    predicate Congruent()
    {
      pa % SECTSIZE == offset % SECTSIZE
    }
  }

  /** The place of the image that a byte of the blocks of a segment comes from. */
  function Source(s: Segment, x: int): (k: nat)
    requires s.Writes(x)
  {
    x - s.Lo() + RoundDown(s.offset)
  }

  /** Memory after `n` bytes of the image, from `o` on, were copied to `lo`. */
  function Copied(m: seq<byte>, image: seq<byte>, lo: nat, o: nat, n: nat): (r: seq<byte>)
    requires lo + n <= |m| && o + n <= |image|
    ensures |r| == |m|
    ensures forall x :: 0 <= x < |m| ==> r[x] == if lo <= x < lo + n then image[x - lo + o] else m[x]
  {
    seq(|m|, x requires 0 <= x < |m| => if lo <= x < lo + n then image[x - lo + o] else m[x])
  }

  /** Memory after the blocks of a segment were read. */
  function Loaded(m: seq<byte>, image: seq<byte>, s: Segment): (r: seq<byte>)
    requires s.Fits(|m|, |image|)
    ensures |r| == |m|
  {
    Copied(m, image, s.Lo(), RoundDown(s.offset), s.Hi() - s.Lo())
  }

  // ---------------------------------------------------------------------------
  // Reading
  // ---------------------------------------------------------------------------

  /** `readsect(dst, sector)`: the image starts at sector 1. */
  method Readsect(mem: array<byte>, image: seq<byte>, dst: nat, sector: nat, ghost o: nat)
    requires sector >= 1 && o == (sector - 1) * SECTSIZE
    requires dst + SECTSIZE <= mem.Length && o + SECTSIZE <= |image|
    modifies mem
    ensures mem[..] == Copied(old(mem[..]), image, dst, o, SECTSIZE)
  {
    forall i | 0 <= i < SECTSIZE {
      mem[dst + i] := image[(sector - 1) * SECTSIZE + i];
    }
  }

  /** One more block after `n` bytes. */
  lemma CopiedNext(m: seq<byte>, image: seq<byte>, lo: nat, o: nat, n: nat, k: nat)
    requires lo + n + k <= |m| && o + n + k <= |image|
    ensures Copied(Copied(m, image, lo, o, n), image, lo + n, o + n, k) == Copied(m, image, lo, o, n + k)
  {
  }

  /** The loop of `readseg`, from the block at `start` on: `count` blocks, of which
      the last one contains the byte before `endPa`. */
  method ReadBlocks(mem: array<byte>, image: seq<byte>, start: nat, endPa: nat, first: nat,
                    ghost o: nat, ghost count: nat)
    requires first >= 1 && (first - 1) * SECTSIZE == o
    requires start + count * SECTSIZE - SECTSIZE < endPa <= start + count * SECTSIZE
    requires start + count * SECTSIZE <= mem.Length < 0x1_0000_0000 && o + count * SECTSIZE <= |image|
    modifies mem
    ensures mem[..] == Copied(old(mem[..]), image, start, o, count * SECTSIZE)
  {
    ghost var was := mem[..];
    ghost var k, n := 0, 0;
    var pa, sector := start, first;
    assert Copied(was, image, start, o, 0) == was;
    while pa < endPa
      invariant 0 <= k <= count && n == k * SECTSIZE && pa == start + n && sector == first + k
      invariant mem[..] == Copied(was, image, start, o, n)
      decreases endPa - pa
    {
      CopiedNext(was, image, start, o, n, SECTSIZE);
      Readsect(mem, image, pa, sector, o + n);
      pa := pa + SECTSIZE;
      sector := sector + 1;
      k, n := k + 1, n + SECTSIZE;
    }
  }

  /** `readseg(pa, count, offset)`. No address wraps: the end of the last block is
      in memory, and so below 2^32. */
  method Readseg(mem: array<byte>, image: seq<byte>, s: Segment)
    requires s.Fits(mem.Length, |image|) && mem.Length < 0x1_0000_0000
    modifies mem
    ensures mem[..] == Loaded(old(mem[..]), image, s)
  {
    ghost var count: nat := (s.Hi() - s.Lo()) / SECTSIZE;
    assert s.Hi() - s.Lo() == count * SECTSIZE;
    ReadBlocks(mem, image, RoundDown(s.pa), s.pa + s.size, s.offset / SECTSIZE + 1, RoundDown(s.offset), count);
  }

  // ---------------------------------------------------------------------------
  // Headers
  // ---------------------------------------------------------------------------

  /** Little-endian fields of 32 and of 16 bits. */
  function Word(m: seq<byte>, a: nat): nat
    requires a + 4 <= |m|
  {
    m[a] as int + m[a + 1] as int * 0x100 + m[a + 2] as int * 0x1_0000 + m[a + 3] as int * 0x100_0000
  }

  function Half(m: seq<byte>, a: nat): nat
    requires a + 2 <= |m|
  {
    m[a] as int + m[a + 1] as int * 0x100
  }

  /** The bytes of a field are those of its number, least significant first. */
  lemma LittleEndian(m: seq<byte>, a: nat, n: nat)
    requires n < 0x1_0000_0000 && a + 4 <= |m|
    requires m[a] == n % 0x100 && m[a + 1] == n / 0x100 % 0x100
    requires m[a + 2] == n / 0x100 / 0x100 % 0x100 && m[a + 3] == n / 0x100 / 0x100 / 0x100
    ensures Word(m, a) == n
  {
    var q := n / 0x100;
    var p := q / 0x100;
    assert n == q * 0x100 + m[a] && q == p * 0x100 + m[a + 1] && p == p / 0x100 * 0x100 + m[a + 2];
  }

  lemma LittleEndianHalf(m: seq<byte>, a: nat, n: nat)
    requires n < 0x1_0000 && a + 2 <= |m| && m[a] == n % 0x100 && m[a + 1] == n / 0x100
    ensures Half(m, a) == n
  {
  }

  /** The program header at `a`. */
  function HeaderAt(m: seq<byte>, a: nat): Segment
    requires a + PH_SIZE <= |m|
  {
    Segment(Word(m, a + P_PA), Word(m, a + P_MEMSZ), Word(m, a + P_OFFSET))
  }

  /** The first page of the image, which is read to the scratch page. */
  const SCRATCH_PAGE := Segment(ELFHDR, HDRSIZE, 0)

  /** The scratch page holds the first page of the image. */
  ghost predicate Scratch(m: seq<byte>, image: seq<byte>)
  {
    && ELFHDR + HDRSIZE <= |m| && HDRSIZE <= |image|
    && forall x :: ELFHDR <= x < ELFHDR + HDRSIZE ==> m[x] == image[x - ELFHDR]
  }

  /** Headers read from the scratch page are those of the image. */
  lemma ScratchFields(m: seq<byte>, image: seq<byte>, a: nat)
    requires Scratch(m, image)
    ensures a + 4 <= HDRSIZE ==> Word(m, ELFHDR + a) == Word(image, a)
    ensures a + 2 <= HDRSIZE ==> Half(m, ELFHDR + a) == Half(image, a)
  {
  }

  function Phoff(image: seq<byte>): nat
    requires HDRSIZE <= |image|
  {
    Word(image, E_PHOFF)
  }

  function Phnum(image: seq<byte>): nat
    requires HDRSIZE <= |image|
  {
    Half(image, E_PHNUM)
  }

  predicate HeadersFit(image: seq<byte>)
  {
    HDRSIZE <= |image| && Phoff(image) + PH_SIZE * Phnum(image) <= HDRSIZE
  }

  /** The `i`-th segment of the image. */
  function SegmentOf(image: seq<byte>, i: nat): Segment
    requires HeadersFit(image) && i < Phnum(image)
  {
    HeaderAt(image, Phoff(image) + PH_SIZE * i)
  }

  lemma ScratchHeader(m: seq<byte>, image: seq<byte>, i: nat)
    requires Scratch(m, image) && HeadersFit(image) && i < Phnum(image)
    ensures var a := ELFHDR + Phoff(image) + PH_SIZE * i;
            a + PH_SIZE <= |m| && HeaderAt(m, a) == SegmentOf(image, i)
  {
  }

  /** The program headers, in order. */
  function Segments(image: seq<byte>): (segs: seq<Segment>)
    requires HeadersFit(image)
    ensures |segs| == Phnum(image)
    ensures forall i :: 0 <= i < |segs| ==> segs[i] == SegmentOf(image, i)
  {
    seq(Phnum(image), i requires 0 <= i < Phnum(image) => SegmentOf(image, i))
  }

  // ---------------------------------------------------------------------------
  // Loading all segments
  // ---------------------------------------------------------------------------

  /** The blocks of a segment are in memory and in the image, and keep off the
      scratch page. */
  predicate Loadable(s: Segment, memory: nat, image: nat)
  {
    s.Fits(memory, image) && (s.Hi() <= ELFHDR || ELFHDR + HDRSIZE <= s.Lo())
  }

  ghost predicate AllLoadable(segs: seq<Segment>, memory: nat, image: nat)
  {
    forall i :: 0 <= i < |segs| ==> Loadable(segs[i], memory, image)
  }

  /** Memory after the first `n` segments were loaded in order. */
  ghost function LoadedUpTo(m: seq<byte>, image: seq<byte>, segs: seq<Segment>, n: nat): (r: seq<byte>)
    requires AllLoadable(segs, |m|, |image|) && n <= |segs|
    ensures |r| == |m|
    decreases n
  {
    if n == 0 then m else Loaded(LoadedUpTo(m, image, segs, n - 1), image, segs[n - 1])
  }

  /** The last of the first `n` segments whose blocks cover address `x`, or -1. */
  function LastCover(segs: seq<Segment>, n: nat, x: int): (j: int)
    requires n <= |segs|
    ensures -1 <= j < n
    ensures j >= 0 ==> segs[j].Writes(x)
    ensures forall i :: j < i < n ==> !segs[i].Writes(x)
    decreases n
  {
    if n == 0 then -1
    else if segs[n - 1].Writes(x) then n - 1
    else LastCover(segs, n - 1, x)
  }

  /** What is at `x` in the end comes from the last segment that covers it; where
      none does, memory is as it was. */
  lemma {:induction false} ByteComesFrom(m: seq<byte>, image: seq<byte>, segs: seq<Segment>, n: nat, x: nat, j: int,
                                         r: seq<byte>)
    requires AllLoadable(segs, |m|, |image|) && n <= |segs| && x < |m|
    requires j == LastCover(segs, n, x) && r == LoadedUpTo(m, image, segs, n)
    ensures j >= 0 ==> Source(segs[j], x) < |image|
    ensures r[x] == if j >= 0 then image[Source(segs[j], x)] else m[x]
    decreases n
  {
    if n > 0 {
      var before := LoadedUpTo(m, image, segs, n - 1);
      LoadedByte(before, image, segs[n - 1], x);
      if j < n - 1 {
        ByteComesFrom(m, image, segs, n - 1, x, j, before);
      }
    }
  }

  lemma LoadedByte(m: seq<byte>, image: seq<byte>, s: Segment, x: nat)
    requires s.Fits(|m|, |image|) && x < |m|
    ensures s.Writes(x) ==> Source(s, x) < |image|
    ensures Loaded(m, image, s)[x] == if s.Writes(x) then image[Source(s, x)] else m[x]
  {
  }

  /** Exactly when reading more than asked does no harm, for all segments: a byte of
      segment `i` is right in the end iff the last segment that covers it takes it
      from an equal byte of the image. That segment is `i` or a later one. */
  lemma ByteIsRightIff(m: seq<byte>, image: seq<byte>, segs: seq<Segment>, i: nat, x: nat, right: byte, j: int)
    requires AllLoadable(segs, |m|, |image|) && i < |segs| && x < |m|
    requires segs[i].Writes(x) && j == LastCover(segs, |segs|, x)
    requires 0 <= x - segs[i].pa + segs[i].offset < |image| && right == image[x - segs[i].pa + segs[i].offset]
    ensures i <= j < |segs| && Source(segs[j], x) < |image|
    ensures LoadedUpTo(m, image, segs, |segs|)[x] == right <==> image[Source(segs[j], x)] == right
  {
    ByteComesFrom(m, image, segs, |segs|, x, j, LoadedUpTo(m, image, segs, |segs|));
  }

  /** Two segments with a common block come from the same part of the image. */
  predicate Compatible(s: Segment, t: Segment)
  {
    s.Lo() < t.Hi() && t.Lo() < s.Hi() ==> s.pa - s.offset == t.pa - t.offset
  }

  /** Address and offset of a segment lie at the same place of their blocks, and
      segments that share a block come from the same part of the image. */
  ghost predicate Aligned(segs: seq<Segment>)
  {
    && (forall i {:trigger segs[i].Congruent()} :: 0 <= i < |segs| ==> segs[i].Congruent())
    && (forall i, j {:trigger Compatible(segs[i], segs[j])} ::
          0 <= i < |segs| && 0 <= j < |segs| ==> Compatible(segs[i], segs[j]))
  }

  lemma SameSource(s: Segment, t: Segment, x: int, k: int)
    requires s.Writes(x) && t.Writes(x) && Compatible(s, t) && t.Congruent()
    requires k == x - s.pa + s.offset
    ensures Source(t, x) == k
  {
    assert s.pa - s.offset == t.pa - t.offset;
    assert t.Lo() - RoundDown(t.offset) == t.pa - t.offset;
  }

  /** What loading promises: after it every byte of every segment, and of its
      blocks, is the byte of the image that belongs there. */
  lemma EveryByteIsLoaded(m: seq<byte>, image: seq<byte>, segs: seq<Segment>, i: nat, x: nat, k: int, r: seq<byte>)
    requires AllLoadable(segs, |m|, |image|) && Aligned(segs)
    requires i < |segs| && segs[i].Writes(x) && x < |m|
    requires k == x - segs[i].pa + segs[i].offset && r == LoadedUpTo(m, image, segs, |segs|)
    ensures 0 <= k < |image| && r[x] == image[k]
  {
    var j := LastCover(segs, |segs|, x);
    assert i <= j;
    SameSource(segs[i], segs[j], x, k);
    ByteComesFrom(m, image, segs, |segs|, x, j, r);
  }

  // ---------------------------------------------------------------------------
  // Increasing order does not help
  // ---------------------------------------------------------------------------

  /** The bytes of an image with two segments: an ELF header with the entry point
      0x10000c, two program headers, and one byte of data that is not zero. */
  function SampleByte(x: nat): byte
  {
    match x
    case 0 => 0x7f
    case 1 => 0x45
    case 2 => 0x4c
    case 3 => 0x46
    case 24 => 0x0c
    case 26 => 0x10
    case 28 => 52
    case 44 => 2
    case 57 => 0x10
    case 66 => 0x10
    case 72 => 0xbc
    case 73 => 0x02
    case 88 => 0xc0
    case 89 => 0x20
    case 96 => 0xc0
    case 97 => 0x02
    case 98 => 0x10
    case 104 => 100
    case 8192 => 1
    case _ => 0
  }

  function Sample(): (image: seq<byte>)
    ensures |image| == 8704
    ensures forall x :: 0 <= x < 8704 ==> image[x] == SampleByte(x)
  {
    seq(8704, x requires 0 <= x < 8704 => SampleByte(x))
  }

  lemma SampleSegments(image: seq<byte>)
    requires image == Sample()
    ensures Word(image, 0) == ELF_MAGIC && Word(image, E_ENTRY) == 0x10_000c
    ensures HeadersFit(image) && Phnum(image) == 2
    ensures SegmentOf(image, 0) == Segment(0x10_0000, 700, 4096)
    ensures SegmentOf(image, 1) == Segment(0x10_02c0, 100, 8384)
  {
  }

  /** The blocks of the two segments. */
  lemma SampleBlocks(s: Segment, t: Segment)
    requires s == Segment(0x10_0000, 700, 4096) && t == Segment(0x10_02c0, 100, 8384)
    ensures s.Lo() == 0x10_0000 && s.Hi() == 0x10_0400 && RoundDown(s.offset) == 4096
    ensures t.Lo() == 0x10_0200 && t.Hi() == 0x10_0400 && RoundDown(t.offset) == 8192
    ensures s.Congruent() && t.Congruent()
  {
  }

  lemma SampleCover(segs: seq<Segment>, memory: nat)
    requires segs == [Segment(0x10_0000, 700, 4096), Segment(0x10_02c0, 100, 8384)] && memory >= 0x10_0400
    ensures AllLoadable(segs, memory, 8704)
    ensures segs[0].Writes(0x10_0200) && LastCover(segs, 2, 0x10_0200) == 1
    ensures Source(segs[1], 0x10_0200) == 8192
  {
    SampleBlocks(segs[0], segs[1]);
  }

  lemma SampleIsLoaded(image: seq<byte>, segs: seq<Segment>)
    requires image == Sample()
    requires segs == [Segment(0x10_0000, 700, 4096), Segment(0x10_02c0, 100, 8384)]
    ensures HeadersFit(image) && Segments(image) == segs
    ensures image[4608] == 0 && image[8192] == 1
  {
    SampleSegments(image);
  }

  /** Two segments that lie apart, in increasing order in memory and in the image,
      and each at the same place of its blocks in both: loading the second one
      destroys a byte of the first. */
  lemma IncreasingOrderDoesNotHelp(m: seq<byte>, image: seq<byte>, s: Segment, t: Segment, segs: seq<Segment>)
    requires |m| >= 0x10_0400 && image == Sample()
    requires s == Segment(0x10_0000, 700, 4096) && t == Segment(0x10_02c0, 100, 8384)
    requires segs == [s, t]
    ensures HeadersFit(image) && Segments(image) == segs && AllLoadable(segs, |m|, |image|)
    ensures s.Congruent() && t.Congruent() && s.pa + s.size <= t.pa && s.offset + s.size <= t.offset
    ensures LoadedUpTo(m, image, segs, 2)[s.pa + 512] != image[s.offset + 512]
  {
    SampleIsLoaded(image, segs);
    SampleBlocks(s, t);
    SampleCover(segs, |m|);
    ByteIsRightIff(m, image, segs, 0, 0x10_0200, 0, 1);
  }

  // ---------------------------------------------------------------------------
  // bootmain
  // ---------------------------------------------------------------------------

  /** The loader gives up, or jumps to the entry point. */
  datatype Outcome = Bad | Jump(entry: nat)

  lemma ScratchIsLoaded(m: seq<byte>, image: seq<byte>)
    requires ELFHDR + HDRSIZE <= |m| && HDRSIZE <= |image|
    ensures SCRATCH_PAGE.Fits(|m|, |image|) && Scratch(Loaded(m, image, SCRATCH_PAGE), image)
  {
  }

  /** A segment that keeps off the scratch page leaves the headers there. */
  lemma ScratchIsKept(m: seq<byte>, image: seq<byte>, s: Segment)
    requires Scratch(m, image) && Loadable(s, |m|, |image|)
    ensures Scratch(Loaded(m, image, s), image)
  {
  }

  /** Memory after the scratch page and every segment were loaded. */
  ghost function Booted(m: seq<byte>, image: seq<byte>): (r: seq<byte>)
    requires HeadersFit(image) && AllLoadable(Segments(image), |m|, |image|) && ELFHDR + HDRSIZE <= |m|
  {
    LoadedUpTo(Loaded(m, image, SCRATCH_PAGE), image, Segments(image), Phnum(image))
  }

  /** What no segment covers, and is not on the scratch page, is left as it was. */
  lemma OtherMemoryIsKept(m: seq<byte>, image: seq<byte>, segs: seq<Segment>, x: nat)
    requires HeadersFit(image) && segs == Segments(image)
    requires AllLoadable(segs, |m|, |image|) && ELFHDR + HDRSIZE <= |m|
    requires x < |m| && !SCRATCH_PAGE.Writes(x)
    requires forall i :: 0 <= i < |segs| ==> !segs[i].Writes(x)
    ensures |Booted(m, image)| == |m| && Booted(m, image)[x] == m[x]
  {
    var scratch := Loaded(m, image, SCRATCH_PAGE);
    LoadedByte(m, image, SCRATCH_PAGE, x);
    ByteComesFrom(scratch, image, segs, |segs|, x, -1, LoadedUpTo(scratch, image, segs, |segs|));
  }

  /** One round of the loop: the header at `ph` is read from the memory that is being
      written. */
  method LoadSegment(mem: array<byte>, image: seq<byte>, ph: nat, ghost n: nat)
    requires Scratch(mem[..], image) && HeadersFit(image) && n < Phnum(image)
    requires ph == ELFHDR + Phoff(image) + PH_SIZE * n
    requires Loadable(SegmentOf(image, n), mem.Length, |image|) && mem.Length < 0x1_0000_0000
    modifies mem
    ensures mem[..] == Loaded(old(mem[..]), image, SegmentOf(image, n)) && Scratch(mem[..], image)
  {
    ScratchHeader(mem[..], image, n);
    ScratchIsKept(mem[..], image, SegmentOf(image, n));
    Readseg(mem, image, HeaderAt(mem[..], ph));
  }

  /** The loop over the program headers. */
  method LoadSegments(mem: array<byte>, image: seq<byte>, start: nat, eph: nat, ghost segs: seq<Segment>)
    requires HeadersFit(image) && segs == Segments(image) && AllLoadable(segs, mem.Length, |image|)
    requires Scratch(mem[..], image) && mem.Length < 0x1_0000_0000
    requires start == ELFHDR + Phoff(image) && eph == start + PH_SIZE * |segs|
    modifies mem
    ensures mem[..] == LoadedUpTo(old(mem[..]), image, segs, |segs|) && Scratch(mem[..], image)
  {
    ghost var was := mem[..];
    ghost var n := 0;
    var ph := start;
    while ph < eph
      invariant 0 <= n <= |segs| && ph == start + PH_SIZE * n
      invariant Scratch(mem[..], image)
      invariant mem[..] == LoadedUpTo(was, image, segs, n)
      decreases eph - ph
    {
      assert Loadable(segs[n], mem.Length, |image|);
      LoadSegment(mem, image, ph, n);
      ph := ph + PH_SIZE;
      n := n + 1;
    }
  }

  /** `bootmain()`. */
  method Bootmain(mem: array<byte>, image: seq<byte>) returns (r: Outcome)
    requires ELFHDR + HDRSIZE <= mem.Length < 0x1_0000_0000 && HDRSIZE <= |image|
    requires Word(image, 0) == 0x464c_457f ==> HeadersFit(image) && AllLoadable(Segments(image), mem.Length, |image|)
    modifies mem
    ensures r == if Word(image, 0) == 0x464c_457f then Jump(Word(image, 24)) else Bad
    ensures r.Jump? ==>
              mem[..] == LoadedUpTo(Loaded(old(mem[..]), image, Segment(0x1_0000, 4096, 0)), image,
                                    Segments(image), Phnum(image))
    ensures r.Bad? ==> mem[..] == Loaded(old(mem[..]), image, Segment(0x1_0000, 4096, 0))
  {
    ScratchIsLoaded(mem[..], image);
    Readseg(mem, image, SCRATCH_PAGE);
    ScratchFields(mem[..], image, 0);
    if Word(mem[..], ELFHDR) != ELF_MAGIC {
      return Bad;
    }
    ScratchFields(mem[..], image, E_PHOFF);
    ScratchFields(mem[..], image, E_PHNUM);
    var ph := ELFHDR + Word(mem[..], ELFHDR + E_PHOFF);
    var eph := ph + PH_SIZE * Half(mem[..], ELFHDR + E_PHNUM);
    LoadSegments(mem, image, ph, eph, Segments(image));
    ScratchFields(mem[..], image, E_ENTRY);
    return Jump(Word(mem[..], ELFHDR + E_ENTRY));
  }
}
