/** Model of `debuginfo_eip` (kern/kdebug.c): two nested searches, a walk back to
    the file name and a walk forward over the parameters. */
module Kdebug {
  import opened StabSearch

  const ULIM := 0xef80_0000
  const COLON := 58

  /** `panic`, `return -1`, `return 0`; `OutOfTable` marks the inputs on which the
      second search would read the entry before the table. */
  datatype Status = Panic | Error | OutOfTable | Found

  /** A `const char *`: the constant "<unknown>", or a place in the string table. */
  datatype Name = Unknown | At(offset: nat)

  /** Bounds of the file's and of the function's entries. */
  datatype Nest = Nest(lfile: int, rfile: int, lfun: int, rfun: int)

  /** The values of the fields of `struct Eipdebuginfo`. */
  datatype Info = Info(file: Name, line: nat, fnName: Name, fnNamelen: nat, fnAddr: nat, fnNarg: nat)

  /** `struct Eipdebuginfo`. */
  class Eipdebuginfo {
    var eipFile: Name
    var eipLine: nat
    var fnName: Name
    var fnNamelen: nat
    var fnAddr: nat
    var fnNarg: nat

    constructor ()
    {
      eipFile, eipLine, fnName, fnNamelen, fnAddr, fnNarg := Unknown, 0, Unknown, 0, 0, 0;
    }

    ghost function Contents(): Info
      reads this
    {
      Info(eipFile, eipLine, fnName, fnNamelen, fnAddr, fnNarg)
    }
  }

  // ---------------------------------------------------------------------------
  // Reference definitions
  // ---------------------------------------------------------------------------

  predicate ValidStrings(strings: seq<int>)
  {
    |strings| > 0 && strings[|strings| - 1] == 0
  }

  /** Distance from `i` to the first ':' or NUL. */
  function NameLength(strings: seq<int>, i: nat): (n: nat)
    requires ValidStrings(strings) && i < |strings|
    ensures i + n < |strings| && (strings[i + n] == 0 || strings[i + n] == COLON)
    ensures forall j :: i <= j < i + n ==> strings[j] != 0 && strings[j] != COLON
    decreases |strings| - i
  {
    if strings[i] == 0 || strings[i] == COLON then 0 else 1 + NameLength(strings, i + 1)
  }

  /** The name of an entry, when its string index is in the table. */
  function NameOf(stabs: seq<Stab>, strings: seq<int>, i: int): Name
    requires 0 <= i < |stabs|
  {
    if stabs[i].strx < |strings| then Name.At(stabs[i].strx) else Unknown
  }

  /** The length reported for a name; "<unknown>" has nine characters. */
  function LengthOf(strings: seq<int>, name: Name): nat
    requires ValidStrings(strings)
    requires name.At? ==> name.offset < |strings|
  {
    if name.Unknown? then 9 else NameLength(strings, name.offset)
  }

  /** An included file's name, or a main file's with nonzero value. */
  predicate NamesFile(stab: Stab)
  {
    stab.typ == N_SOL || (stab.typ == N_SO && stab.value != 0)
  }

  /** Greatest index in [lo, i] of an entry that names a file, or lo - 1. */
  function NearestFile(stabs: seq<Stab>, lo: int, i: int): (k: int)
    requires 0 <= lo <= i + 1 <= |stabs|
    ensures lo - 1 <= k <= i
    ensures k >= lo ==> NamesFile(stabs[k])
    ensures forall j :: k < j <= i && lo <= j ==> !NamesFile(stabs[j])
    decreases i - lo + 1
  {
    if i < lo || NamesFile(stabs[i]) then i else NearestFile(stabs, lo, i - 1)
  }

  /** Length of the longest run of parameters that starts at `i` and ends below
      `hi`. */
  function ParameterRun(stabs: seq<Stab>, i: int, hi: int): (n: nat)
    requires 0 <= i && hi <= |stabs|
    ensures n > 0 ==> i + n <= hi
    ensures forall j :: i <= j < i + n ==> stabs[j].typ == N_PSYM
    ensures i + n < hi ==> stabs[i + n].typ != N_PSYM
    decreases hi - i
  {
    if i < hi && stabs[i].typ == N_PSYM then 1 + ParameterRun(stabs, i + 1, hi) else 0
  }

  ghost predicate Orderly(stabs: seq<Stab>, addr: nat)
  {
    var hi := |stabs| - 1;
    && Sorted(stabs, N_SO, 0, hi) && Unambiguous(stabs, N_SO, 0, hi, addr)
    && Sorted(stabs, N_FUN, 0, hi) && Unambiguous(stabs, N_FUN, 0, hi, addr)
  }

  /** The last main-file entry at or below `addr`, or -1. */
  function EnclosingFile(stabs: seq<Stab>, addr: nat): int
  {
    LastAtMost(stabs, N_SO, 0, |stabs| - 1, addr)
  }

  predicate FirstEntryIsFileAbove(stabs: seq<Stab>, addr: nat)
  {
    |stabs| > 0 && stabs[0].typ == N_SO && stabs[0].value > addr
  }

  /** The entries the lookup settles on, by linear scan. When the file has function
      entries but all of them lie above `addr`, the file's own entry is taken for
      the function; when it has none, the function's bounds are empty. */
  function Locate(stabs: seq<Stab>, addr: nat): (n: Nest)
    requires EnclosingFile(stabs, addr) > 0
    ensures n.lfile == EnclosingFile(stabs, addr)
    ensures n.lfile <= n.lfun <= n.rfun + 1 && n.rfun <= n.rfile < |stabs|
    ensures n.lfun > n.rfun <==> forall i :: n.lfile <= i <= n.rfile ==> stabs[i].typ != N_FUN
  {
    var hi := |stabs| - 1;
    var f := EnclosingFile(stabs, addr);
    var e := NextOf(stabs, N_SO, f + 1, hi) - 1;
    var g := LastAtMost(stabs, N_FUN, f, e, addr);
    var first := NextOf(stabs, N_FUN, f, e);
    assert first <= e ==> StabSearch.At(stabs, N_FUN, first);
    assert forall i :: f <= i <= e && stabs[i].typ == N_FUN ==> StabSearch.At(stabs, N_FUN, i);
    if g >= f then Nest(f, e, g, NextOf(stabs, N_FUN, g + 1, e) - 1)
    else if first > e then Nest(f, e, f, f - 1)
    else Nest(f, e, f, first - 1)
  }

  // ---------------------------------------------------------------------------
  // The searches on an orderly table
  // ---------------------------------------------------------------------------

  lemma Narrower(stabs: seq<Stab>, typ: int, lo: int, hi: int, addr: nat)
    requires 0 <= lo <= hi + 1 <= |stabs|
    requires Sorted(stabs, typ, 0, |stabs| - 1) && Unambiguous(stabs, typ, 0, |stabs| - 1, addr)
    ensures Sorted(stabs, typ, lo, hi) && Unambiguous(stabs, typ, lo, hi, addr)
  {
  }

  /** The first search, and what its left bound says. */
  lemma FileSearch(stabs: seq<Stab>, addr: nat)
    requires Orderly(stabs, addr)
    ensures var (lfile, rfile) := BinSearch(stabs, N_SO, 0, |stabs| - 1, addr);
            && (lfile < 0 <==> FirstEntryIsFileAbove(stabs, addr))
            && (lfile > 0 <==> EnclosingFile(stabs, addr) > 0)
            && (lfile > 0 ==> var n := Locate(stabs, addr); lfile == n.lfile && rfile == n.rfile)
  {
    SearchIsScan(stabs, N_SO, 0, |stabs| - 1, addr);
    if |stabs| > 0 && stabs[0].typ == N_SO {
      assert StabSearch.At(stabs, N_SO, 0);
      var k := LastAtMost(stabs, N_SO, 0, |stabs| - 1, addr);
      if k > 0 {
        assert stabs[0].value <= stabs[k].value;
      }
    }
  }

  lemma FunSearch(stabs: seq<Stab>, addr: nat, n: Nest)
    requires Orderly(stabs, addr) && EnclosingFile(stabs, addr) > 0 && n == Locate(stabs, addr)
    ensures BinSearch(stabs, N_FUN, n.lfile, n.rfile, addr) == (n.lfun, n.rfun)
  {
    Narrower(stabs, N_FUN, n.lfile, n.rfile, addr);
    SearchIsScan(stabs, N_FUN, n.lfile, n.rfile, addr);
    LocateIsScan(stabs, addr, n);
  }

  lemma LocateIsScan(stabs: seq<Stab>, addr: nat, n: Nest)
    requires EnclosingFile(stabs, addr) > 0 && n == Locate(stabs, addr)
    ensures Scan(stabs, N_FUN, n.lfile, n.rfile, addr) == (n.lfun, n.rfun)
  {
    assert StabSearch.At(stabs, N_SO, n.lfile);
  }

  // ---------------------------------------------------------------------------
  // The C functions
  // ---------------------------------------------------------------------------

  /** `strfind(strings + i, ':') - (strings + i)`. */
  method NameLengthAt(strings: seq<int>, i: nat) returns (n: nat)
    requires ValidStrings(strings) && i < |strings|
    ensures n == NameLength(strings, i)
  {
    n := 0;
    while strings[i + n] != 0 && strings[i + n] != COLON
      invariant i + n < |strings|
      invariant NameLength(strings, i) == n + NameLength(strings, i + n)
      decreases |strings| - n
    {
      n := n + 1;
    }
  }

  /** What the function stores before it looks anything up. */
  function Nothing(addr: nat): Info
  {
    Info(Unknown, 0, Unknown, 9, addr, 0)
  }

  /** What it stores about the entries it settled on. */
  function Details(stabs: seq<Stab>, strings: seq<int>, addr: nat, n: Nest): Info
    requires ValidStrings(strings)
    requires 0 < n.lfile <= n.rfile < |stabs| && n.lfile - 1 <= n.lfun && n.rfun <= n.rfile
  {
    var inFun := n.lfun <= n.rfun;
    var name := if inFun then NameOf(stabs, strings, n.lfun) else Unknown;
    var k := NearestFile(stabs, n.lfile, if inFun then n.lfun else n.lfile);
    Info(if k >= n.lfile then NameOf(stabs, strings, k) else Unknown,
         0,
         name,
         LengthOf(strings, name),
         if inFun then stabs[n.lfun].value else addr,
         if inFun then ParameterRun(stabs, n.lfun + 1, n.rfun) else 0)
  }

  /** The function name, its address and its length. */
  method StoreFunction(stabs: seq<Stab>, strings: seq<int>, addr: nat, info: Eipdebuginfo,
                       ghost lfile: int, ghost rfile: int, lfun: int, rfun: int)
    requires ValidStrings(strings)
    requires 0 < lfile <= rfile < |stabs| && lfile - 1 <= lfun && rfun <= rfile
    requires info.Contents() == Nothing(addr)
    modifies info
    ensures var d := Details(stabs, strings, addr, Nest(lfile, rfile, lfun, rfun));
            info.Contents() == Nothing(addr).(fnName := d.fnName, fnNamelen := d.fnNamelen, fnAddr := d.fnAddr)
  {
    if lfun <= rfun {
      if stabs[lfun].strx < |strings| {
        info.fnName := Name.At(stabs[lfun].strx);
      }
      info.fnAddr := stabs[lfun].value;
    } else {
      info.fnAddr := addr;
    }
    if info.fnName.At? {
      var n := NameLengthAt(strings, info.fnName.offset);
      info.fnNamelen := n;
    }
  }

  /** The walk back to the nearest entry that names a file. */
  method StoreFile(stabs: seq<Stab>, strings: seq<int>, info: Eipdebuginfo, lfile: int, start: int)
    requires 0 < lfile <= start + 1 <= |stabs|
    requires info.eipFile == Unknown
    modifies info`eipFile
    ensures var k := NearestFile(stabs, lfile, start);
            info.eipFile == if k >= lfile then NameOf(stabs, strings, k) else Unknown
  {
    var lline := start;
    while lline >= lfile && stabs[lline].typ != N_SOL && (stabs[lline].typ != N_SO || stabs[lline].value == 0)
      invariant lfile - 1 <= lline <= start
      invariant NearestFile(stabs, lfile, lline) == NearestFile(stabs, lfile, start)
    {
      lline := lline - 1;
    }
    if lline >= lfile && stabs[lline].strx < |strings| {
      info.eipFile := Name.At(stabs[lline].strx);
    }
  }

  /** The walk forward over the function's parameters. */
  method StoreNarg(stabs: seq<Stab>, info: Eipdebuginfo, lfun: int, rfun: int)
    requires 0 <= lfun && rfun < |stabs| && info.fnNarg == 0
    modifies info`fnNarg
    ensures info.fnNarg == if lfun <= rfun then ParameterRun(stabs, lfun + 1, rfun) else 0
  {
    if lfun < rfun {
      var lline := lfun + 1;
      while lline < rfun && stabs[lline].typ == N_PSYM
        invariant lfun + 1 <= lline <= rfun
        invariant info.fnNarg + ParameterRun(stabs, lline, rfun) == ParameterRun(stabs, lfun + 1, rfun)
      {
        info.fnNarg := info.fnNarg + 1;
        lline := lline + 1;
      }
    }
  }

  /** Where the two searches end, on any table: the status and the bounds. */
  function Lookup(stabs: seq<Stab>, strings: seq<int>, addr: nat): (o: (Status, Nest))
    ensures o.0 == Found ==>
              && ValidStrings(strings)
              && 0 < o.1.lfile <= o.1.rfile < |stabs| && o.1.lfile - 1 <= o.1.lfun && o.1.rfun <= o.1.rfile
  {
    var none := Nest(0, 0, 0, 0);
    if addr < ULIM then (Panic, none)
    else if !ValidStrings(strings) then (Error, none)
    else
      var (lfile, rfile) := BinSearch(stabs, N_SO, 0, |stabs| - 1, addr);
      if lfile == 0 then (Error, none)
      else if lfile < 0 then (OutOfTable, none)
      else
        var (lfun, rfun) := BinSearch(stabs, N_FUN, lfile, rfile, addr);
        (Found, Nest(lfile, rfile, lfun, rfun))
  }

  // ---------------------------------------------------------------------------
  // What the fields say
  // ---------------------------------------------------------------------------

  /** Nothing is known but the address. */
  ghost predicate NothingKnown(info: Info, addr: nat)
  {
    && info.file == Unknown && info.line == 0 && info.fnName == Unknown && info.fnNamelen == 9
    && info.fnAddr == addr && info.fnNarg == 0
  }

  /** The name is that of entry `i`, if its string index is in the table; its length
      is the distance to the first ':' or NUL. */
  ghost predicate NameIs(stabs: seq<Stab>, strings: seq<int>, i: int, name: Name, len: nat)
    requires 0 <= i < |stabs|
  {
    if stabs[i].strx < |strings| then
      && name == Name.At(stabs[i].strx) && stabs[i].strx + len < |strings|
      && (strings[stabs[i].strx + len] == 0 || strings[stabs[i].strx + len] == ':' as int)
      && forall j :: stabs[i].strx <= j < stabs[i].strx + len ==> strings[j] != 0 && strings[j] != ':' as int
    else name == Unknown && len == 9
  }

  /** The name, its length and the address are those of the entry at `lfun`; without
      one, they are unknown and the address looked up. */
  ghost predicate FunctionFields(stabs: seq<Stab>, strings: seq<int>, addr: nat, n: Nest, info: Info)
    requires n.lfun <= n.rfun ==> 0 <= n.lfun < |stabs|
  {
    if n.lfun <= n.rfun then
      NameIs(stabs, strings, n.lfun, info.fnName, info.fnNamelen) && info.fnAddr == stabs[n.lfun].value
    else info.fnName == Unknown && info.fnNamelen == 9 && info.fnAddr == addr
  }

  /** Entry `i` is an included file (N_SOL), or a main file (N_SO) with an address. */
  ghost predicate FileEntry(stabs: seq<Stab>, i: int)
    requires 0 <= i < |stabs|
  {
    stabs[i].typ == 0x84 || (stabs[i].typ == 0x64 && stabs[i].value != 0)
  }

  /** The file is that of the last entry from `lfile` to the function (or of `lfile`
      alone, without a function) that names one. */
  ghost predicate FileFields(stabs: seq<Stab>, strings: seq<int>, n: Nest, info: Info)
    requires 0 <= n.lfile < |stabs| && n.rfun < |stabs|
  {
    var last := if n.lfun <= n.rfun then n.lfun else n.lfile;
    && info.line == 0
    && (forall k :: n.lfile <= k <= last && FileEntry(stabs, k) && (forall j :: k < j <= last ==> !FileEntry(stabs, j))
                    ==> info.file == if stabs[k].strx < |strings| then Name.At(stabs[k].strx) else Unknown)
    && ((forall k :: n.lfile <= k <= last ==> !FileEntry(stabs, k)) ==> info.file == Unknown)
  }

  /** The arguments are the parameter entries (N_PSYM) that follow the function's own
      without a gap, before `rfun`. */
  ghost predicate ArgumentFields(stabs: seq<Stab>, n: Nest, info: Info)
    requires 0 <= n.lfun && n.rfun < |stabs|
  {
    if n.lfun < n.rfun then
      && n.lfun + 1 + info.fnNarg <= n.rfun
      && (forall j :: n.lfun < j <= n.lfun + info.fnNarg ==> stabs[j].typ == 0xa0)
      && (n.lfun + 1 + info.fnNarg < n.rfun ==> stabs[n.lfun + 1 + info.fnNarg].typ != 0xa0)
    else info.fnNarg == 0
  }

  lemma DetailsAreFunction(stabs: seq<Stab>, strings: seq<int>, addr: nat, n: Nest, d: Info)
    requires ValidStrings(strings)
    requires 0 < n.lfile <= n.rfile < |stabs| && n.lfile - 1 <= n.lfun && n.rfun <= n.rfile
    requires d == Details(stabs, strings, addr, n)
    ensures FunctionFields(stabs, strings, addr, n, d) && ArgumentFields(stabs, n, d)
  {
  }

  lemma DetailsAreFile(stabs: seq<Stab>, strings: seq<int>, addr: nat, n: Nest, d: Info)
    requires ValidStrings(strings)
    requires 0 < n.lfile <= n.rfile < |stabs| && n.lfile - 1 <= n.lfun && n.rfun <= n.rfile
    requires d == Details(stabs, strings, addr, n)
    ensures FileFields(stabs, strings, n, d)
  {
    var last := if n.lfun <= n.rfun then n.lfun else n.lfile;
    var k := NearestFile(stabs, n.lfile, last);
    assert forall j :: n.lfile <= j <= last ==> NamesFile(stabs[j]) == FileEntry(stabs, j);
    assert k >= n.lfile ==> FileEntry(stabs, k);
    assert forall j :: n.lfile <= j <= last && k < j ==> !FileEntry(stabs, j);
  }

  /** The values that the fields get before anything is looked up. */
  method Initialise(addr: nat, info: Eipdebuginfo)
    modifies info
    ensures info.Contents() == Nothing(addr)
  {
    info.eipFile, info.eipLine, info.fnName, info.fnNamelen := Unknown, 0, Unknown, 9;
    info.fnAddr, info.fnNarg := addr, 0;
  }

  /** The two searches, and the returns before and between them. */
  method SearchTwice(stabs: seq<Stab>, strings: seq<int>, addr: nat) returns (status: Status, nest: Nest)
    ensures (status, nest) == Lookup(stabs, strings, addr)
  {
    nest := Nest(0, 0, 0, 0);
    if addr < ULIM {
      return Panic, nest;
    }
    if |strings| == 0 || strings[|strings| - 1] != 0 {
      return Error, nest;
    }
    var lfile, rfile, _ := StabBinsearch(stabs, 0, |stabs| - 1, N_SO, addr);
    if lfile == 0 {
      return Error, nest;
    }
    if lfile < 0 {
      return OutOfTable, nest;
    }
    var lfun, rfun, _ := StabBinsearch(stabs, lfile, rfile, N_FUN, addr);
    return Found, Nest(lfile, rfile, lfun, rfun);
  }

  /** All that is stored about the entries found. */
  method StoreDetails(stabs: seq<Stab>, strings: seq<int>, addr: nat, info: Eipdebuginfo, n: Nest)
    requires ValidStrings(strings)
    requires 0 < n.lfile <= n.rfile < |stabs| && n.lfile - 1 <= n.lfun && n.rfun <= n.rfile
    requires info.Contents() == Nothing(addr)
    modifies info
    ensures info.Contents() == Details(stabs, strings, addr, n)
  {
    StoreFunction(stabs, strings, addr, info, n.lfile, n.rfile, n.lfun, n.rfun);
    StoreFile(stabs, strings, info, n.lfile, if n.lfun <= n.rfun then n.lfun else n.lfile);
    StoreNarg(stabs, info, n.lfun, n.rfun);
  }

  /** `debuginfo_eip(addr, info)` for the table `stabs` and the string table
      `strings`; `nest` holds the bounds it found. */
  method DebuginfoEip(stabs: seq<Stab>, strings: seq<int>, addr: nat, info: Eipdebuginfo)
    returns (status: Status, ghost nest: Nest)
    modifies info
    ensures (status, nest) == Lookup(stabs, strings, addr)
    ensures info.Contents() == if status == Found then Details(stabs, strings, addr, nest) else Nothing(addr)
    ensures status == Panic <==> addr < 0xef80_0000
    ensures addr >= 0xef80_0000 && (|strings| == 0 || strings[|strings| - 1] != 0) ==> status == Error
    ensures status != Found ==> NothingKnown(info.Contents(), addr)
    ensures status == Found ==>
              && 0 < nest.lfile < |stabs| && 0 <= nest.lfun && nest.rfun < |stabs|
              && FunctionFields(stabs, strings, addr, nest, info.Contents())
              && FileFields(stabs, strings, nest, info.Contents())
              && ArgumentFields(stabs, nest, info.Contents())
  {
    Initialise(addr, info);
    var n;
    status, n := SearchTwice(stabs, strings, addr);
    nest := n;
    if status == Found {
      StoreDetails(stabs, strings, addr, info, n);
      DetailsAreFunction(stabs, strings, addr, n, info.Contents());
      DetailsAreFile(stabs, strings, addr, n, info.Contents());
    }
  }

  // ---------------------------------------------------------------------------
  // Main results
  // ---------------------------------------------------------------------------

  /** On an orderly table the lookup succeeds iff a main-file entry other than the
      first entry of the table is at or below `addr`; it reads before the table iff
      the first entry is a main-file entry above `addr`; and when it succeeds, the
      bounds are those of the linear scans. */
  lemma LookupIsLinear(stabs: seq<Stab>, strings: seq<int>, addr: nat)
    requires Orderly(stabs, addr)
    requires addr >= ULIM && ValidStrings(strings)
    ensures var (status, nest) := Lookup(stabs, strings, addr);
            && (status == Found <==> EnclosingFile(stabs, addr) > 0)
            && (status == OutOfTable <==> FirstEntryIsFileAbove(stabs, addr))
            && (status == Found ==> nest == Locate(stabs, addr))
  {
    FileSearch(stabs, addr);
    if EnclosingFile(stabs, addr) > 0 {
      FunSearch(stabs, addr, Locate(stabs, addr));
    }
  }

  /** When some function entry of the file is at or below `addr`, the bounds nest,
      the function is the last such entry, its region ends before the next one, and
      the parameters counted are inside its region. */
  lemma LookupNests(stabs: seq<Stab>, strings: seq<int>, addr: nat, i: int)
    requires Orderly(stabs, addr)
    requires Lookup(stabs, strings, addr).0 == Found
    requires var n := Lookup(stabs, strings, addr).1;
             n.lfile <= i <= n.rfile && stabs[i].typ == N_FUN && stabs[i].value <= addr
    ensures var n := Lookup(stabs, strings, addr).1;
            && n.lfile < n.lfun <= n.rfun <= n.rfile
            && i <= n.lfun && stabs[n.lfun].typ == N_FUN && stabs[n.lfun].value <= addr
            && (forall j :: n.lfun < j <= n.rfun ==> stabs[j].typ != N_FUN)
            && (n.rfun < n.rfile ==> stabs[n.rfun + 1].typ == N_FUN && stabs[n.rfun + 1].value > addr)
            && Details(stabs, strings, addr, n).fnAddr == stabs[n.lfun].value
            && (var narg := Details(stabs, strings, addr, n).fnNarg; narg == 0 || n.lfun + narg < n.rfun)
  {
    LookupIsLinear(stabs, strings, addr);
    LocateNests(stabs, addr, Locate(stabs, addr), i);
  }

  lemma LocateNests(stabs: seq<Stab>, addr: nat, n: Nest, i: int)
    requires EnclosingFile(stabs, addr) > 0 && n == Locate(stabs, addr)
    requires n.lfile <= i <= n.rfile && stabs[i].typ == N_FUN && stabs[i].value <= addr
    ensures n.lfile < n.lfun <= n.rfun
    ensures i <= n.lfun && stabs[n.lfun].typ == N_FUN && stabs[n.lfun].value <= addr
    ensures forall j :: n.lfun < j <= n.rfun ==> stabs[j].typ != N_FUN
    ensures n.rfun < n.rfile ==> stabs[n.rfun + 1].typ == N_FUN && stabs[n.rfun + 1].value > addr
  {
    assert StabSearch.At(stabs, N_FUN, i);
    assert StabSearch.At(stabs, N_SO, n.lfile);
    forall j | n.lfun < j <= n.rfun
      ensures stabs[j].typ != N_FUN
    {
      assert !StabSearch.At(stabs, N_FUN, j);
    }
  }

  ghost predicate HasFunctionAtMost(stabs: seq<Stab>, lo: int, hi: int, addr: nat)
    requires 0 <= lo && hi < |stabs|
  {
    exists i :: lo <= i <= hi && stabs[i].typ == N_FUN && stabs[i].value <= addr
  }

  /** When the function's bounds are not empty, the entry taken for the function is
      one iff some function entry of the file is at or below `addr`. */
  lemma FunctionIsFoundIff(stabs: seq<Stab>, strings: seq<int>, addr: nat)
    requires Orderly(stabs, addr)
    requires Lookup(stabs, strings, addr).0 == Found
    requires Lookup(stabs, strings, addr).1.lfun <= Lookup(stabs, strings, addr).1.rfun
    ensures var n := Lookup(stabs, strings, addr).1;
            && (stabs[n.lfun].typ == N_FUN <==> HasFunctionAtMost(stabs, n.lfile, n.rfile, addr))
            && (stabs[n.lfun].typ != N_FUN ==> n.lfun == n.lfile && stabs[n.lfun].typ == N_SO)
  {
    LookupIsLinear(stabs, strings, addr);
    var n := Locate(stabs, addr);
    assert StabSearch.At(stabs, N_SO, n.lfile);
    if HasFunctionAtMost(stabs, n.lfile, n.rfile, addr) {
      var i :| n.lfile <= i <= n.rfile && stabs[i].typ == N_FUN && stabs[i].value <= addr;
      LookupNests(stabs, strings, addr, i);
    }
  }

  // ---------------------------------------------------------------------------
  // Tables on which the lookup fails its purpose
  // ---------------------------------------------------------------------------

  /** A file that starts at 0xf0100000 and whose only function starts at
      0xf0100010: for an address between them, the name and the address reported
      for the function are those of the file. */
  lemma FileIsTakenForFunction(strings: seq<int>)
    requires ValidStrings(strings)
    ensures var stabs := [Stab(0, 0, 0), Stab(1, N_SO, 0xf010_0000), Stab(2, N_FUN, 0xf010_0010)];
            && Orderly(stabs, 0xf010_0004)
            && Lookup(stabs, strings, 0xf010_0004) == (Found, Nest(1, 2, 1, 1))
            && stabs[1].typ == N_SO
            && Details(stabs, strings, 0xf010_0004, Nest(1, 2, 1, 1)).fnAddr == 0xf010_0000
            && Details(stabs, strings, 0xf010_0004, Nest(1, 2, 1, 1)).fnName == NameOf(stabs, strings, 1)
  {
    var stabs := [Stab(0, 0, 0), Stab(1, N_SO, 0xf010_0000), Stab(2, N_FUN, 0xf010_0010)];
    LookupIsLinear(stabs, strings, 0xf010_0004);
    assert EnclosingFile(stabs, 0xf010_0004) == 1;
    assert NextOf(stabs, N_SO, 2, 2) == 3;
    assert LastAtMost(stabs, N_FUN, 1, 2, 0xf010_0004) == 0;
    assert NextOf(stabs, N_FUN, 1, 2) == 2;
  }

  /** A table that starts with the entry of a file above the address: the second
      search would read before the table. */
  lemma FirstFileAboveLeavesTable(strings: seq<int>)
    requires ValidStrings(strings)
    ensures var stabs := [Stab(1, N_SO, 0xf010_0010), Stab(2, N_FUN, 0xf010_0010)];
            Orderly(stabs, 0xf010_0004) && Lookup(stabs, strings, 0xf010_0004).0 == OutOfTable
  {
    var stabs := [Stab(1, N_SO, 0xf010_0010), Stab(2, N_FUN, 0xf010_0010)];
    LookupIsLinear(stabs, strings, 0xf010_0004);
  }

  /** The forward walk stops before the last entry of the function: it misses that
      entry iff all entries from the first one on are parameters. */
  lemma {:induction false} LastParameterIsMissedIff(stabs: seq<Stab>, i: int, rfun: int)
    requires 0 <= i && rfun < |stabs|
    ensures ParameterRun(stabs, i, rfun) != ParameterRun(stabs, i, rfun + 1)
       <==> i <= rfun && forall j :: i <= j <= rfun ==> stabs[j].typ == N_PSYM
    decreases rfun - i
  {
    if i < rfun && stabs[i].typ == N_PSYM {
      LastParameterIsMissedIff(stabs, i + 1, rfun);
    }
  }

  /** A function with one parameter, whose entry is its last: none is counted. */
  lemma OnlyParameterIsMissed(strings: seq<int>)
    requires ValidStrings(strings)
    ensures var stabs := [Stab(0, 0, 0), Stab(1, 0x64, 0xf010_0000), Stab(2, 0x24, 0xf010_0000), Stab(3, 0xa0, 8)];
            && Orderly(stabs, 0xf010_0004)
            && Lookup(stabs, strings, 0xf010_0004) == (Found, Nest(1, 3, 2, 3))
            && Details(stabs, strings, 0xf010_0004, Nest(1, 3, 2, 3)).fnNarg == 0
            && ParameterRun(stabs, 3, 4) == 1
  {
    var stabs := [Stab(0, 0, 0), Stab(1, 0x64, 0xf010_0000), Stab(2, 0x24, 0xf010_0000), Stab(3, 0xa0, 8)];
    LookupIsLinear(stabs, strings, 0xf010_0004);
    assert LastAtMost(stabs, N_SO, 0, 1, 0xf010_0004) == 1;
    assert LastAtMost(stabs, N_SO, 0, 2, 0xf010_0004) == 1;
    assert EnclosingFile(stabs, 0xf010_0004) == 1;
    assert NextOf(stabs, N_SO, 3, 3) == 4;
    assert NextOf(stabs, N_SO, 2, 3) == 4;
    assert LastAtMost(stabs, N_FUN, 1, 2, 0xf010_0004) == 2;
    assert LastAtMost(stabs, N_FUN, 1, 3, 0xf010_0004) == 2;
    assert NextOf(stabs, N_FUN, 3, 3) == 4;
  }
}
