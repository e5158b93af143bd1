/** Model of `runcmd` (kern/monitor.c): a command line is cut into arguments in
    place, and the first one selects a command. */
module Monitor {
  import opened CString

  const MAXARGS := 16

  // ---------------------------------------------------------------------------
  // Arguments of a line
  // ---------------------------------------------------------------------------

  /** One of the characters of "\t\r\n ". */
  predicate IsBlank(c: int)
  {
    c == TAB || c == RETURN || c == NEWLINE || c == SPACE
  }

  lemma BlankCharacters(c: int)
    ensures IsBlank(c) <==> c in Codes("\t\r\n ")
  {
    assert Codes("\t\r\n ") == [9, 13, 10, 32];
  }

  function SkipBlanks(line: seq<schar>, i: nat): (k: nat)
    requires i <= |line|
    ensures i <= k <= |line|
    ensures forall j :: i <= j < k ==> IsBlank(line[j])
    ensures k < |line| ==> !IsBlank(line[k])
    decreases |line| - i
  {
    if i < |line| && IsBlank(line[i]) then SkipBlanks(line, i + 1) else i
  }

  function SkipWord(line: seq<schar>, i: nat): (k: nat)
    requires i <= |line|
    ensures i <= k <= |line|
    ensures forall j :: i <= j < k ==> !IsBlank(line[j])
    ensures k < |line| ==> IsBlank(line[k])
    decreases |line| - i
  {
    if i < |line| && !IsBlank(line[i]) then SkipWord(line, i + 1) else i
  }

  /** The arguments from `i` on, each as its start and its end. */
  function Words(line: seq<schar>, i: nat): (w: seq<(nat, nat)>)
    requires i <= |line|
    ensures w != [] ==> w[0].0 < w[0].1 <= |line|
    decreases |line| - i
  {
    var s := SkipBlanks(line, i);
    if s == |line| then [] else [(s, SkipWord(line, s))] + Words(line, SkipWord(line, s))
  }

  /** [s, e) is a maximal run of characters that are not blank. */
  predicate IsRun(line: seq<schar>, s: nat, e: nat)
  {
    && s < e <= |line|
    && (forall j :: s <= j < e ==> !IsBlank(line[j]))
    && (s > 0 ==> IsBlank(line[s - 1]))
    && (e < |line| ==> IsBlank(line[e]))
  }

  /** Scanning starts at the beginning of the line or at the edge of a run. */
  predicate AtEdge(line: seq<schar>, i: nat)
  {
    i <= |line| && (0 < i < |line| ==> IsBlank(line[i]) || IsBlank(line[i - 1]))
  }

  /** The arguments are maximal runs. */
  lemma {:induction false} WordsAreRuns(line: seq<schar>, i: nat, k: nat)
    requires AtEdge(line, i) && k < |Words(line, i)|
    ensures var (s, e) := Words(line, i)[k];
            i <= s && IsRun(line, s, e)
    decreases |line| - i
  {
    var s := SkipBlanks(line, i);
    var e := SkipWord(line, s);
    if k > 0 {
      WordsAreRuns(line, e, k - 1);
    }
  }

  /** They come from left to right. */
  lemma WordsAreOrdered(line: seq<schar>, i: nat, k: nat, l: nat)
    requires AtEdge(line, i) && k < l < |Words(line, i)|
    ensures Words(line, i)[k].1 < Words(line, i)[l].0
    decreases |line| - i
  {
    var e := SkipWord(line, SkipBlanks(line, i));
    if k > 0 {
      WordsAreOrdered(line, e, k - 1, l - 1);
    } else {
      WordsAreRuns(line, e, l - 1);
    }
  }

  /** Every character that is not blank is in one of them. */
  lemma {:induction false} WordsCover(line: seq<schar>, i: nat, j: nat) returns (k: nat)
    requires i <= j < |line| && !IsBlank(line[j])
    ensures k < |Words(line, i)| && Words(line, i)[k].0 <= j < Words(line, i)[k].1
    decreases |line| - i
  {
    var s := SkipBlanks(line, i);
    var e := SkipWord(line, s);
    if j < e {
      k := 0;
    } else {
      k := WordsCover(line, e, j);
      k := k + 1;
    }
  }

  /** The line with every blank before `n` overwritten by NUL. */
  function Cut(line: seq<schar>, n: nat): (c: seq<schar>)
    requires n <= |line|
    ensures |c| == |line|
  {
    seq(|line|, i requires 0 <= i < |line| => if i < n && IsBlank(line[i]) then NUL else line[i])
  }

  // ---------------------------------------------------------------------------
  // C strings inside a buffer
  // ---------------------------------------------------------------------------

  /** The C string at `p`. */
  function StringAt(b: seq<schar>, p: nat): seq<schar>
    requires p <= |b|
    decreases |b| - p
  {
    if p == |b| || b[p] == NUL then [] else [b[p]] + StringAt(b, p + 1)
  }

  lemma {:induction false} StringIsRun(b: seq<schar>, p: nat, e: nat)
    requires p <= e < |b| && b[e] == NUL
    requires forall j :: p <= j < e ==> b[j] != NUL
    ensures StringAt(b, p) == b[p..e]
    decreases e - p
  {
    if p < e {
      StringIsRun(b, p + 1, e);
    }
  }

  /** After the cut, each argument read as a C string is its run of the line. */
  lemma ArgumentsRead(line: seq<schar>, b: seq<schar>, k: nat, s: nat, e: nat)
    requires NUL !in line && k < |Words(line, 0)| && Words(line, 0)[k] == (s, e)
    requires |b| > |line| && b[..|line|] == Cut(line, |line|) && b[|line|] == NUL
    ensures s < e <= |line| && StringAt(b, s) == line[s..e]
  {
    WordsAreRuns(line, 0, k);
    CutRun(line, b, s, e);
  }

  lemma CutRun(line: seq<schar>, b: seq<schar>, s: nat, e: nat)
    requires NUL !in line && IsRun(line, s, e)
    requires |b| > |line| && b[..|line|] == Cut(line, |line|) && b[|line|] == NUL
    ensures StringAt(b, s) == line[s..e]
  {
    assert forall j :: 0 <= j < |line| ==> b[j] == Cut(line, |line|)[j];
    assert forall j :: s <= j < e ==> b[j] == line[j] && line[j] in line;
    assert b[s..e] == line[s..e];
    StringIsRun(b, s, e);
  }

  // ---------------------------------------------------------------------------
  // strcmp
  // ---------------------------------------------------------------------------

  /** A `char` as an `unsigned char`. */
  function Unsigned(c: schar): int
  {
    if c >= 0 then c else c + 256
  }

  /** The difference of the first characters, as `unsigned char`s, in which two
      strings differ; a string ends with NUL. */
  function Difference(p: seq<schar>, q: seq<schar>): int
  {
    if p != [] && q != [] && p[0] == q[0] then Difference(p[1..], q[1..])
    else (if p == [] then 0 else Unsigned(p[0])) - (if q == [] then 0 else Unsigned(q[0]))
  }

  /** The result is zero iff the strings are equal. */
  lemma {:induction false} DifferenceZeroIff(p: seq<schar>, q: seq<schar>)
    requires NUL !in p && NUL !in q
    ensures Difference(p, q) == 0 <==> p == q
    decreases |p|
  {
    assert p != [] ==> p[0] in p;
    assert q != [] ==> q[0] in q;
    if p != [] && q != [] && p[0] == q[0] {
      assert p == [p[0]] + p[1..] && q == [q[0]] + q[1..];
      DifferenceZeroIff(p[1..], q[1..]);
    }
  }

  /** The `unsigned char` at `k`, or NUL at the end. */
  function UnsignedAt(p: seq<schar>, k: nat): int
    requires k <= |p|
  {
    if k == |p| then 0
    else
      var c: int := p[k];
      (c + 256) % 256
  }

  /** The result is the difference of the first characters that differ, in order of
      `unsigned char`s. */
  lemma {:induction false} DifferenceAt(p: seq<schar>, q: seq<schar>, k: nat)
    requires k <= |p| && k <= |q| && p[..k] == q[..k]
    requires k == |p| || k == |q| || p[k] != q[k]
    ensures Difference(p, q) == UnsignedAt(p, k) - UnsignedAt(q, k)
    decreases k
  {
    if k > 0 {
      assert p[0] == p[..k][0] && q[0] == q[..k][0];
      assert p[1..][..k - 1] == p[..k][1..] && q[1..][..k - 1] == q[..k][1..];
      DifferenceAt(p[1..], q[1..], k - 1);
    }
  }

  /** `strcmp(p, q)`, for the C string at `i` of a buffer and a constant string. */
  method Strcmp(b: array<schar>, i: nat, q: seq<schar>) returns (r: int)
    requires i < b.Length && NUL !in q
    requires exists e :: i <= e < b.Length && b[e] == NUL
    ensures r == Difference(StringAt(b[..], i), q)
  {
    var p, k := i, 0;
    ghost var e :| i <= e < b.Length && b[e] == NUL;
    while b[p] != NUL && b[p] == if k < |q| then q[k] else NUL
      invariant i <= p <= e && 0 <= k <= |q|
      invariant Difference(StringAt(b[..], p), q[k..]) == Difference(StringAt(b[..], i), q)
      decreases b.Length - p
    {
      assert q[k..][0] == q[k] && q[k..][1..] == q[k + 1..];
      p, k := p + 1, k + 1;
    }
    assert k < |q| ==> q[k..][0] == q[k] && q[k] in q;
    r := Unsigned(b[p]) - Unsigned(if k < |q| then q[k] else NUL);
  }

  // ---------------------------------------------------------------------------
  // runcmd
  // ---------------------------------------------------------------------------

  /** A `char *` into the line, or null. */
  datatype Pointer = Null | To(i: nat)

  /** The buffer holds `line`, cut up to `p`, and its terminator. */
  ghost predicate CutTo(b: seq<schar>, line: seq<schar>, p: nat)
  {
    && NUL !in line && p <= |line| < |b|
    && b[..|line|] == Cut(line, p) && b[|line|] == NUL
  }

  lemma CutToAt(b: seq<schar>, line: seq<schar>, p: nat)
    requires CutTo(b, line, p)
    ensures b[p] == if p < |line| then line[p] else NUL
    ensures p < |line| ==> b[p] != NUL
  {
  }

  /** "Gobble whitespace". */
  method ClearBlanks(buf: array<schar>, p: nat, ghost line: seq<schar>) returns (q: nat)
    requires CutTo(buf[..], line, p)
    modifies buf
    ensures CutTo(buf[..], line, q) && buf[|line|..] == old(buf[|line|..])
    ensures q == SkipBlanks(line, p)
  {
    q := p;
    CutToAt(buf[..], line, q);
    while buf[q] != NUL && IsBlank(buf[q])
      invariant CutTo(buf[..], line, q) && buf[|line|..] == old(buf[|line|..])
      invariant buf[q] == (if q < |line| then line[q] else NUL) && (q < |line| ==> buf[q] != NUL)
      invariant SkipBlanks(line, q) == SkipBlanks(line, p)
      decreases |line| - q
    {
      ghost var was := buf[..];
      buf[q] := NUL;
      assert buf[..|line|] == was[..|line|][q := NUL] == Cut(line, q + 1);
      q := q + 1;
      CutToAt(buf[..], line, q);
    }
  }

  /** "Scan past next arg". */
  method PassWord(buf: array<schar>, p: nat, ghost line: seq<schar>) returns (q: nat)
    requires CutTo(buf[..], line, p)
    ensures CutTo(buf[..], line, q)
    ensures q == SkipWord(line, p)
  {
    q := p;
    CutToAt(buf[..], line, q);
    while buf[q] != NUL && !IsBlank(buf[q])
      invariant CutTo(buf[..], line, q)
      invariant buf[q] == (if q < |line| then line[q] else NUL) && (q < |line| ==> buf[q] != NUL)
      invariant SkipWord(line, q) == SkipWord(line, p)
      decreases |line| - q
    {
      assert Cut(line, q + 1) == Cut(line, q);
      q := q + 1;
      CutToAt(buf[..], line, q);
    }
  }

  /** The argument after `p`, where the blanks after `p` end at `s`. */
  lemma NextWord(line: seq<schar>, p: nat, s: nat, words: seq<(nat, nat)>, k: nat)
    requires p <= |line| && s == SkipBlanks(line, p)
    requires k <= |words| && words[k..] == Words(line, p)
    ensures s == |line| ==> k == |words|
    ensures s < |line| ==> k < |words| && words[k].0 == s && words[k + 1..] == Words(line, SkipWord(line, s))
  {
    if s < |line| {
      assert words[k] == words[k..][0] && words[k + 1..] == words[k..][1..];
    }
  }

  /** The loop that cuts the line, for the line `line` in `buf`. `ok` is false when
      there is a sixteenth argument. */
  method Parse(buf: array<schar>, argv: array<Pointer>, ghost line: seq<schar>) returns (ok: bool, argc: nat)
    requires CutTo(buf[..], line, 0) && argv.Length == MAXARGS
    modifies buf, argv
    ensures ok <==> |Words(line, 0)| < MAXARGS
    ensures buf[|line|..] == old(buf[|line|..])
    ensures ok ==> argc == |Words(line, 0)| && CutTo(buf[..], line, |line|)
    ensures ok ==> argv[argc] == Null && forall k :: 0 <= k < argc ==> argv[k] == To(Words(line, 0)[k].0)
  {
    argc := 0;
    argv[0] := Null;
    var p: nat := 0;
    ghost var words := Words(line, 0);
    while true
      invariant argc <= |words| && argc < MAXARGS
      invariant CutTo(buf[..], line, p) && buf[|line|..] == old(buf[|line|..])
      invariant words[argc..] == Words(line, p)
      invariant forall k :: 0 <= k < argc ==> argv[k] == To(words[k].0)
      decreases MAXARGS - argc
    {
      ghost var was := p;
      p := ClearBlanks(buf, p, line);
      CutToAt(buf[..], line, p);
      NextWord(line, was, p, words, argc);
      if buf[p] == NUL {
        break;
      }
      if argc == MAXARGS - 1 {
        return false, argc;
      }
      argv[argc] := To(p);
      argc := argc + 1;
      p := PassWord(buf, p, line);
    }
    argv[argc] := Null;
    ok := true;
  }

  /** What `runcmd` does with a line. */
  datatype Action = Nothing | TooMany | Unknown | Run(command: nat, argc: nat)

  const HELP: seq<schar> := [104, 101, 108, 112]
  const KERNINFO: seq<schar> := [107, 101, 114, 110, 105, 110, 102, 111]
  const COMMANDS := [HELP, KERNINFO]

  /** The action, in terms of the line alone. */
  function ActionOf(line: seq<schar>): Action
  {
    var words := Words(line, 0);
    if |words| >= MAXARGS then TooMany
    else if words == [] then Nothing
    else
      var (s, e) := words[0];
      if line[s..e] == HELP then Run(0, |words|)
      else if line[s..e] == KERNINFO then Run(1, |words|)
      else Unknown
  }

  /** The argument array points at the runs of the line, each a C string in place,
      and ends with null. */
  ghost predicate Arguments(b: seq<schar>, argv: seq<Pointer>, line: seq<schar>)
  {
    var words := Words(line, 0);
    && |argv| == MAXARGS && |words| < MAXARGS && argv[|words|] == Null
    && forall k :: 0 <= k < |words| ==>
         && argv[k] == To(words[k].0)
         && words[k].0 < words[k].1 <= |line| && words[k].0 <= |b|
         && StringAt(b, words[k].0) == line[words[k].0..words[k].1]
  }

  /** `n` arguments of one character, each with a blank after it. */
  function Letters(n: nat): (line: seq<schar>)
    ensures |line| == 2 * n && Alternates(line)
  {
    seq(2 * n, i => if i % 2 == 0 then 97 else SPACE)
  }

  ghost predicate Alternates(line: seq<schar>)
  {
    forall i :: 0 <= i < |line| ==> line[i] == if i % 2 == 0 then 97 else SPACE
  }

  lemma {:induction false} LettersAreWords(line: seq<schar>, i: nat)
    requires Alternates(line) && i % 2 == 0 && |line| % 2 == 0 && i <= |line|
    ensures 2 * |Words(line, i)| == |line| - i
    decreases |line| - i
  {
    if i < |line| {
      LetterIsWord(line, i);
      LettersAreWords(line, i + 2);
    }
  }

  lemma LetterIsWord(line: seq<schar>, i: nat)
    requires i + 1 < |line| && line[i] == 97 && line[i + 1] == SPACE
    ensures |Words(line, i)| == 1 + |Words(line, i + 2)|
  {
    assert SkipBlanks(line, i) == i && SkipWord(line, i + 1) == i + 1 && SkipWord(line, i) == i + 1;
    BlankIsSkipped(line, i + 1);
  }

  lemma BlankIsSkipped(line: seq<schar>, i: nat)
    requires i < |line| && IsBlank(line[i])
    ensures Words(line, i) == Words(line, i + 1)
  {
  }

  /** The limit is 15 and not the 16 that the message names: lines of `n` arguments
      are refused from `n` = 16 on. */
  lemma SixteenAreRefused(n: nat, line: seq<schar>)
    requires line == Letters(n)
    ensures |Words(line, 0)| == n && (ActionOf(line).TooMany? <==> n >= 16)
  {
    LettersAreWords(line, 0);
  }

  /** A line of tabs, blanks, a carriage return and the word "help". */
  lemma HelpRuns(line: seq<schar>)
    requires line == Codes("\t help\r \n")
    ensures Words(line, 0) == [(2, 6)] && ActionOf(line) == Run(0, 1)
  {
    assert line == [9, 32, 104, 101, 108, 112, 13, 32, 10];
    assert SkipBlanks(line, 2) == 2 && SkipBlanks(line, 1) == 2 && SkipBlanks(line, 0) == 2;
    assert SkipWord(line, 6) == 6 && SkipWord(line, 5) == 6 && SkipWord(line, 4) == 6;
    assert SkipWord(line, 3) == 6 && SkipWord(line, 2) == 6;
    assert SkipBlanks(line, 9) == 9 && SkipBlanks(line, 8) == 9 && SkipBlanks(line, 7) == 9 && SkipBlanks(line, 6) == 9;
    assert Words(line, 6) == [];
    assert line[2..6] == HELP;
  }

  /** The index of the command with the name at `arg`, or the number of commands. */
  method Lookup(buf: array<schar>, arg: nat, ghost name: seq<schar>) returns (i: nat)
    requires arg < buf.Length && NUL !in name && StringAt(buf[..], arg) == name
    requires exists e :: arg <= e < buf.Length && buf[e] == NUL
    ensures i == if name == HELP then 0 else if name == KERNINFO then 1 else |COMMANDS|
  {
    i := 0;
    while i < |COMMANDS|
      invariant 0 <= i <= |COMMANDS|
      invariant forall k :: 0 <= k < i ==> name != COMMANDS[k]
    {
      assert NUL !in COMMANDS[i];
      var r := Strcmp(buf, arg, COMMANDS[i]);
      DifferenceZeroIff(name, COMMANDS[i]);
      if r == 0 {
        return;
      }
      i := i + 1;
    }
    assert COMMANDS[0] == HELP && COMMANDS[1] == KERNINFO;
  }

  /** `runcmd(buf, tf)`. A command is called iff there are 1 to 15 arguments and the
      first is its name; before that, the arguments are the runs of the line, each a
      C string in place. */
  method Runcmd(buf: array<schar>, ghost line: seq<schar>) returns (a: Action, argv: array<Pointer>)
    requires CutTo(buf[..], line, 0)
    modifies buf
    ensures a == ActionOf(line)
    ensures COMMANDS == [Codes("help"), Codes("kerninfo")]
    ensures var words := Words(line, 0);
            && (a.TooMany? <==> |words| > 15) && (a.Nothing? <==> words == [])
            && (a.Run? <==> 1 <= |words| <= 15 && line[words[0].0..words[0].1] in COMMANDS)
            && (a.Run? ==> && a.command < |COMMANDS| && a.argc == |words|
                           && COMMANDS[a.command] == line[words[0].0..words[0].1])
    ensures buf[|line|..] == old(buf[|line|..])
    ensures a.Run? || a.Unknown? ==> Arguments(buf[..], argv[..], line)
  {
    assert HELP == Codes("help") && KERNINFO == Codes("kerninfo");
    argv := new Pointer[MAXARGS](_ => Null);
    var ok, argc := Parse(buf, argv, line);
    if !ok {
      return TooMany, argv;
    }
    if argc == 0 {
      return Nothing, argv;
    }
    ghost var words := Words(line, 0);
    forall k | 0 <= k < |words|
      ensures words[k].0 < words[k].1 <= |line| && StringAt(buf[..], words[k].0) == line[words[k].0..words[k].1]
    {
      ArgumentsRead(line, buf[..], k, words[k].0, words[k].1);
    }
    var i := Lookup(buf, argv[0].i, line[words[0].0..words[0].1]);
    return if i < |COMMANDS| then Run(i, argc) else Unknown, argv;
  }
}
