/** Model of `readline` (lib/readline.c): a line editor on the screen of
    kern/console.c. */
module Readline {
  import opened CString
  import opened Cga
  import F = Format

  const BUFLEN := 1024
  const DELETE := 127

  // ---------------------------------------------------------------------------
  // Editing, without screen or buffer
  // ---------------------------------------------------------------------------

  predicate Erases(line: seq<int>, key: int)
  {
    (key == BACKSPACE || key == DELETE) && |line| > 0
  }

  predicate Inserts(line: seq<int>, key: int)
  {
    !Erases(line, key) && key >= SPACE && |line| < BUFLEN - 1
  }

  /** A key that ends the line or reports a read error. */
  predicate Ends(line: seq<int>, key: int)
  {
    key < 0 || ((key == NEWLINE || key == RETURN) && !Erases(line, key) && !Inserts(line, key))
  }

  /** The line after one key. */
  function EditKey(line: seq<int>, key: int): (l: seq<int>)
    ensures |line| < BUFLEN ==> |l| < BUFLEN
  {
    if Erases(line, key) then line[..|line| - 1]
    else if Inserts(line, key) then line + [key]
    else line
  }

  /** What one key puts on the screen. */
  function EchoKey(line: seq<int>, key: int): seq<int>
  {
    if Erases(line, key) then [BACKSPACE]
    else if Inserts(line, key) then [key]
    else []
  }

  /** The number of keys before the first one that ends the line. */
  function EditedKeys(line: seq<int>, keys: seq<int>): (n: nat)
    ensures n <= |keys|
    decreases |keys|
  {
    if keys == [] || Ends(line, keys[0]) then 0 else 1 + EditedKeys(EditKey(line, keys[0]), keys[1..])
  }

  /** The line after a sequence of keys none of which ends it. */
  function EditAll(line: seq<int>, keys: seq<int>): (l: seq<int>)
    ensures |line| < BUFLEN ==> |l| < BUFLEN
    decreases |keys|
  {
    if keys == [] then line else EditAll(EditKey(line, keys[0]), keys[1..])
  }

  function EchoAll(line: seq<int>, keys: seq<int>): seq<int>
    decreases |keys|
  {
    if keys == [] then [] else EchoKey(line, keys[0]) + EchoAll(EditKey(line, keys[0]), keys[1..])
  }

  // ---------------------------------------------------------------------------
  // What the keys type
  // ---------------------------------------------------------------------------

  lemma EditFirst(line: seq<int>, key: int, keys: seq<int>)
    ensures EditAll(line, [key] + keys) == EditAll(EditKey(line, key), keys)
  {
    assert ([key] + keys)[1..] == keys;
  }

  lemma {:induction false} EditConcat(line: seq<int>, keys: seq<int>, more: seq<int>)
    ensures EditAll(line, keys + more) == EditAll(EditAll(line, keys), more)
    decreases |keys|
  {
    if keys == [] {
      assert keys + more == more;
    } else {
      assert (keys + more)[1..] == keys[1..] + more;
      EditConcat(EditKey(line, keys[0]), keys[1..], more);
    }
  }

  /** A character that can be typed: from the space bar on, but not DELETE. */
  predicate IsText(key: int)
  {
    key >= ' ' as int && key != 127
  }

  /** Keys with a character type their characters, as long as there is room. */
  lemma {:induction false} KeysAreTyped(line: seq<int>, keys: seq<int>)
    requires forall i :: 0 <= i < |keys| ==> IsText(keys[i])
    requires |line| + |keys| < 1024
    ensures EditAll(line, keys) == line + keys
    decreases |keys|
  {
    if keys == [] {
      assert line + [] == line;
    } else {
      assert EditKey(line, keys[0]) == line + [keys[0]];
      KeysAreTyped(line + [keys[0]], keys[1..]);
      assert line + [keys[0]] + keys[1..] == line + keys;
    }
  }

  /** In a full line, they are ignored. */
  lemma {:induction false} FullLineIgnores(line: seq<int>, keys: seq<int>)
    requires forall i :: 0 <= i < |keys| ==> IsText(keys[i])
    requires |line| == 1023
    ensures EditAll(line, keys) == line
    decreases |keys|
  {
    if keys != [] {
      FullLineIgnores(line, keys[1..]);
    }
  }

  /** Each backspace or DELETE takes back one character. */
  lemma {:induction false} KeysAreErased(line: seq<int>, typed: seq<int>, keys: seq<int>)
    requires |keys| == |typed| && forall i :: 0 <= i < |keys| ==> keys[i] == 8 || keys[i] == 127
    ensures EditAll(line + typed, keys) == line
    decreases |keys|
  {
    if keys == [] {
      assert line + typed == line;
    } else {
      var last := |typed| - 1;
      assert EditKey(line + typed, keys[0]) == line + typed[..last];
      KeysAreErased(line, typed[..last], keys[1..]);
    }
  }

  /** On the empty line a backspace does nothing, but DELETE is inserted: its code is
      not below that of the space. */
  lemma EmptyLineErases(key: int)
    requires key == 8 || key == 127
    ensures EditAll([], [key]) == if key == 127 then [127] else []
    ensures EditAll([], [key]) == [] <==> key == 8
  {
    EditFirst([], key, []);
    assert [key] + [] == [key];
  }

  /** Other keys below the space change nothing. */
  lemma {:induction false} ControlsChangeNothing(line: seq<int>, keys: seq<int>)
    requires forall i :: 0 <= i < |keys| ==> keys[i] < ' ' as int && keys[i] != 8
    ensures EditAll(line, keys) == line && EchoAll(line, keys) == []
    decreases |keys|
  {
    if keys != [] {
      ControlsChangeNothing(line, keys[1..]);
    }
  }

  /** A newline, a return or a read error. */
  predicate IsEnd(key: int)
  {
    key < 0 || key == '\n' as int || key == '\r' as int
  }

  /** The keys up to the first newline, return or read error are edited, whatever the
      line. */
  lemma {:induction false} EditedUpToEnd(line: seq<int>, keys: seq<int>, n: nat)
    requires n == EditedKeys(line, keys)
    ensures n <= |keys| && (forall i :: 0 <= i < n ==> !IsEnd(keys[i]))
    ensures n < |keys| ==> IsEnd(keys[n])
    decreases |keys|
  {
    if keys != [] && !Ends(line, keys[0]) {
      EditedUpToEnd(EditKey(line, keys[0]), keys[1..], n - 1);
      assert forall i :: 0 < i < n ==> keys[i] == keys[1..][i - 1];
    }
  }

  // ---------------------------------------------------------------------------
  // The echo spells the line
  // ---------------------------------------------------------------------------

  /** From position `p` to the cursor, the terminal shows `line` in the default
      colours. The window has not moved past `p`. */
  ghost predicate Spells(t: Term, p: nat, line: seq<int>)
  {
    && t.Valid() && t.top <= p && t.cur == p + |line| && |line| < BUFLEN
    && (forall j :: p <= j < t.cur ==> t.cells[j] == 0x700 + line[j - p])
    && (forall j :: 0 <= j < |line| ==> SPACE <= line[j] < 256)
  }

  lemma EchoInsert(t: Term, p: nat, line: seq<int>, key: int)
    requires Spells(t, p, line) && Inserts(line, key) && key < 256
    ensures Spells(Put1(t, key), p, line + [key])
  {
    var cells := t.cells[t.cur := 0x700 + key];
    assert Low(key) == key && Cell(key, key) == 0x700 + key;
    assert Put1(t, key) == Scroll(Term(cells, t.top, t.cur + 1));
    assert forall j :: p <= j < t.cur ==> cells[j] == t.cells[j];
  }

  lemma EchoErase(t: Term, p: nat, line: seq<int>)
    requires Spells(t, p, line) && |line| > 0
    ensures Spells(Put1(t, BACKSPACE), p, line[..|line| - 1])
  {
    var cells := t.cells[t.cur - 1 := Cell(BACKSPACE, SPACE)];
    assert Placed(t, BACKSPACE) == Term(cells, t.top, t.cur - 1);
    assert Put1(t, BACKSPACE) == Scroll(Placed(t, BACKSPACE));
    assert forall j :: p <= j < t.cur - 1 ==> cells[j] == t.cells[j];
  }

  lemma EchoStep(t: Term, p: nat, line: seq<int>, key: int)
    requires Spells(t, p, line) && key < 256
    ensures Spells(Type(t, EchoKey(line, key)), p, EditKey(line, key))
  {
    if Erases(line, key) {
      EchoErase(t, p, line);
      assert Type(t, [BACKSPACE]) == Put1(t, BACKSPACE);
    } else if Inserts(line, key) {
      EchoInsert(t, p, line, key);
      assert Type(t, [key]) == Put1(t, key);
    }
  }

  /** At every step, for every sequence of keys: the cells from the end of the
      prompt to the cursor spell the line, across erasures, row wraps and scrolls. */
  lemma {:induction false} EchoSpells(t: Term, p: nat, line: seq<int>, keys: seq<int>)
    requires Spells(t, p, line)
    requires forall i :: 0 <= i < |keys| ==> keys[i] < 256
    ensures Spells(Type(t, EchoAll(line, keys)), p, EditAll(line, keys))
    decreases |keys|
  {
    if keys != [] {
      var u := Type(t, EchoKey(line, keys[0]));
      EchoStep(t, p, line, keys[0]);
      EchoSpells(u, p, EditKey(line, keys[0]), keys[1..]);
      TypeConcat(t, EchoKey(line, keys[0]), EchoAll(EditKey(line, keys[0]), keys[1..]));
    }
  }

  // ---------------------------------------------------------------------------
  // The C functions
  // ---------------------------------------------------------------------------

  datatype Prompt = NoPrompt | Prompt(text: Text)

  /** A line was read; the read failed; or the keys ran out before the line ended. */
  datatype Outcome = Line | Failed | Waiting

  function Shown(prompt: Prompt): seq<int>
  {
    if prompt.NoPrompt? then [] else prompt.text
  }

  /** `cprintf`, for an output already computed from its format and arguments. */
  method PutAll(screen: Screen, out: seq<int>)
    requires screen.Valid()
    modifies screen, screen.buf
    ensures screen.Valid() && screen.term == Type(old(screen.term), out)
  {
    var i := 0;
    while i < |out|
      invariant 0 <= i <= |out| && screen.Valid()
      invariant Type(screen.term, out[i..]) == Type(old(screen.term), out)
    {
      assert out[i..][0] == out[i] && out[i..][1..] == out[i + 1..];
      screen.ConsPutc(out[i]);
      i := i + 1;
    }
  }

  /** What a read error prints for the code `c`. */
  function ErrorLine(c: int): seq<int>
  {
    Codes("read error: ") + F.ErrorMessage(if c < 0 then -c else c) + [NEWLINE]
  }

  /** `ErrorLine` is what `cprintf("read error: %e\n", c)` puts. */
  lemma ErrorLineIsPrinted(c: uint32, prefix: Text, suffix: Text)
    requires Signed32(c) != INT_MIN
    requires prefix == Codes("read error: ") && suffix == [NEWLINE]
    ensures NUL !in [PERCENT, 101]
    ensures F.Meaning(prefix + [PERCENT, 101] + suffix, [F.Word(c)]) == F.Done(ErrorLine(Signed32(c)), [])
  {
    F.OneDirective(prefix, 101, suffix, [F.Word(c)], F.Convert(101, F.PLAIN, [F.Word(c)]));
  }

  /** The keys up to the one that ends the line. */
  function Edited(keys: seq<int>): seq<int>
  {
    keys[..EditedKeys([], keys)]
  }

  /** How the keys end. */
  function Ending(keys: seq<int>): Outcome
  {
    var n := EditedKeys([], keys);
    if n == |keys| then Waiting else if keys[n] < 0 then Failed else Line
  }

  /** A line is read exactly when a newline or return comes before any read error, and
      the keys before it are the ones edited; a read fails exactly when a read error
      comes first. */
  lemma EndingIs(keys: seq<int>, n: nat)
    requires n <= |keys| && (forall i :: 0 <= i < n ==> !IsEnd(keys[i])) && (n < |keys| ==> IsEnd(keys[n]))
    ensures Edited(keys) == keys[..n]
    ensures Ending(keys) == if n == |keys| then Waiting else if keys[n] < 0 then Failed else Line
  {
    EditedUpToEnd([], keys, EditedKeys([], keys));
  }

  /** What is put after the echo. */
  function Closing(keys: seq<int>): seq<int>
  {
    var n := EditedKeys([], keys);
    match Ending(keys)
    case Line => [NEWLINE]
    case Failed => ErrorLine(keys[n])
    case Waiting => []
  }

  /** The `char`s of a line. */
  function Bytes(line: seq<int>): (b: seq<schar>)
    ensures |b| == |line|
  {
    seq(|line|, i requires 0 <= i < |line| => ToChar(line[i]))
  }

  /** What the rest of the keys still does to the line and to the screen. */
  datatype Rest = Rest(line: seq<int>, term: Term, ending: Outcome, closing: seq<int>)

  function Remaining(t: Term, line: seq<int>, keys: seq<int>): (r: Rest)
    requires t.Valid()
    ensures r.term.Valid()
    decreases |keys|
  {
    if keys == [] then Rest(line, t, Waiting, [])
    else if Ends(line, keys[0]) then
      if keys[0] < 0 then Rest(line, t, Failed, ErrorLine(keys[0])) else Rest(line, t, Line, [NEWLINE])
    else Remaining(Type(t, EchoKey(line, keys[0])), EditKey(line, keys[0]), keys[1..])
  }

  /** The keys, one after the other, do what the folds say. */
  lemma {:induction false} RemainingIsFold(t: Term, line: seq<int>, keys: seq<int>)
    requires t.Valid()
    ensures var n := EditedKeys(line, keys);
            var r := Remaining(t, line, keys);
            && r.line == EditAll(line, keys[..n])
            && r.term == Type(t, EchoAll(line, keys[..n]))
            && r.ending == (if n == |keys| then Waiting else if keys[n] < 0 then Failed else Line)
            && (r.ending == Failed ==> r.closing == ErrorLine(keys[n]))
            && (r.ending == Line ==> r.closing == [NEWLINE])
            && (r.ending == Waiting ==> r.closing == [])
    decreases |keys|
  {
    if keys != [] && !Ends(line, keys[0]) {
      var l := EditKey(line, keys[0]);
      var u := Type(t, EchoKey(line, keys[0]));
      RemainingIsFold(u, l, keys[1..]);
      var n := EditedKeys(l, keys[1..]);
      assert keys[..n + 1][1..] == keys[1..][..n];
      TypeConcat(t, EchoKey(line, keys[0]), EchoAll(l, keys[1..][..n]));
    }
  }

  /** A key that erases. */
  method EraseLast(screen: Screen, buf: array<schar>, i: nat, ghost line: seq<int>) returns (j: nat)
    requires screen.Valid() && (buf as object) != screen.buf && buf.Length == BUFLEN
    requires 0 < i == |line| < BUFLEN && buf[..i] == Bytes(line)
    modifies screen, screen.buf
    ensures screen.Valid() && screen.term == Put1(old(screen.term), BACKSPACE)
    ensures j == i - 1 && buf[..j] == Bytes(line[..j])
  {
    screen.ConsPutc(BACKSPACE);
    j := i - 1;
    assert buf[..j] == buf[..i][..j];
  }

  lemma BytesAppend(line: seq<int>, c: int)
    ensures Bytes(line + [c]) == Bytes(line) + [ToChar(c)]
  {
  }

  /** A key that is inserted. */
  method InsertKey(screen: Screen, buf: array<schar>, c: int, i: nat, ghost line: seq<int>) returns (j: nat)
    requires screen.Valid() && (buf as object) != screen.buf && buf.Length == BUFLEN
    requires i == |line| < BUFLEN - 1 && buf[..i] == Bytes(line)
    modifies screen, screen.buf, buf
    ensures screen.Valid() && screen.term == Put1(old(screen.term), c)
    ensures j == i + 1 && buf[..j] == Bytes(line + [c])
  {
    screen.ConsPutc(c);
    buf[i] := ToChar(c);
    j := i + 1;
    assert buf[..j] == buf[..i] + [ToChar(c)];
    BytesAppend(line, c);
  }

  /** The screen after one key that does not end the line. */
  function AfterKey(t: Term, line: seq<int>, key: int): (u: Term)
    requires t.Valid()
    ensures u.Valid()
  {
    if Erases(line, key) then Put1(t, BACKSPACE) else if Inserts(line, key) then Put1(t, key) else t
  }

  lemma RemainingStep(t: Term, line: seq<int>, keys: seq<int>, end: Rest)
    requires t.Valid() && keys != [] && !Ends(line, keys[0]) && end == Remaining(t, line, keys)
    ensures end == Remaining(AfterKey(t, line, keys[0]), EditKey(line, keys[0]), keys[1..])
  {
    assert Type(t, [BACKSPACE]) == Put1(t, BACKSPACE);
    assert Type(t, [keys[0]]) == Put1(t, keys[0]);
  }

  lemma RemainingEnds(t: Term, line: seq<int>, keys: seq<int>, end: Rest)
    requires t.Valid() && keys != [] && Ends(line, keys[0]) && end == Remaining(t, line, keys)
    ensures end == if keys[0] < 0 then Rest(line, t, Failed, ErrorLine(keys[0])) else Rest(line, t, Line, [NEWLINE])
  {
  }

  /** The body of the loop of `readline`: `r` is what it returns, or `Waiting` when
      the loop goes on. */
  method TypeKey(screen: Screen, buf: array<schar>, c: int, i: nat, ghost line: seq<int>)
    returns (r: Outcome, j: nat)
    requires screen.Valid() && (buf as object) != screen.buf && buf.Length == BUFLEN
    requires i == |line| < BUFLEN && buf[..i] == Bytes(line)
    modifies screen, screen.buf, buf
    ensures screen.Valid() && j == |EditKey(line, c)| < BUFLEN && buf[..j] == Bytes(EditKey(line, c))
    ensures r == if !Ends(line, c) then Waiting else if c < 0 then Failed else Line
    ensures r == Waiting ==> screen.term == AfterKey(old(screen.term), line, c)
    ensures r == Failed ==> j == i && screen.term == Type(old(screen.term), ErrorLine(c))
    ensures r == Line ==> j == i && screen.term == Type(old(screen.term), [NEWLINE]) && buf[j] == NUL
  {
    r, j := Waiting, i;
    if c < 0 {
      PutAll(screen, ErrorLine(c));
      r := Failed;
    } else if (c == BACKSPACE || c == DELETE) && i > 0 {
      j := EraseLast(screen, buf, i, line);
    } else if c >= SPACE && i < BUFLEN - 1 {
      j := InsertKey(screen, buf, c, i, line);
    } else if c == NEWLINE || c == RETURN {
      PutAll(screen, [NEWLINE]);
      buf[i] := NUL;
      r := Line;
    }
  }

  /** The loop of `readline`. */
  method EditLine(screen: Screen, buf: array<schar>, keys: seq<int>) returns (r: Outcome)
    requires screen.Valid() && (buf as object) != screen.buf && buf.Length == BUFLEN
    modifies screen, screen.buf, buf
    ensures var end := Remaining(old(screen.term), [], keys);
            && screen.Valid() && r == end.ending
            && screen.term == Type(end.term, end.closing)
            && |end.line| < BUFLEN && buf[..|end.line|] == Bytes(end.line)
            && (r == Line ==> buf[|end.line|] == NUL)
  {
    ghost var end := Remaining(screen.term, [], keys);
    ghost var line: seq<int> := [];
    var i: nat, k := 0, 0;
    while k < |keys|
      invariant 0 <= k <= |keys| && screen.Valid()
      invariant i == |line| < BUFLEN && buf[..i] == Bytes(line)
      invariant Remaining(screen.term, line, keys[k..]) == end
    {
      ghost var t := screen.term;
      assert keys[k..][0] == keys[k] && keys[k..][1..] == keys[k + 1..];
      r, i := TypeKey(screen, buf, keys[k], i, line);
      if r != Waiting {
        RemainingEnds(t, line, keys[k..], end);
        return;
      }
      RemainingStep(t, line, keys[k..], end);
      line := EditKey(line, keys[k]);
      k := k + 1;
    }
    r := Waiting;
  }

  /** Default colours do not change the character of a cell. */
  lemma CellChar(c: int)
    requires SPACE <= c < 256
    ensures ToChar(0x700 + c) == ToChar(c) != NUL
  {
  }

  /** The characters of the cells from `p` to the cursor are those of `bytes`, and
      there is room for a terminator after them. */
  ghost predicate Shows(t: Term, p: nat, bytes: seq<schar>)
  {
    && t.Valid() && t.top <= p && t.cur == p + |bytes| && |bytes| <= BUFLEN - 1
    && forall j :: p <= j < t.cur ==> ToChar(t.cells[j]) == bytes[j - p] != NUL
  }

  lemma SpelledBytes(t: Term, p: nat, line: seq<int>)
    requires Spells(t, p, line)
    ensures Shows(t, p, Bytes(line))
  {
    forall j | p <= j < t.cur
      ensures ToChar(t.cells[j]) == Bytes(line)[j - p] != NUL
    {
      CellChar(line[j - p]);
    }
  }

  /** After any number of keys, on any screen: the cells from the end of the prompt
      to the cursor show the bytes of the line. */
  lemma EchoAgreesWithBuffer(t: Term, p: nat, keys: seq<int>, bytes: seq<schar>)
    requires t.Valid() && p == t.cur
    requires forall i :: 0 <= i < |keys| ==> keys[i] < 256
    requires bytes == Bytes(EditAll([], keys))
    ensures Shows(Type(t, EchoAll([], keys)), p, bytes)
  {
    EchoSpells(t, p, [], keys);
    SpelledBytes(Type(t, EchoAll([], keys)), p, EditAll([], keys));
  }

  /** The screen once the keys of the line were echoed, before anything else is
      put. */
  ghost function Echoed(t: Term, prompt: Prompt, keys: seq<int>): (u: Term)
    requires t.Valid()
    ensures u.Valid()
  {
    Type(Type(t, Shown(prompt)), EchoAll([], Edited(keys)))
  }

  lemma EchoedShows(t: Term, prompt: Prompt, keys: seq<int>, bytes: seq<schar>)
    requires t.Valid() && bytes == Bytes(EditAll([], Edited(keys)))
    requires forall i :: 0 <= i < |keys| ==> keys[i] < 256
    ensures Shows(Echoed(t, prompt, keys), Type(t, Shown(prompt)).cur, bytes)
  {
    EchoAgreesWithBuffer(Type(t, Shown(prompt)), Type(t, Shown(prompt)).cur, Edited(keys), bytes);
  }

  /** `readline(prompt)`, on a screen and the static buffer `buf`, when `getchar`
      returns `keys`. */
  method Readline(screen: Screen, buf: array<schar>, prompt: Prompt, keys: seq<int>) returns (r: Outcome)
    requires screen.Valid() && (buf as object) != screen.buf && buf.Length == BUFLEN
    modifies screen, screen.buf, buf
    ensures screen.Valid() && r == Ending(keys)
    ensures var line := EditAll([], Edited(keys));
            && |line| < BUFLEN && buf[..|line|] == Bytes(line)
            && (r == Line ==> buf[|line|] == NUL)
            && ((forall i :: 0 <= i < |keys| ==> keys[i] < 256) ==>
                  Shows(Echoed(old(screen.term), prompt, keys), Type(old(screen.term), Shown(prompt)).cur,
                        buf[..|line|]))
    ensures screen.term == Type(Echoed(old(screen.term), prompt, keys), Closing(keys))
    ensures r == Waiting ==> screen.term == Echoed(old(screen.term), prompt, keys)
    ensures r == Line ==> screen.term == Type(Echoed(old(screen.term), prompt, keys), ['\n' as int])
  {
    ghost var t := screen.term;
    PutAll(screen, Shown(prompt));
    RemainingIsFold(screen.term, [], keys);
    r := EditLine(screen, buf, keys);
    if forall i :: 0 <= i < |keys| ==> keys[i] < 256 {
      EchoedShows(t, prompt, keys, Bytes(EditAll([], Edited(keys))));
    }
  }
}
