/** Model of one round of the kernel monitor (kern/monitor.c): a line is read from
    the keyboard and run as a command. */
module Shell {
  import opened CString
  import opened Cga
  import opened Readline
  import Monitor

  const MONITOR_PROMPT := Codes("K> ")

  /** The line that a sequence of keys types. */
  function TypedLine(keys: seq<int>): seq<schar>
  {
    Bytes(EditAll([], Edited(keys)))
  }

  /** A typed line holds no terminator and leaves room for one. */
  lemma TypedLineIsText(t: Term, keys: seq<int>)
    requires t.Valid()
    requires forall i :: 0 <= i < |keys| ==> keys[i] < 256
    ensures NUL !in TypedLine(keys) && |TypedLine(keys)| < BUFLEN
  {
    var line, u := EditAll([], Edited(keys)), Type(t, EchoAll([], Edited(keys)));
    EchoAgreesWithBuffer(t, t.cur, Edited(keys), Bytes(line));
    assert Shows(u, t.cur, Bytes(line));
    forall j | 0 <= j < |line|
      ensures Bytes(line)[j] != NUL
    {
      assert ToChar(u.cells[t.cur + j]) == Bytes(line)[t.cur + j - t.cur];
    }
  }

  /** A text that is typed and ended by a newline or a return is the line, byte by
      byte. */
  lemma TextIsTyped(text: seq<int>, end: int, keys: seq<int>)
    requires forall i :: 0 <= i < |text| ==> ' ' as int <= text[i] <= '~' as int
    requires |text| < 1024 && (end == '\n' as int || end == '\r' as int) && keys == text + [end]
    ensures Ending(keys) == Line && TypedLine(keys) == text
  {
    EndingIs(keys, |text|);
    assert keys[..|text|] == text;
    KeysAreTyped([], text);
    assert [] + text == text;
    PrintableBytes(text);
  }

  lemma PrintableBytes(text: seq<int>)
    requires forall i :: 0 <= i < |text| ==> ' ' as int <= text[i] <= '~' as int
    ensures Bytes(text) == text
  {
    assert forall i :: 0 <= i < |text| ==> ToChar(text[i]) == text[i];
  }

  /** One round of the loop of `monitor`: the command run, and its arguments, are
      those of the line that the keys typed. Nothing is run on a read error. */
  method Round(screen: Screen, buf: array<schar>, keys: seq<int>)
    returns (r: Outcome, a: Monitor.Action, argv: array<Monitor.Pointer>)
    requires screen.Valid() && (buf as object) != screen.buf && buf.Length == BUFLEN
    requires forall i :: 0 <= i < |keys| ==> keys[i] < 256
    modifies screen, screen.buf, buf
    ensures screen.Valid() && r == Ending(keys)
    ensures a == if r == Line then Monitor.ActionOf(TypedLine(keys)) else Monitor.Nothing
    ensures a.Run? || a.Unknown? ==> Monitor.Arguments(buf[..], argv[..], TypedLine(keys))
    ensures var t := Type(Type(old(screen.term), Codes("K> ")), EchoAll([], Edited(keys)));
            && (r == Waiting ==> screen.term == t)
            && (r == Line ==> screen.term == Type(t, ['\n' as int]))
  {
    ghost var t := screen.term;
    assert MONITOR_PROMPT == [75, 62, 32];
    r := Readline.Readline(screen, buf, Prompt(MONITOR_PROMPT), keys);
    a, argv := Monitor.Nothing, new Monitor.Pointer[0];
    if r == Line {
      ghost var line := TypedLine(keys);
      TypedLineIsText(t, keys);
      assert Monitor.Cut(line, 0) == line;
      a, argv := Monitor.Runcmd(buf, line);
    }
  }
}
