/** Model of the stream readers of gradelib.py: `GDBClient.handle_read` and the
    output handler of `call_on_line`. */
module Gradelib {
  import opened Framing

  // ---------------------------------------------------------------------------
  // Packets: \$([^#]*)#[0-9a-zA-Z]{2}
  // ---------------------------------------------------------------------------

  predicate IsAlnum(c: char)
  {
    '0' <= c <= '9' || 'a' <= c <= 'z' || 'A' <= c <= 'Z'
  }

  /** Position of the first `c` from `i` on, or the length. */
  function IndexOf(b: string, c: char, i: nat): (k: nat)
    requires i <= |b|
    ensures i <= k <= |b|
    ensures k < |b| ==> b[k] == c
    ensures forall j :: i <= j < k ==> b[j] != c
    decreases |b| - i
  {
    if i < |b| && b[i] != c then IndexOf(b, c, i + 1) else i
  }

  /** The end of the match that starts at `p`, if there is one. The group cannot
      contain '#', so it ends at the first one. */
  function MatchAt(b: string, p: nat): Option<nat>
    requires p < |b|
  {
    if b[p] != '$' then None
    else
      var h := IndexOf(b, '#', p + 1);
      if h + 2 < |b| && IsAlnum(b[h + 1]) && IsAlnum(b[h + 2]) then Some(h + 3) else None
  }

  /** The leftmost match from `p` on: its start and its end. */
  function Search(b: string, p: nat): (m: Option<(nat, nat)>)
    requires p <= |b|
    ensures m.Some? ==> p <= m.value.0 < |b| && MatchAt(b, m.value.0) == Some(m.value.1)
                        && m.value.0 + 4 <= m.value.1 <= |b|
    ensures forall q :: p <= q < (if m.Some? then m.value.0 else |b|) ==> MatchAt(b, q) == None
    decreases |b| - p
  {
    if p == |b| then None
    else match MatchAt(b, p)
      case Some(e) => Some((p, e))
      case None => Search(b, p + 1)
  }

  /** The first packet of a buffer, without '$' and checksum. */
  function NextPacket(b: string): Option<(string, nat)>
  {
    match Search(b, 0)
    case None => None
    case Some((p, e)) => Some((b[p + 1..e - 3], e))
  }

  /** At `p`, the buffer holds '$', the packet, '#' and two letters or digits; a packet
      holds no '#'. */
  ghost predicate PacketAt(b: string, p: nat, packet: string)
  {
    && p + |packet| + 4 <= |b|
    && b[p] == '$' && b[p + 1..p + 1 + |packet|] == packet && '#' !in packet
    && b[p + 1 + |packet|] == '#'
    && (forall i :: p + |packet| + 2 <= i < p + |packet| + 4 ==>
          '0' <= b[i] <= '9' || 'a' <= b[i] <= 'z' || 'A' <= b[i] <= 'Z')
  }

  lemma PacketMatches(b: string, p: nat, packet: string)
    requires PacketAt(b, p, packet)
    ensures MatchAt(b, p) == Some(p + |packet| + 4)
  {
    var h := IndexOf(b, '#', p + 1);
    var end := p + 1 + |packet|;
    forall j | p < j < end
      ensures b[j] != '#'
    {
      assert packet[j - p - 1] == b[j];
    }
    assert h == end;
  }

  lemma MatchIsPacket(b: string, p: nat)
    requires p < |b| && MatchAt(b, p).Some?
    ensures var e := MatchAt(b, p).value;
            p + 4 <= e <= |b| && PacketAt(b, p, b[p + 1..e - 3])
  {
    var h := IndexOf(b, '#', p + 1);
    var packet := b[p + 1..h];
    forall i | 0 <= i < |packet|
      ensures packet[i] != '#'
    {
      assert packet[i] == b[p + 1 + i];
    }
  }

  /** The first packet of a buffer is the leftmost one, and the buffer is consumed up
      to the end of its checksum. */
  lemma NextPacketIs(b: string, p: nat, packet: string)
    requires PacketAt(b, p, packet)
    requires forall q: nat, other {:trigger PacketAt(b, q, other)} :: q < p ==> !PacketAt(b, q, other)
    ensures NextPacket(b) == Some((packet, p + |packet| + 4))
  {
    PacketMatches(b, p, packet);
    var m := Search(b, 0);
    assert m.Some? && m.value.0 <= p;
    MatchIsPacket(b, m.value.0);
  }

  lemma NoPacketIs(b: string)
    ensures NextPacket(b) == None <==> forall q: nat, other {:trigger PacketAt(b, q, other)} :: !PacketAt(b, q, other)
  {
    var m := Search(b, 0);
    if m.Some? {
      MatchIsPacket(b, m.value.0);
    } else {
      forall q: nat, other
        ensures !PacketAt(b, q, other)
      {
        if PacketAt(b, q, other) {
          PacketMatches(b, q, other);
        }
      }
    }
  }

  predicate IsBreakpoint(packet: string)
  {
    "T05" <= packet
  }

  lemma {:induction false} IndexOfStable(b: string, d: string, c: char, i: nat)
    requires i <= |b| && IndexOf(b, c, i) < |b|
    ensures IndexOf(b + d, c, i) == IndexOf(b, c, i)
    decreases |b| - i
  {
    if b[i] != c {
      IndexOfStable(b, d, c, i + 1);
    }
  }

  /** Left of a match, more input changes nothing: a first '#' is there already, and
      so are the two characters after it. */
  lemma MatchAtStable(b: string, d: string, q: nat, p: nat)
    requires q <= p < |b| && MatchAt(b, p).Some?
    ensures MatchAt(b + d, q) == MatchAt(b, q)
  {
    var h := IndexOf(b, '#', p + 1);
    assert b[h] == '#';
    var g := IndexOf(b, '#', q + 1);
    assert g <= h;
    IndexOfStable(b, d, '#', q + 1);
  }

  lemma {:induction false} SearchStable(b: string, d: string, q: nat, p: nat, e: nat)
    requires q <= |b| && Search(b, q) == Some((p, e))
    ensures Search(b + d, q) == Some((p, e))
    decreases |b| - q
  {
    MatchAtStable(b, d, q, p);
    if q < p {
      SearchStable(b, d, q + 1, p, e);
    }
  }

  lemma PacketsAreFrames()
    ensures Framer(NextPacket)
  {
    forall b, d | NextPacket(b).Some?
      ensures NextPacket(b + d) == NextPacket(b)
    {
      var (p, e) := Search(b, 0).value;
      SearchStable(b, d, 0, p, e);
      assert (b + d)[p + 1..e - 3] == b[p + 1..e - 3];
    }
  }

  /** A buffer that starts with a packet: reading stops after the packet if it starts
      with "T05", and otherwise goes on. */
  lemma FirstPacket(b: string, packet: string, rest: string)
    requires '#' !in packet && b == "$" + packet + "#b5" + rest
    ensures Packets(b) ==
            if |packet| >= 3 && packet[..3] == "T05" then Read([packet], rest, true)
            else Packets(rest).After([packet])
  {
    assert b[1..1 + |packet|] == packet;
    assert PacketAt(b, 0, packet);
    NextPacketIs(b, 0, packet);
    PacketsStep(b, NextPacket(b));
    assert "T05" <= packet <==> |packet| >= 3 && packet[..3] == "T05";
    assert b[|packet| + 4..] == rest;
  }

  /** The packets of a buffer up to the first breakpoint. */
  ghost function Packets(b: string): Read<char, string>
  {
    PacketsAreFrames();
    Consume(NextPacket, IsBreakpoint, b)
  }

  ghost function PacketsOfChunks(b: string, chunks: seq<string>): Read<char, string>
  {
    PacketsAreFrames();
    ConsumeChunks(NextPacket, IsBreakpoint, b, chunks)
  }

  lemma PacketsStep(b: string, m: Option<(string, nat)>)
    requires m == NextPacket(b)
    ensures m.None? ==> Packets(b) == Read([], b, false)
    ensures m.Some? ==>
              var packet, n := m.value.0, m.value.1;
              0 < n <= |b| &&
              Packets(b) ==
              if IsBreakpoint(packet) then Read([packet], b[n..], true) else Packets(b[n..]).After([packet])
  {
    PacketsAreFrames();
    ConsumeStep(NextPacket, IsBreakpoint, b, m);
  }

  lemma PacketChunksStep(b: string, chunks: seq<string>)
    requires chunks != []
    ensures var r := Packets(b + chunks[0]);
            PacketsOfChunks(b, chunks) == if r.stopped then r else PacketsOfChunks(r.rest, chunks[1..]).After(r.frames)
  {
    PacketsAreFrames();
  }

  /** For every cut of a stream into chunks, the packets examined up to the first
      breakpoint are those of the whole stream. */
  lemma PacketsIgnoreChunks(chunks: seq<string>)
    ensures var r := PacketsOfChunks("", chunks);
            var whole := Packets(Concat(chunks));
            r.frames == whole.frames && r.stopped == whole.stopped && (!r.stopped ==> r.rest == whole.rest)
  {
    PacketsAreFrames();
    ChunkingDoesNotMatter(NextPacket, IsBreakpoint, "", chunks);
    assert "" + Concat(chunks) == Concat(chunks);
  }

  // ---------------------------------------------------------------------------
  // GDBClient.handle_read
  // ---------------------------------------------------------------------------

  /** `buf` is `__buf`; `open` is false once the socket was closed. `examined` are the
      packets that the loop has looked at. */
  class GdbClient {
    var buf: string
    var open: bool
    ghost var examined: seq<string>

    constructor ()
      ensures buf == "" && open && examined == []
    {
      buf, open, examined := "", true, [];
    }

    /** `handle_read()`, when the socket delivers `data`; an empty delivery is the end
        of the stream. `raised` says that TerminateTest was raised. */
    method HandleRead(data: string) returns (raised: bool)
      requires open
      modifies this
      ensures data == "" ==> !open && !raised && buf == old(buf) && examined == old(examined)
      ensures data != "" ==>
                var r := Packets(old(buf) + data);
                open && raised == r.stopped && buf == r.rest && examined == old(examined) + r.frames
    {
      if data == "" {
        open := false;
        return false;
      }
      buf := buf + data;
      ghost var r := Packets(buf).After(examined);
      while true
        invariant open && Packets(buf).After(examined) == r
        decreases |buf|
      {
        var m := NextPacket(buf);
        PacketsStep(buf, m);
        if m.None? {
          return false;
        }
        var (packet, end) := m.value;
        AfterAfter(Packets(buf[end..]), examined, [packet]);
        examined := examined + [packet];
        buf := buf[end..];
        if IsBreakpoint(packet) {
          return true;
        }
      }
    }
  }

  /** Deliveries one after the other, until TerminateTest is raised. */
  method ReadPackets(client: GdbClient, chunks: seq<string>) returns (raised: bool)
    requires client.open && client.buf == "" && client.examined == []
    requires forall i :: 0 <= i < |chunks| ==> chunks[i] != ""
    modifies client
    ensures var whole := Packets(Concat(chunks));
            client.examined == whole.frames && raised == whole.stopped
  {
    PacketsIgnoreChunks(chunks);
    ghost var all := PacketsOfChunks("", chunks);
    var i := 0;
    while i < |chunks|
      invariant 0 <= i <= |chunks| && client.open
      invariant PacketsOfChunks(client.buf, chunks[i..]).After(client.examined) == all
    {
      assert chunks[i..][0] == chunks[i] && chunks[i..][1..] == chunks[i + 1..];
      PacketChunksStep(client.buf, chunks[i..]);
      ghost var r := Packets(client.buf + chunks[i]);
      AfterAfter(PacketsOfChunks(r.rest, chunks[i + 1..]), client.examined, r.frames);
      raised := client.HandleRead(chunks[i]);
      if raised {
        return;
      }
      i := i + 1;
    }
    raised := false;
  }

  // ---------------------------------------------------------------------------
  // call_on_line
  // ---------------------------------------------------------------------------

  /** The first line of a buffer, without its newline. */
  function NextLine(b: string): Option<(string, nat)>
  {
    var k := IndexOf(b, '\n', 0);
    if k < |b| then Some((b[..k], k + 1)) else None
  }

  lemma LinesAreFrames()
    ensures Framer(NextLine)
  {
    forall b, d | NextLine(b).Some?
      ensures NextLine(b + d) == NextLine(b)
    {
      IndexOfStable(b, d, '\n', 0);
      var k := IndexOf(b, '\n', 0);
      assert (b + d)[..k] == b[..k];
    }
  }

  /** The lines of a buffer up to the first that stops. */
  ghost function Lines(stop: string -> bool, b: string): Read<char, string>
  {
    LinesAreFrames();
    Consume(NextLine, stop, b)
  }

  ghost function LinesOfChunks(stop: string -> bool, b: string, chunks: seq<string>): Read<char, string>
  {
    LinesAreFrames();
    ConsumeChunks(NextLine, stop, b, chunks)
  }

  lemma LinesNext(stop: string -> bool, b: string, m: Option<(string, nat)>)
    requires m == NextLine(b)
    ensures m.None? ==> Lines(stop, b) == Read([], b, false)
    ensures m.Some? ==>
              var line, n := m.value.0, m.value.1;
              0 < n <= |b| &&
              Lines(stop, b) == if stop(line) then Read([line], b[n..], true) else Lines(stop, b[n..]).After([line])
  {
    LinesAreFrames();
    ConsumeStep(NextLine, stop, b, m);
  }

  lemma LinesStep(stop: string -> bool, b: string, k: nat)
    requires k == IndexOf(b, '\n', 0)
    ensures k == |b| ==> Lines(stop, b) == Read([], b, false)
    ensures k < |b| ==>
              Lines(stop, b) ==
              if stop(b[..k]) then Read([b[..k]], b[k + 1..], true) else Lines(stop, b[k + 1..]).After([b[..k]])
  {
    if k < |b| {
      LinesNext(stop, b, Some((b[..k], k + 1)));
    } else {
      LinesNext(stop, b, None);
    }
  }

  /** The lines, each with its newline. */
  function Joined(lines: seq<string>): string
  {
    if lines == [] then "" else lines[0] + "\n" + Joined(lines[1..])
  }

  /** What was read of a buffer: the lines examined, each with its newline, and what is
      left are the buffer; only the last line can stop, and otherwise no newline is
      left. */
  ghost predicate IsSplit(stop: string -> bool, b: string, r: Read<char, string>)
  {
    && b == Joined(r.frames) + r.rest
    && (forall i :: 0 <= i < |r.frames| ==> '\n' !in r.frames[i])
    && (forall i :: 0 <= i < |r.frames| - 1 ==> !stop(r.frames[i]))
    && (r.stopped ==> |r.frames| > 0 && stop(r.frames[|r.frames| - 1]))
    && (!r.stopped ==> '\n' !in r.rest && (|r.frames| > 0 ==> !stop(r.frames[|r.frames| - 1])))
  }

  lemma JoinedFirst(line: string, lines: seq<string>, all: seq<string>, b: string, rest: string, left: string)
    requires all == [line] + lines && b == line + "\n" + rest && rest == Joined(lines) + left
    ensures b == Joined(all) + left
  {
    assert all[1..] == lines;
    assert line + "\n" + (Joined(lines) + left) == line + "\n" + Joined(lines) + left;
  }

  lemma FirstLineSplits(stop: string -> bool, line: string, rest: string, b: string, later: Read<char, string>)
    requires b == line + "\n" + rest && '\n' !in line && !stop(line) && IsSplit(stop, rest, later)
    ensures IsSplit(stop, b, later.After([line]))
  {
    JoinedFirst(line, later.frames, [line] + later.frames, b, rest, later.rest);
  }

  lemma StopSplits(stop: string -> bool, line: string, rest: string, b: string)
    requires b == line + "\n" + rest && '\n' !in line && stop(line)
    ensures IsSplit(stop, b, Read([line], rest, true))
  {
    assert "" + rest == rest;
    JoinedFirst(line, [], [line], b, rest, rest);
  }

  /** The lines of a buffer are what they should be, on every buffer. */
  lemma {:induction false} LinesAreSplit(stop: string -> bool, b: string, r: Read<char, string>)
    requires r == Lines(stop, b)
    ensures IsSplit(stop, b, r)
    decreases |b|
  {
    var k := IndexOf(b, '\n', 0);
    LinesStep(stop, b, k);
    if k == |b| {
      assert Joined([]) + b == b;
    } else {
      var line, rest := b[..k], b[k + 1..];
      assert b == line + "\n" + rest;
      if stop(line) {
        StopSplits(stop, line, rest, b);
      } else {
        var later := Lines(stop, rest);
        LinesAreSplit(stop, rest, later);
        FirstLineSplits(stop, line, rest, b, later);
      }
    }
  }

  lemma LineChunksStep(stop: string -> bool, b: string, chunks: seq<string>)
    requires chunks != []
    ensures var r := Lines(stop, b + chunks[0]);
            LinesOfChunks(stop, b, chunks) ==
            if r.stopped then r else LinesOfChunks(stop, r.rest, chunks[1..]).After(r.frames)
  {
    LinesAreFrames();
  }

  /** For every cut of the output into chunks, the lines examined up to the first one
      on which the callback raises are those of the whole output. */
  lemma LinesIgnoreChunks(stop: string -> bool, chunks: seq<string>)
    ensures var r := LinesOfChunks(stop, "", chunks);
            var whole := Lines(stop, Concat(chunks));
            r.frames == whole.frames && r.stopped == whole.stopped && (!r.stopped ==> r.rest == whole.rest)
  {
    LinesAreFrames();
    ChunkingDoesNotMatter(NextLine, stop, "", chunks);
    assert "" + Concat(chunks) == Concat(chunks);
  }

  /** The lines that match, in order. */
  function Matching(lines: seq<string>, matches: string -> bool): seq<string>
  {
    if lines == [] then []
    else (if matches(lines[0]) then [lines[0]] else []) + Matching(lines[1..], matches)
  }

  lemma {:induction false} MatchingAppend(lines: seq<string>, line: string, matches: string -> bool)
    ensures Matching(lines + [line], matches) == Matching(lines, matches) + if matches(line) then [line] else []
  {
    if lines != [] {
      assert (lines + [line])[1..] == lines[1..] + [line];
      MatchingAppend(lines[1..], line, matches);
    }
  }

  /** The handler of `call_on_line(regexp, callback)`: `matches` stands for the
      regular expression, on the decoded line, and `raises` for the lines on which
      the callback raises. `called` are the lines passed to the callback, `examined`
      those looked at. */
  class LineMonitor {
    var buf: string
    const matches: string -> bool
    const raises: string -> bool
    ghost var examined: seq<string>
    var called: seq<string>

    constructor (m: string -> bool, r: string -> bool)
      ensures buf == "" && examined == called == [] && matches == m && raises == r
    {
      buf, examined, called, matches, raises := "", [], [], m, r;
    }

    ghost predicate Valid()
      reads this
    {
      called == Matching(examined, matches)
    }

    /** The lines that end the run. */
    function Stop(): string -> bool
    {
      line => matches(line) && raises(line)
    }

    /** `handle_output(output)`. */
    method HandleOutput(output: string) returns (raised: bool)
      requires Valid()
      modifies this
      ensures Valid()
      ensures var r := Lines(Stop(), old(buf) + output);
              raised == r.stopped && buf == r.rest && examined == old(examined) + r.frames
    {
      buf := buf + output;
      ghost var stop := Stop();
      ghost var r := Lines(stop, buf).After(examined);
      while '\n' in buf
        invariant Valid() && Lines(stop, buf).After(examined) == r
        decreases |buf|
      {
        var k := IndexOf(buf, '\n', 0);
        LinesStep(stop, buf, k);
        var line := buf[..k];
        MatchingAppend(examined, line, matches);
        AfterAfter(Lines(stop, buf[k + 1..]), examined, [line]);
        examined := examined + [line];
        buf := buf[k + 1..];
        if matches(line) {
          called := called + [line];
          if raises(line) {
            return true;
          }
        }
      }
      LinesStep(stop, buf, IndexOf(buf, '\n', 0));
      raised := false;
    }
  }

  /** Chunks of output one after the other, until the callback raises. */
  method ReadLines(monitor: LineMonitor, chunks: seq<string>) returns (raised: bool)
    requires monitor.Valid() && monitor.buf == "" && monitor.examined == []
    modifies monitor
    ensures var whole := Lines(monitor.Stop(), Concat(chunks));
            monitor.called == Matching(whole.frames, monitor.matches) && raised == whole.stopped
  {
    ghost var stop := monitor.Stop();
    LinesIgnoreChunks(stop, chunks);
    ghost var all := LinesOfChunks(stop, "", chunks);
    var i := 0;
    while i < |chunks|
      invariant 0 <= i <= |chunks| && monitor.Valid()
      invariant LinesOfChunks(stop, monitor.buf, chunks[i..]).After(monitor.examined) == all
    {
      assert chunks[i..][0] == chunks[i] && chunks[i..][1..] == chunks[i + 1..];
      LineChunksStep(stop, monitor.buf, chunks[i..]);
      ghost var r := Lines(stop, monitor.buf + chunks[i]);
      AfterAfter(LinesOfChunks(stop, r.rest, chunks[i + 1..]), monitor.examined, r.frames);
      raised := monitor.HandleOutput(chunks[i]);
      if raised {
        assert monitor.examined == all.frames;
        return;
      }
      i := i + 1;
    }
    assert monitor.examined == all.frames;
    raised := false;
  }
}
