/** Model of the console input buffer (kern/console.c): `cons_intr` and
    `cons_getc`. */
module ConsoleInput {
  import opened CString

  const CONSBUFSIZE := 512

  // ---------------------------------------------------------------------------
  // The abstract queue
  // ---------------------------------------------------------------------------

  /** One byte from a device: zero is dropped; the byte that would make 512 pending
      empties the queue. */
  function Enqueue(q: seq<byte>, c: byte): seq<byte>
  {
    if c == 0 then q else if |q| < CONSBUFSIZE - 1 then q + [c] else []
  }

  function EnqueueAll(q: seq<byte>, input: seq<byte>): (r: seq<byte>)
    requires |q| < CONSBUFSIZE
    ensures |r| < CONSBUFSIZE
    decreases |input|
  {
    if input == [] then q else EnqueueAll(Enqueue(q, input[0]), input[1..])
  }

  /** An interrupt that delivers some bytes, or a read. A read first polls the
      serial port and the keyboard. */
  datatype Event = Interrupt(input: seq<byte>) | Getc(serial: seq<byte>, keys: seq<byte>)
  {
    function Input(): seq<byte>
    {
      if Interrupt? then input else serial + keys
    }
  }

  /** The queue and all bytes that reads have returned. */
  datatype State = State(queue: seq<byte>, got: seq<byte>)

  function StepEvent(s: State, e: Event): (t: State)
    requires |s.queue| < CONSBUFSIZE
    ensures |t.queue| < CONSBUFSIZE
  {
    var q := EnqueueAll(s.queue, e.Input());
    if e.Getc? && q != [] then State(q[1..], s.got + [q[0]]) else State(q, s.got)
  }

  function Run(s: State, events: seq<Event>): (t: State)
    requires |s.queue| < CONSBUFSIZE
    ensures |t.queue| < CONSBUFSIZE
    decreases |events|
  {
    if events == [] then s else Run(StepEvent(s, events[0]), events[1..])
  }

  // ---------------------------------------------------------------------------
  // First in, first out
  // ---------------------------------------------------------------------------

  function Nonzero(input: seq<byte>): seq<byte>
  {
    if input == [] then []
    else if input[0] == 0 then Nonzero(input[1..])
    else [input[0]] + Nonzero(input[1..])
  }

  /** All nonzero bytes that the devices have delivered. */
  function Delivered(events: seq<Event>): seq<byte>
  {
    if events == [] then [] else Nonzero(events[0].Input()) + Delivered(events[1..])
  }

  /** Some byte of the input arrives when 511 are pending. */
  predicate InputOverruns(q: seq<byte>, input: seq<byte>)
    requires |q| < CONSBUFSIZE
    decreases |input|
  {
    input != [] && ((input[0] != 0 && |q| == CONSBUFSIZE - 1) || InputOverruns(Enqueue(q, input[0]), input[1..]))
  }

  predicate Overruns(s: State, events: seq<Event>)
    requires |s.queue| < CONSBUFSIZE
    decreases |events|
  {
    events != [] && (InputOverruns(s.queue, events[0].Input()) || Overruns(StepEvent(s, events[0]), events[1..]))
  }

  /** Without an overrun the input is appended; an overrun loses bytes. */
  lemma {:induction false} InputAppended(q: seq<byte>, input: seq<byte>)
    requires |q| < CONSBUFSIZE
    ensures !InputOverruns(q, input) ==> EnqueueAll(q, input) == q + Nonzero(input)
    ensures InputOverruns(q, input) ==> |EnqueueAll(q, input)| < |q| + |Nonzero(input)|
    ensures |EnqueueAll(q, input)| <= |q| + |Nonzero(input)|
    decreases |input|
  {
    if input == [] {
      assert q + [] == q;
    } else {
      var r := Enqueue(q, input[0]);
      InputAppended(r, input[1..]);
      if input[0] != 0 && |q| < CONSBUFSIZE - 1 {
        assert r + Nonzero(input[1..]) == q + ([input[0]] + Nonzero(input[1..]));
      }
    }
  }

  /** From `s` to `t`, the bytes `d` were delivered: none is lost, or some are. */
  ghost predicate Accounts(s: State, d: seq<byte>, lossy: bool, t: State)
  {
    if lossy then |t.got| + |t.queue| < |s.got| + |s.queue| + |d|
    else t.got + t.queue == s.got + s.queue + d
  }

  lemma AccountsChain(s: State, d: seq<byte>, l: bool, t: State, e: seq<byte>, m: bool, u: State)
    requires Accounts(s, d, l, t) && Accounts(t, e, m, u)
    ensures Accounts(s, d + e, l || m, u)
  {
  }

  /** A read moves a byte from the queue to the bytes read. */
  lemma StepAccounts(s: State, e: Event)
    requires |s.queue| < CONSBUFSIZE
    ensures Accounts(s, Nonzero(e.Input()), InputOverruns(s.queue, e.Input()), StepEvent(s, e))
  {
    InputAppended(s.queue, e.Input());
    var t := StepEvent(s, e);
    var q := EnqueueAll(s.queue, e.Input());
    assert t.got + t.queue == s.got + q;
    assert s.got + (s.queue + Nonzero(e.Input())) == s.got + s.queue + Nonzero(e.Input());
  }

  lemma {:induction false} RunAccounts(s: State, events: seq<Event>)
    requires |s.queue| < CONSBUFSIZE
    ensures Accounts(s, Delivered(events), Overruns(s, events), Run(s, events))
    decreases |events|
  {
    if events != [] {
      var u := StepEvent(s, events[0]);
      StepAccounts(s, events[0]);
      RunAccounts(u, events[1..]);
      AccountsChain(s, Nonzero(events[0].Input()), InputOverruns(s.queue, events[0].Input()), u,
                    Delivered(events[1..]), Overruns(u, events[1..]), Run(u, events[1..]));
    }
  }

  /** For every run from an empty buffer, with any interleaving of interrupts and
      reads: the bytes read, followed by those pending, are exactly the nonzero
      bytes delivered, in order, iff no byte ever arrived when 511 were pending. */
  lemma LosslessIffNoOverrun(events: seq<Event>)
    ensures var t := Run(State([], []), events);
            t.got + t.queue == Delivered(events) <==> !Overruns(State([], []), events)
  {
    RunAccounts(State([], []), events);
    var t := Run(State([], []), events);
    assert [] + [] + Delivered(events) == Delivered(events);
    assert |t.got + t.queue| == |t.got| + |t.queue|;
  }

  /** Zero is never queued, so a read that returns 0 found the buffer empty. */
  lemma {:induction false} ZeroNeverQueued(s: State, events: seq<Event>)
    requires |s.queue| < CONSBUFSIZE && 0 !in s.queue && 0 !in s.got
    ensures 0 !in Run(s, events).queue && 0 !in Run(s, events).got
    decreases |events|
  {
    if events != [] {
      ZeroNotEnqueued(s.queue, events[0].Input());
      ZeroNeverQueued(StepEvent(s, events[0]), events[1..]);
    }
  }

  lemma {:induction false} ZeroNotEnqueued(q: seq<byte>, input: seq<byte>)
    requires |q| < CONSBUFSIZE && 0 !in q
    ensures 0 !in EnqueueAll(q, input)
    decreases |input|
  {
    if input != [] {
      ZeroNotEnqueued(Enqueue(q, input[0]), input[1..]);
    }
  }

  // ---------------------------------------------------------------------------
  // What an overrun loses
  // ---------------------------------------------------------------------------

  /** Batches of 512 bytes, by the position of the last byte of each. */
  datatype Batches = None | Batch(earlier: Batches, last: nat)
  {
    function Count(): nat
    {
      if None? then 0 else 1 + earlier.Count()
    }

    /** They lie apart in the first `n` positions. */
    predicate LieIn(n: int)
    {
      Batch? ==> CONSBUFSIZE - 1 <= last < n && earlier.LieIn(last - 511)
    }
  }

  /** Counters of a run: how many bytes are pending, how many were delivered, and
      which of the delivered bytes arrived when 511 were pending. */
  datatype Tally = Tally(pending: nat, delivered: nat, lost: Batches)

  function TallyByte(t: Tally, c: byte): Tally
  {
    if c == 0 then t
    else if t.pending < CONSBUFSIZE - 1 then Tally(t.pending + 1, t.delivered + 1, t.lost)
    else Tally(0, t.delivered + 1, Batch(t.lost, t.delivered))
  }

  function TallyInput(t: Tally, input: seq<byte>): Tally
    decreases |input|
  {
    if input == [] then t else TallyInput(TallyByte(t, input[0]), input[1..])
  }

  function TallyEvent(t: Tally, e: Event): Tally
  {
    var u := TallyInput(t, e.Input());
    if e.Getc? && u.pending > 0 then u.(pending := u.pending - 1) else u
  }

  function TallyRun(t: Tally, events: seq<Event>): Tally
    decreases |events|
  {
    if events == [] then t else TallyRun(TallyEvent(t, events[0]), events[1..])
  }

  /** The first `n` bytes without those batches. */
  function WithoutBatches(d: seq<byte>, lost: Batches, n: nat): seq<byte>
    requires n <= |d| && lost.LieIn(n)
    decreases lost
  {
    if lost.None? then d[..n] else WithoutBatches(d, lost.earlier, lost.last - 511) + d[lost.last + 1..n]
  }

  lemma {:induction false} WithoutBatchesLength(d: seq<byte>, lost: Batches, n: nat)
    requires n <= |d| && lost.LieIn(n)
    ensures |WithoutBatches(d, lost, n)| + CONSBUFSIZE * lost.Count() == n
    decreases lost
  {
    if lost.Batch? {
      WithoutBatchesLength(d, lost.earlier, lost.last - 511);
    }
  }

  lemma SliceAppend(d: seq<byte>, i: nat, n: nat, m: nat, before: seq<byte>)
    requires i <= n <= m <= |d|
    ensures before + d[i..m] == before + d[i..n] + d[n..m]
  {
  }

  /** Bytes after the last batch stay. */
  lemma WithoutBatchesTail(d: seq<byte>, lost: Batches, n: nat, m: nat)
    requires n <= m <= |d| && lost.LieIn(n)
    ensures lost.LieIn(m) && WithoutBatches(d, lost, m) == WithoutBatches(d, lost, n) + d[n..m]
  {
    if lost.Batch? {
      SliceAppend(d, lost.last + 1, n, m, WithoutBatches(d, lost.earlier, lost.last - 511));
    } else {
      assert d[..m] == d[..n] + d[n..m];
    }
  }

  /** The bytes `xs` are in `d` from `pos` on. */
  ghost predicate NextAre(d: seq<byte>, pos: nat, xs: seq<byte>)
  {
    pos + |xs| <= |d| && forall k :: 0 <= k < |xs| ==> d[pos + k] == xs[k]
  }

  lemma NextSplit(d: seq<byte>, pos: nat, xs: seq<byte>, ys: seq<byte>, all: seq<byte>)
    requires all == xs + ys && NextAre(d, pos, all)
    ensures NextAre(d, pos, xs) && NextAre(d, pos + |xs|, ys)
  {
    assert forall k :: 0 <= k < |xs| ==> xs[k] == all[k];
    assert forall k :: 0 <= k < |ys| ==> ys[k] == all[|xs| + k];
  }

  /** Of the bytes `d` that a run delivers: those pending are the last ones delivered
      so far; those read are the ones before them, without the batches lost. */
  ghost predicate Tallied(s: State, t: Tally, d: seq<byte>)
  {
    && t.pending == |s.queue| < CONSBUFSIZE && |s.queue| <= t.delivered <= |d|
    && NextAre(d, t.delivered - |s.queue|, s.queue)
    && t.lost.LieIn(t.delivered - |s.queue|)
    && s.got == WithoutBatches(d, t.lost, t.delivered - |s.queue|)
  }

  lemma NextFirst(d: seq<byte>, pos: nat, c: byte, rest: seq<byte>, all: seq<byte>)
    requires all == [c] + rest && NextAre(d, pos, all)
    ensures pos < |d| && d[pos] == c && NextAre(d, pos + 1, rest)
  {
    NextSplit(d, pos, [c], rest, all);
    assert d[pos + 0] == [c][0];
  }

  lemma NextByte(d: seq<byte>, pos: nat, input: seq<byte>)
    requires input != [] && NextAre(d, pos, Nonzero(input))
    ensures input[0] == 0 ==> NextAre(d, pos, Nonzero(input[1..]))
    ensures input[0] != 0 ==>
              pos < |d| && d[pos] == input[0] && NextAre(d, pos + 1, Nonzero(input[1..]))
  {
    if input[0] != 0 {
      NextFirst(d, pos, input[0], Nonzero(input[1..]), Nonzero(input));
    }
  }

  lemma TalliedByte(s: State, t: Tally, d: seq<byte>, c: byte)
    requires Tallied(s, t, d) && c != 0 && t.delivered < |d| && d[t.delivered] == c
    ensures Tallied(State(Enqueue(s.queue, c), s.got), TallyByte(t, c), d)
  {
    assert d[t.delivered + 1..t.delivered + 1] == [];
  }

  lemma {:induction false} TalliedInput(s: State, t: Tally, d: seq<byte>, pos: nat, input: seq<byte>,
                                        v: State, w: Tally)
    requires Tallied(s, t, d) && pos == t.delivered && NextAre(d, pos, Nonzero(input))
    requires v == State(EnqueueAll(s.queue, input), s.got) && w == TallyInput(t, input)
    ensures Tallied(v, w, d) && w.delivered == pos + |Nonzero(input)|
    decreases |input|
  {
    if input == [] {
      assert v == s;
    } else {
      var c, more := input[0], input[1..];
      NextByte(d, pos, input);
      if c == 0 {
        TalliedInput(s, t, d, pos, more, v, w);
      } else {
        var u, x := State(Enqueue(s.queue, c), s.got), TallyByte(t, c);
        TalliedByte(s, t, d, c);
        TalliedInput(u, x, d, pos + 1, more, v, w);
      }
    }
  }

  /** A read takes the oldest pending byte. */
  lemma TalliedRead(s: State, t: Tally, d: seq<byte>)
    requires Tallied(s, t, d) && s.queue != []
    ensures Tallied(State(s.queue[1..], s.got + [s.queue[0]]), t.(pending := t.pending - 1), d)
  {
    var n := t.delivered - |s.queue|;
    WithoutBatchesTail(d, t.lost, n, n + 1);
    assert d[n] == d[n + 0] == s.queue[0];
    assert d[n..n + 1] == [s.queue[0]];
    assert forall k :: 0 <= k < |s.queue| - 1 ==> s.queue[1..][k] == s.queue[k + 1];
  }

  lemma TalliedEvent(s: State, t: Tally, d: seq<byte>, e: Event, v: State, w: Tally)
    requires Tallied(s, t, d) && NextAre(d, t.delivered, Nonzero(e.Input()))
    requires v == StepEvent(s, e) && w == TallyEvent(t, e)
    ensures Tallied(v, w, d) && w.delivered == t.delivered + |Nonzero(e.Input())|
  {
    var q := EnqueueAll(s.queue, e.Input());
    TalliedInput(s, t, d, t.delivered, e.Input(), State(q, s.got), TallyInput(t, e.Input()));
    if e.Getc? && q != [] {
      TalliedRead(State(q, s.got), TallyInput(t, e.Input()), d);
    }
  }

  /** As `Tallied`, when what is still to be delivered is `rest`. */
  ghost predicate Coming(s: State, t: Tally, d: seq<byte>, rest: seq<byte>)
  {
    Tallied(s, t, d) && NextAre(d, t.delivered, rest) && t.delivered + |rest| == |d|
  }

  lemma ComingNext(s: State, t: Tally, d: seq<byte>, e: Event, now: seq<byte>, next: seq<byte>, all: seq<byte>)
    requires now == Nonzero(e.Input()) && all == now + next && Coming(s, t, d, all)
    ensures Coming(StepEvent(s, e), TallyEvent(t, e), d, next)
  {
    NextSplit(d, t.delivered, now, next, all);
    TalliedEvent(s, t, d, e, StepEvent(s, e), TallyEvent(t, e));
  }

  lemma {:induction false} ComingAll(s: State, t: Tally, d: seq<byte>, events: seq<Event>, v: State, w: Tally)
    requires Coming(s, t, d, Delivered(events)) && v == Run(s, events) && w == TallyRun(t, events)
    ensures Coming(v, w, d, [])
    decreases |events|
  {
    if events == [] {
      assert v == s && w == t && Delivered(events) == [];
    } else {
      var e, more := events[0], events[1..];
      ComingNext(s, t, d, e, Nonzero(e.Input()), Delivered(more), Delivered(events));
      ComingAll(StepEvent(s, e), TallyEvent(t, e), d, more, v, w);
    }
  }

  lemma ComingStart(d: seq<byte>)
    ensures Coming(State([], []), Tally(0, 0, None), d, d)
  {
  }

  lemma TalliedEnd(s: State, t: Tally, d: seq<byte>)
    requires Tallied(s, t, d) && t.delivered == |d|
    ensures t.lost.LieIn(|d|) && s.got + s.queue == WithoutBatches(d, t.lost, |d|)
    ensures |s.queue| == t.pending
  {
    var n := |d| - |s.queue|;
    WithoutBatchesTail(d, t.lost, n, |d|);
    assert d[n..|d|] == s.queue;
  }

  /** For every run from an empty buffer, with any interleaving of interrupts and
      reads: the bytes read, followed by those pending, are the nonzero bytes
      delivered without the 512 that end at each overrun. */
  lemma OverrunsLoseBatches(events: seq<Event>, d: seq<byte>, t: Tally, v: State)
    requires d == Delivered(events)
    requires t == TallyRun(Tally(0, 0, None), events) && v == Run(State([], []), events)
    ensures t.lost.LieIn(|d|) && v.got + v.queue == WithoutBatches(d, t.lost, |d|)
    ensures |v.queue| == t.pending
    ensures |v.got| + |v.queue| + CONSBUFSIZE * t.lost.Count() == |d|
  {
    ComingStart(d);
    ComingAll(State([], []), Tally(0, 0, None), d, events, v, t);
    TalliedEnd(v, t, d);
    WithoutBatchesLength(d, t.lost, |d|);
  }

  // ---------------------------------------------------------------------------
  // The ring buffer
  // ---------------------------------------------------------------------------

  /** The static structure `cons`. */
  class Cons {
    const buf: array<byte>
    var rpos: nat
    var wpos: nat

    ghost predicate Valid()
      reads this
    {
      buf.Length == CONSBUFSIZE && rpos < CONSBUFSIZE && wpos < CONSBUFSIZE
    }

    /** The pending bytes, oldest first. */
    ghost function Pending(): (q: seq<byte>)
      requires Valid()
      reads this, buf
      ensures |q| < CONSBUFSIZE
    {
      if rpos <= wpos then buf[rpos..wpos] else buf[rpos..] + buf[..wpos]
    }

    constructor ()
      ensures Valid() && fresh(buf) && Pending() == []
    {
      buf := new byte[CONSBUFSIZE](_ => 0);
      rpos, wpos := 0, 0;
    }

    /** One round of the loop of `cons_intr`. */
    method Store(c: byte)
      requires Valid()
      modifies this`wpos, buf
      ensures Valid() && Pending() == Enqueue(old(Pending()), c)
    {
      if c == 0 {
        return;
      }
      buf[wpos] := c;
      wpos := wpos + 1;
      if wpos == CONSBUFSIZE {
        wpos := 0;
      }
    }

    /** `cons_intr(proc)`, when `proc` returns the bytes of `input` and then -1. */
    method Intr(input: seq<byte>)
      requires Valid()
      modifies this`wpos, buf
      ensures Valid() && Pending() == EnqueueAll(old(Pending()), input)
    {
      var i := 0;
      while i < |input|
        invariant 0 <= i <= |input| && Valid()
        invariant EnqueueAll(Pending(), input[i..]) == EnqueueAll(old(Pending()), input)
      {
        assert input[i..][0] == input[i] && input[i..][1..] == input[i + 1..];
        Store(input[i]);
        i := i + 1;
      }
    }

    /** `cons_getc()`, when the serial port and the keyboard have these bytes. A
        machine without a serial port delivers none. */
    method Getc(serial: seq<byte>, keys: seq<byte>) returns (c: byte)
      requires Valid()
      modifies this, buf
      ensures Valid()
      ensures var q := EnqueueAll(old(Pending()), serial + keys);
              if q == [] then c == 0 && Pending() == [] else c == q[0] && Pending() == q[1..]
    {
      EnqueueAllConcat(Pending(), serial, keys);
      Intr(serial);
      Intr(keys);
      c := Take();
    }

    /** The last part of `cons_getc`. */
    method Take() returns (c: byte)
      requires Valid()
      modifies this`rpos
      ensures Valid()
      ensures var q := old(Pending());
              if q == [] then c == 0 && Pending() == [] else c == q[0] && Pending() == q[1..]
    {
      if rpos != wpos {
        c := buf[rpos];
        rpos := rpos + 1;
        if rpos == CONSBUFSIZE {
          rpos := 0;
        }
        return c;
      }
      return 0;
    }
  }

  lemma RunNext(s: State, events: seq<Event>, i: nat, end: State)
    requires i < |events| && |s.queue| < CONSBUFSIZE && Run(s, events[i..]) == end
    ensures Run(StepEvent(s, events[i]), events[i + 1..]) == end
  {
    assert events[i..][0] == events[i] && events[i..][1..] == events[i + 1..];
  }

  /** One interrupt or one read; a read adds what it returns, unless that is 0. */
  method ServeEvent(cons: Cons, e: Event, before: seq<byte>) returns (got: seq<byte>)
    requires cons.Valid() && 0 !in cons.Pending()
    modifies cons, cons.buf
    ensures cons.Valid() && 0 !in cons.Pending()
    ensures State(cons.Pending(), got) == StepEvent(State(old(cons.Pending()), before), e)
  {
    ZeroNotEnqueued(cons.Pending(), e.Input());
    got := before;
    match e {
      case Interrupt(input) =>
        cons.Intr(input);
      case Getc(serial, keys) =>
        var c := cons.Getc(serial, keys);
        if c != 0 {
          got := before + [c];
        }
    }
  }

  /** Any interleaving of interrupts and reads, on the ring buffer: it holds what the
      abstract queue holds, and the reads that do not return 0 return what the
      abstract queue gives. */
  method Serve(cons: Cons, events: seq<Event>) returns (got: seq<byte>)
    requires cons.Valid() && 0 !in cons.Pending()
    modifies cons, cons.buf
    ensures cons.Valid()
    ensures State(cons.Pending(), got) == Run(State(old(cons.Pending()), []), events)
  {
    got := [];
    var i := 0;
    ghost var s := State(cons.Pending(), []);
    ghost var end := Run(s, events);
    assert events[0..] == events;
    while i < |events|
      invariant 0 <= i <= |events| && cons.Valid()
      invariant 0 !in cons.Pending() && s == State(cons.Pending(), got)
      invariant Run(s, events[i..]) == end
    {
      RunNext(s, events, i, end);
      s := StepEvent(s, events[i]);
      got := ServeEvent(cons, events[i], got);
      i := i + 1;
    }
  }

  lemma {:induction false} EnqueueAllConcat(q: seq<byte>, input: seq<byte>, more: seq<byte>)
    requires |q| < CONSBUFSIZE
    ensures EnqueueAll(q, input + more) == EnqueueAll(EnqueueAll(q, input), more)
    decreases |input|
  {
    if input == [] {
      assert input + more == more;
    } else {
      assert (input + more)[1..] == input[1..] + more;
      EnqueueAllConcat(Enqueue(q, input[0]), input[1..], more);
    }
  }
}
