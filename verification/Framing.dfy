/** Cutting a stream into frames as its chunks arrive, and why the frames do not
    depend on the chunks. */
module Framing {

  datatype Option<+T> = None | Some(value: T)

  /** What was consumed of a buffer: the frames examined, the part that is left, and
      whether the last frame stopped the consumer. */
  datatype Read<T, F> = Read(frames: seq<F>, rest: seq<T>, stopped: bool)
  {
    function After(before: seq<F>): Read<T, F>
    {
      Read(before + frames, rest, stopped)
    }
  }

  lemma AfterAfter<T, F>(r: Read<T, F>, f: seq<F>, g: seq<F>)
    ensures r.After(g).After(f) == r.After(f + g)
  {
    assert f + (g + r.frames) == f + g + r.frames;
  }

  /** `next` finds the first frame of a buffer and the position after it, and more
      input does not change a frame that was found. */
  ghost predicate Framer<T(!new), F(!new)>(next: seq<T> -> Option<(F, nat)>)
  {
    && (forall b :: next(b).Some? ==> 0 < next(b).value.1 <= |b|)
    && (forall b, c :: next(b).Some? ==> next(b + c) == next(b))
  }

  /** Frames are taken off the buffer until there is none or one stops the
      consumer. */
  ghost function Consume<T(!new), F(!new)>(next: seq<T> -> Option<(F, nat)>, stop: F -> bool, b: seq<T>): Read<T, F>
    requires Framer(next)
    decreases |b|
  {
    match next(b)
    case None => Read([], b, false)
    case Some((f, n)) =>
      if stop(f) then Read([f], b[n..], true)
      else Consume(next, stop, b[n..]).After([f])
  }

  lemma ConsumeStep<T(!new), F(!new)>(next: seq<T> -> Option<(F, nat)>, stop: F -> bool, b: seq<T>, m: Option<(F, nat)>)
    requires Framer(next) && m == next(b)
    ensures m.None? ==> Consume(next, stop, b) == Read([], b, false)
    ensures m.Some? ==>
              var f, n := m.value.0, m.value.1;
              0 < n <= |b| &&
              Consume(next, stop, b) ==
              if stop(f) then Read([f], b[n..], true) else Consume(next, stop, b[n..]).After([f])
  {
  }

  /** The same, chunk by chunk; after a stop no chunk is looked at. */
  ghost function ConsumeChunks<T(!new), F(!new)>(next: seq<T> -> Option<(F, nat)>, stop: F -> bool, b: seq<T>,
                                                chunks: seq<seq<T>>): Read<T, F>
    requires Framer(next)
    decreases |chunks|
  {
    if chunks == [] then Read([], b, false)
    else
      var r := Consume(next, stop, b + chunks[0]);
      if r.stopped then r
      else ConsumeChunks(next, stop, r.rest, chunks[1..]).After(r.frames)
  }

  function Concat<T>(chunks: seq<seq<T>>): seq<T>
  {
    if chunks == [] then [] else chunks[0] + Concat(chunks[1..])
  }

  /** Consuming more input goes on where consuming less input ended. */
  lemma {:induction false} ConsumeMore<T(!new), F(!new)>(next: seq<T> -> Option<(F, nat)>, stop: F -> bool,
                                                         b: seq<T>, c: seq<T>)
    requires Framer(next)
    ensures var r := Consume(next, stop, b);
            Consume(next, stop, b + c) ==
            if r.stopped then Read(r.frames, r.rest + c, true) else Consume(next, stop, r.rest + c).After(r.frames)
    decreases |b|
  {
    match next(b)
    case None =>
      var s := Consume(next, stop, b + c);
      assert [] + s.frames == s.frames;
    case Some((f, n)) =>
      ConsumeOne(next, stop, b, c, f, n);
      if !stop(f) {
        ConsumeMore(next, stop, b[n..], c);
        var r := Consume(next, stop, b[n..]);
        AfterAfter(Consume(next, stop, r.rest + c), [f], r.frames);
      }
  }

  lemma ConsumeOne<T(!new), F(!new)>(next: seq<T> -> Option<(F, nat)>, stop: F -> bool, b: seq<T>, c: seq<T>,
                                       f: F, n: nat)
    requires Framer(next) && next(b) == Some((f, n))
    ensures n <= |b|
    ensures Consume(next, stop, b + c) ==
            if stop(f) then Read([f], b[n..] + c, true) else Consume(next, stop, b[n..] + c).After([f])
  {
    assert next(b + c) == next(b);
    assert (b + c)[n..] == b[n..] + c;
  }

  /** Nothing is left to find in what is left. */
  lemma {:induction false} ConsumeRest<T(!new), F(!new)>(next: seq<T> -> Option<(F, nat)>, stop: F -> bool, b: seq<T>)
    requires Framer(next) && !Consume(next, stop, b).stopped
    ensures next(Consume(next, stop, b).rest) == None
    decreases |b|
  {
    match next(b)
    case None =>
    case Some((f, n)) =>
      ConsumeRest(next, stop, b[n..]);
  }

  /** For every cut of a stream into chunks, the frames examined, whether the
      consumer was stopped, and, if it was not, what is left, are those of the whole
      stream. */
  lemma {:induction false} ChunkingDoesNotMatter<T(!new), F(!new)>(next: seq<T> -> Option<(F, nat)>, stop: F -> bool,
                                                                   b: seq<T>, chunks: seq<seq<T>>)
    requires Framer(next) && next(b) == None
    ensures var r := ConsumeChunks(next, stop, b, chunks);
            var whole := Consume(next, stop, b + Concat(chunks));
            && r.frames == whole.frames && r.stopped == whole.stopped
            && (!r.stopped ==> r.rest == whole.rest)
    decreases |chunks|
  {
    if chunks == [] {
      assert b + [] == b;
    } else {
      var later := Concat(chunks[1..]);
      assert b + Concat(chunks) == b + chunks[0] + later;
      ConsumeMore(next, stop, b + chunks[0], later);
      var r := Consume(next, stop, b + chunks[0]);
      if !r.stopped {
        ConsumeRest(next, stop, b + chunks[0]);
        ChunkingDoesNotMatter(next, stop, r.rest, chunks[1..]);
      }
    }
  }
}
