/** Model of `kbd_proc_data` (kern/console.c): the scan-code state machine, for
    every history of scan codes. */
module Keyboard {
  import opened CString
  import opened Keymap
  import C = ConsoleInput

  const SHIFT: bv8 := 1
  const CTL: bv8 := 2
  const ALT: bv8 := 4
  const CAPSLOCK: bv8 := 8
  const NUMLOCK: bv8 := 16
  const SCROLLLOCK: bv8 := 32
  const E0ESC: bv8 := 64

  const PREFIX := 0xe0

  // ---------------------------------------------------------------------------
  // The tables
  // ---------------------------------------------------------------------------

  /** `shiftcode`. */
  function ShiftCode(data: byte): bv8
  {
    if data == 0x1d || data == 0x9d then CTL
    else if data == 0x2a || data == 0x36 then SHIFT
    else if data == 0x38 || data == 0xb8 then ALT
    else 0
  }

  /** `togglecode`. */
  function ToggleCode(data: byte): bv8
  {
    if data == 0x3a then CAPSLOCK else if data == 0x45 then NUMLOCK else if data == 0x46 then SCROLLLOCK else 0
  }

  // ---------------------------------------------------------------------------
  // The state machine
  // ---------------------------------------------------------------------------

  predicate Has(shift: bv8, bit: bv8)
  {
    shift & bit != 0
  }

  /** `shift` after one scan code. */
  function Step(shift: bv8, data: byte): bv8
  {
    if data == PREFIX then shift | E0ESC
    else if data >= 0x80 then
      shift & !(ShiftCode(if Has(shift, E0ESC) then data else data - 0x80) | E0ESC)
    else
      var code: byte := if Has(shift, E0ESC) then data + 0x80 else data;
      ((shift & !E0ESC) | ShiftCode(code)) ^ ToggleCode(code)
  }

  /** `charcode[shift & (CTL | SHIFT)][code]`, with the case changed by CAPS LOCK. */
  function KeyChar(shift: bv8, code: byte): byte
  {
    var c := if Has(shift, CTL) then Control(code) else if Has(shift, SHIFT) then Shifted(code) else Normal(code);
    if !Has(shift, CAPSLOCK) then c
    else if 97 <= c <= 122 then c - 32
    else if 65 <= c <= 90 then c + 32
    else c
  }

  /** The key that a scan code presses, if it presses one. */
  function PressedKey(shift: bv8, data: byte): seq<byte>
  {
    if data >= 0x80 then [] else if Has(shift, E0ESC) then [data + 0x80] else [data]
  }

  /** The character a scan code finishes, or 0. */
  function CharOf(shift: bv8, data: byte): byte
  {
    var key := PressedKey(shift, data);
    if key == [] then 0 else KeyChar(Step(shift, data), key[0])
  }

  /** `shift` after more scan codes. */
  function AfterMore(shift: bv8, codes: seq<byte>): bv8
    decreases |codes|
  {
    if codes == [] then shift else Step(AfterMore(shift, codes[..|codes| - 1]), codes[|codes| - 1])
  }

  /** `shift` after a history of scan codes, from the state at boot. */
  function After(history: seq<byte>): bv8
  {
    AfterMore(0, history)
  }

  lemma {:induction false} AfterConcat(shift: bv8, h: seq<byte>, codes: seq<byte>)
    ensures AfterMore(AfterMore(shift, h), codes) == AfterMore(shift, h + codes)
    decreases |codes|
  {
    if codes == [] {
      assert h + [] == h;
    } else {
      var n := |codes| - 1;
      assert (h + codes)[..|h + codes| - 1] == h + codes[..n];
      AfterConcat(shift, h, codes[..n]);
    }
  }

  // ---------------------------------------------------------------------------
  // One scan code, bit by bit
  // ---------------------------------------------------------------------------

  lemma PrefixStep(shift: bv8, data: byte)
    ensures Has(Step(shift, data), E0ESC) <==> data == PREFIX
  {
  }

  lemma CtlStep(shift: bv8, data: byte)
    ensures Has(Step(shift, data), CTL) <==> data == 0x1d || (data != 0x9d && Has(shift, CTL))
  {
  }

  lemma AltStep(shift: bv8, data: byte)
    ensures Has(Step(shift, data), ALT) <==> data == 0x38 || (data != 0xb8 && Has(shift, ALT))
  {
  }

  lemma ShiftStep(shift: bv8, data: byte)
    ensures Has(Step(shift, data), SHIFT) <==>
            if Has(shift, E0ESC) then Has(shift, SHIFT)
            else data == 0x2a || data == 0x36 || (data != 0xaa && data != 0xb6 && Has(shift, SHIFT))
  {
  }

  lemma ToggleStep(shift: bv8, data: byte, code: byte, bit: bv8)
    requires || (code == 0x3a && bit == CAPSLOCK)
             || (code == 0x45 && bit == NUMLOCK)
             || (code == 0x46 && bit == SCROLLLOCK)
    ensures Has(Step(shift, data), bit) <==> Has(shift, bit) != (data == code && !Has(shift, E0ESC))
  {
  }

  // ---------------------------------------------------------------------------
  // Histories
  // ---------------------------------------------------------------------------

  /** Scan code `i` comes right after a prefix. */
  predicate Prefixed(h: seq<byte>, i: nat)
    requires i <= |h|
  {
    i > 0 && h[i - 1] == PREFIX
  }

  /** Scan code `i` is one of `codes`; prefixed ones count if `any`. */
  predicate Event(h: seq<byte>, i: nat, codes: set<byte>, any: bool)
    requires i < |h|
  {
    h[i] in codes && (any || !Prefixed(h, i))
  }

  /** Some press was not followed by a release: the last matching event was a
      press. */
  ghost predicate Held(h: seq<byte>, press: set<byte>, release: set<byte>, any: bool)
  {
    exists i :: 0 <= i < |h| && Event(h, i, press, any) && forall j :: i < j < |h| ==> !Event(h, j, release, any)
  }

  /** The number of scan codes `code` without a prefix. */
  function Count(h: seq<byte>, code: byte): nat
  {
    if h == [] then 0
    else
      var n := |h| - 1;
      Count(h[..n], code) + if h[n] == code && !Prefixed(h, n) then 1 else 0
  }

  lemma HeldStep(h: seq<byte>, c: byte, press: set<byte>, release: set<byte>, any: bool)
    requires press !! release
    ensures Held(h + [c], press, release, any) <==>
            if any || !Prefixed(h, |h|) then c in press || (c !in release && Held(h, press, release, any))
            else Held(h, press, release, any)
  {
    var g := h + [c];
    assert forall i :: 0 <= i < |h| ==> Event(g, i, press, any) == Event(h, i, press, any);
    assert forall i :: 0 <= i < |h| ==> Event(g, i, release, any) == Event(h, i, release, any);
    assert Event(g, |h|, press, any) == (c in press && (any || !Prefixed(h, |h|)));
    assert Event(g, |h|, release, any) == (c in release && (any || !Prefixed(h, |h|)));
    if Held(h, press, release, any) {
      var i :| 0 <= i < |h| && Event(h, i, press, any) && forall j :: i < j < |h| ==> !Event(h, j, release, any);
      if !Event(g, |h|, release, any) {
        assert Event(g, i, press, any);
        assert Held(g, press, release, any);
      }
    }
  }

  /** For every history of scan codes: what each bit of `shift` says. */
  lemma {:induction false} ShiftState(h: seq<byte>)
    ensures Has(After(h), E0ESC) <==> Prefixed(h, |h|)
    ensures Has(After(h), CTL) <==> Held(h, {0x1d}, {0x9d}, true)
    ensures Has(After(h), ALT) <==> Held(h, {0x38}, {0xb8}, true)
    ensures Has(After(h), SHIFT) <==> Held(h, {0x2a, 0x36}, {0xaa, 0xb6}, false)
    ensures Has(After(h), CAPSLOCK) <==> Count(h, 0x3a) % 2 == 1
    ensures Has(After(h), NUMLOCK) <==> Count(h, 0x45) % 2 == 1
    ensures Has(After(h), SCROLLLOCK) <==> Count(h, 0x46) % 2 == 1
  {
    if h != [] {
      var n := |h| - 1;
      var g, c := h[..n], h[n];
      assert h == g + [c];
      ShiftState(g);
      PrefixStep(After(g), c);
      CtlStep(After(g), c);
      AltStep(After(g), c);
      ShiftStep(After(g), c);
      ToggleStep(After(g), c, 0x3a, CAPSLOCK);
      ToggleStep(After(g), c, 0x45, NUMLOCK);
      ToggleStep(After(g), c, 0x46, SCROLLLOCK);
      HeldStep(g, c, {0x1d}, {0x9d}, true);
      HeldStep(g, c, {0x38}, {0xb8}, true);
      HeldStep(g, c, {0x2a, 0x36}, {0xaa, 0xb6}, false);
    }
  }

  // ---------------------------------------------------------------------------
  // The C functions
  // ---------------------------------------------------------------------------

  const KBS_DIB: bv8 := 0x01
  const KBS_TERR: bv8 := 0x20

  /** The characters that scan codes finish. */
  function CharsOf(shift: bv8, codes: seq<byte>): seq<byte>
    decreases |codes|
  {
    if codes == [] then [] else [CharOf(shift, codes[0])] + CharsOf(Step(shift, codes[0]), codes[1..])
  }

  // ---------------------------------------------------------------------------
  // What a key types
  // ---------------------------------------------------------------------------

  ghost predicate CtlHeld(h: seq<byte>)
  {
    Held(h, {0x1d}, {0x9d}, true)
  }

  ghost predicate ShiftHeld(h: seq<byte>)
  {
    Held(h, {0x2a, 0x36}, {0xaa, 0xb6}, false)
  }

  ghost predicate CapsOn(h: seq<byte>)
  {
    Count(h, 0x3a) % 2 == 1
  }

  /** The key that is pressed after history `h`. */
  function KeyAfter(h: seq<byte>, data: byte): byte
    requires data < 0x80
  {
    if Prefixed(h, |h|) then data + 0x80 else data
  }

  /** The table entry of a key, at the end of history `g`. */
  ghost function EntryOf(g: seq<byte>, key: byte): byte
  {
    if CtlHeld(g) then Control(key) else if ShiftHeld(g) then Shifted(key) else Normal(key)
  }

  /** Scan code `data` after history `h`, which becomes `g`: the character is the
      entry of the key under the CTL and SHIFT keys held, with its case changed by
      CAPS LOCK. */
  lemma KeyTypes(h: seq<byte>, data: byte, g: seq<byte>, c: byte)
    requires data < 0x80 && g == h + [data] && c == EntryOf(g, KeyAfter(h, data))
    ensures CharOf(After(h), data) ==
            if !CapsOn(g) then c
            else if 'a' as int <= c <= 'z' as int then c - 32
            else if 'A' as int <= c <= 'Z' as int then c + 32
            else c
  {
    assert g[..|g| - 1] == h;
    ShiftState(h);
    ShiftState(g);
  }

  /** A letter key types its letter: upper case iff either SHIFT is held or CAPS LOCK
      is on, but not both; with CTL held, its control character, whatever the
      locks. */
  lemma LetterKeyTypes(h: seq<byte>, data: byte, g: seq<byte>)
    requires data < 0x80 && g == h + [data] && !Prefixed(h, |h|)
    requires 'a' as int <= Normal(data) <= 'z' as int
    ensures CharOf(After(h), data) ==
            if CtlHeld(g) then Normal(data) - 96
            else if ShiftHeld(g) != CapsOn(g) then Normal(data) - 32
            else Normal(data)
  {
    KeyTypes(h, data, g, EntryOf(g, data));
    LetterKeys(data);
  }

  /** CAPS LOCK changes no other key. */
  lemma OtherKeyTypes(h: seq<byte>, data: byte, g: seq<byte>, key: byte, c: byte)
    requires data < 0x80 && g == h + [data] && key == KeyAfter(h, data) && c == EntryOf(g, key)
    requires !IsLetter(Normal(key))
    ensures CharOf(After(h), data) == c
  {
    KeyTypes(h, data, g, c);
    NoLetterAnywhere(key);
  }

  /** A prefix and a release finish no character. */
  lemma NoCharacter(shift: bv8, data: byte)
    requires data >= 0x80
    ensures CharOf(shift, data) == 0
  {
  }

  /** The characters delivered for `codes` after history `h`: each is that of its scan
      code after those before it. */
  lemma {:induction false} DeliveredAt(h: seq<byte>, codes: seq<byte>, i: nat, before: seq<byte>)
    requires i < |codes| && before == h + codes[..i]
    ensures |CharsOf(After(h), codes)| == |codes|
    ensures CharsOf(After(h), codes)[i] == CharOf(After(before), codes[i])
    decreases |codes|
  {
    var next := h + [codes[0]];
    assert next[..|next| - 1] == h && After(next) == Step(After(h), codes[0]);
    if i > 0 {
      assert next + codes[1..][..i - 1] == before;
      DeliveredAt(next, codes[1..], i - 1, before);
    } else {
      assert before == h;
      CharsLength(After(h), codes);
    }
  }

  lemma {:induction false} CharsLength(shift: bv8, codes: seq<byte>)
    ensures |CharsOf(shift, codes)| == |codes|
    decreases |codes|
  {
    if codes != [] {
      CharsLength(Step(shift, codes[0]), codes[1..]);
    }
  }

  // ---------------------------------------------------------------------------
  // The object
  // ---------------------------------------------------------------------------

  /** The static variable of `kbd_proc_data`. */
  class Kbd {
    var shift: bv8

    constructor ()
      ensures shift == After([])
    {
      shift := 0;
    }

    /** `kbd_proc_data()`, when the controller has this status and this scan code. */
    method ProcData(stat: bv8, data: byte) returns (c: int)
      modifies this
      ensures stat & 0x01 == 0 || stat & 0x20 != 0 ==> c == -1 && shift == old(shift)
      ensures stat & 0x01 != 0 && stat & 0x20 == 0 ==>
                c == CharOf(old(shift), data) && shift == Step(old(shift), data)
    {
      if stat & KBS_DIB == 0 {
        return -1;
      }
      if stat & KBS_TERR != 0 {
        return -1;
      }
      var key := Advance(data);
      if key == [] {
        return 0;
      }
      c := Translate(key[0]);
    }

    /** The changes of `shift`, and the key pressed if any. */
    method Advance(data: byte) returns (key: seq<byte>)
      modifies this
      ensures key == PressedKey(old(shift), data) && shift == Step(old(shift), data)
    {
      if data == PREFIX {
        shift := shift | E0ESC;
        key := [];
      } else if data >= 0x80 {
        Release(data);
        key := [];
      } else {
        var code := Press(data);
        key := [code];
      }
    }

    /** "Key released". */
    method Release(data: byte)
      requires data >= 0x80 && data != PREFIX
      modifies this
      ensures shift == Step(old(shift), data)
    {
      var code := if Has(shift, E0ESC) then data else data - 0x80;
      shift := shift & !(ShiftCode(code) | E0ESC);
    }

    /** A key pressed, after a prefix or not. */
    method Press(data: byte) returns (code: byte)
      requires data < 0x80
      modifies this
      ensures [code] == PressedKey(old(shift), data) && shift == Step(old(shift), data)
    {
      code := data;
      if Has(shift, E0ESC) {
        code := data + 0x80;
        shift := shift & !E0ESC;
      } else {
        NoEscape(shift);
      }
      shift := shift | ShiftCode(code);
      shift := shift ^ ToggleCode(code);
    }

    /** The character of a key under the current `shift`. */
    method Translate(code: byte) returns (c: int)
      ensures c == KeyChar(shift, code)
    {
      c := if Has(shift, CTL) then Control(code) else if Has(shift, SHIFT) then Shifted(code) else Normal(code);
      if Has(shift, CAPSLOCK) {
        if 97 <= c <= 122 {
          c := c - 32;
        } else if 65 <= c <= 90 {
          c := c + 32;
        }
      }
    }
  }

  lemma NoEscape(shift: bv8)
    requires !Has(shift, E0ESC)
    ensures shift & !E0ESC == shift
  {
  }

  /** After the first `i` scan codes: what the shift word is, and that the others lead
      to the same pending bytes `end`. */
  ghost predicate Delivering(before: bv8, codes: seq<byte>, i: nat, shift: bv8, q: seq<byte>, end: seq<byte>)
    requires i <= |codes| && |q| < C.CONSBUFSIZE
  {
    shift == AfterMore(before, codes[..i]) && C.EnqueueAll(q, CharsOf(shift, codes[i..])) == end
  }

  /** One scan code more. */
  lemma DeliverNext(before: bv8, codes: seq<byte>, i: nat, shift: bv8, q: seq<byte>, end: seq<byte>)
    requires |q| < C.CONSBUFSIZE && i < |codes| && Delivering(before, codes, i, shift, q, end)
    ensures var next := C.Enqueue(q, CharOf(shift, codes[i]));
            |next| < C.CONSBUFSIZE && Delivering(before, codes, i + 1, Step(shift, codes[i]), next, end)
  {
    assert codes[i..][0] == codes[i] && codes[i..][1..] == codes[i + 1..];
    CharsFirst(shift, codes[i..], CharsOf(shift, codes[i..]));
    AfterNext(before, codes[..i], codes[i], codes[..i + 1]);
  }

  lemma CharsFirst(shift: bv8, codes: seq<byte>, chars: seq<byte>)
    requires codes != [] && chars == CharsOf(shift, codes)
    ensures chars != [] && chars[0] == CharOf(shift, codes[0])
    ensures chars[1..] == CharsOf(Step(shift, codes[0]), codes[1..])
  {
  }

  lemma AfterNext(shift: bv8, codes: seq<byte>, c: byte, all: seq<byte>)
    requires all == codes + [c]
    ensures AfterMore(shift, all) == Step(AfterMore(shift, codes), c)
  {
    assert all[..|all| - 1] == codes;
  }

  /** `kbd_intr()`, when the controller has these scan codes: no scan code ends the
      loop of `cons_intr` early, and the buffer receives the finished characters.
      `h` is the history before the call: what `ShiftState` says of it holds of the
      longer one after the call. */
  method KbdIntr(kbd: Kbd, cons: C.Cons, codes: seq<byte>, ghost h: seq<byte>)
    requires cons.Valid()
    modifies kbd, cons, cons.buf
    ensures cons.Valid()
    ensures kbd.shift == AfterMore(old(kbd.shift), codes)
    ensures old(kbd.shift) == After(h) ==> kbd.shift == After(h + codes)
    ensures cons.Pending() == C.EnqueueAll(old(cons.Pending()), CharsOf(old(kbd.shift), codes))
  {
    ghost var shift, end := kbd.shift, C.EnqueueAll(cons.Pending(), CharsOf(kbd.shift, codes));
    var i := 0;
    assert Delivering(shift, codes, 0, kbd.shift, cons.Pending(), end);
    while i < |codes|
      invariant 0 <= i <= |codes| && cons.Valid()
      invariant Delivering(shift, codes, i, kbd.shift, cons.Pending(), end)
    {
      DeliverNext(shift, codes, i, kbd.shift, cons.Pending(), end);
      DeliverCode(kbd, cons, codes[i]);
      i := i + 1;
    }
    Delivered(shift, codes, kbd.shift, cons.Pending(), end, h);
  }

  lemma Delivered(before: bv8, codes: seq<byte>, shift: bv8, q: seq<byte>, end: seq<byte>, h: seq<byte>)
    requires |q| < C.CONSBUFSIZE && Delivering(before, codes, |codes|, shift, q, end)
    ensures shift == AfterMore(before, codes) && q == end
    ensures before == After(h) ==> shift == After(h + codes)
  {
    assert codes[..|codes|] == codes;
    AfterConcat(0, h, codes);
  }

  /** One round of the loop of `cons_intr` for the keyboard. */
  method DeliverCode(kbd: Kbd, cons: C.Cons, data: byte)
    requires cons.Valid()
    modifies kbd, cons, cons.buf
    ensures cons.Valid() && kbd.shift == Step(old(kbd.shift), data)
    ensures cons.Pending() == C.Enqueue(old(cons.Pending()), CharOf(old(kbd.shift), data))
  {
    var c := kbd.ProcData(KBS_DIB, data);
    cons.Store(c);
  }
}
