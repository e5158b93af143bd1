/** Model of `stab_binsearch` (kern/kdebug.c): a binary search over a table in
    which the entries of the wanted type are interleaved with other entries.

    `Narrow` follows the loop of the C function one iteration at a time, on any
    table. `Scan` is the linear search it is compared with. */
module StabSearch {

  const N_FUN := 0x24
  const N_SO := 0x64
  const N_SOL := 0x84
  const N_PSYM := 0xa0

  const UINT32_MAX := 0xffff_ffff

  /** `addr++` on a 32-bit unsigned value. */
  function Bump(key: int): int
  {
    if key == UINT32_MAX then 0 else key + 1
  }

  /** A table entry: string index, type and value (`n_strx`, `n_type`, `n_value`). */
  datatype Stab = Stab(strx: nat, typ: int, value: nat)

  /** Entry `i` exists and has the wanted type. */
  predicate At(stabs: seq<Stab>, typ: int, i: int)
  {
    0 <= i < |stabs| && stabs[i].typ == typ
  }

  // ---------------------------------------------------------------------------
  // The loop, one iteration at a time
  // ---------------------------------------------------------------------------

  /** The walk `while (m >= lo && stabs[m].n_type != typ) m--`. */
  function FindDown(stabs: seq<Stab>, typ: int, lo: int, m: int): (k: int)
    requires 0 <= lo && m < |stabs|
    ensures k <= m
    ensures m < lo ==> k == m
    ensures lo - 1 <= m ==> lo - 1 <= k
    ensures k >= lo ==> At(stabs, typ, k)
    decreases m - lo
  {
    if m >= lo && stabs[m].typ != typ then FindDown(stabs, typ, lo, m - 1) else m
  }

  /** The walk skips no entry of the type. */
  lemma {:induction false} FindDownSkipsNone(stabs: seq<Stab>, typ: int, lo: int, m: int)
    requires 0 <= lo && m < |stabs|
    ensures forall i {:trigger At(stabs, typ, i)} ::
              lo <= i <= m && FindDown(stabs, typ, lo, m) < i ==> !At(stabs, typ, i)
    decreases m - lo
  {
    if m >= lo && stabs[m].typ != typ {
      FindDownSkipsNone(stabs, typ, lo, m - 1);
    }
  }

  /** The variables of the loop. `probes` counts iterations and `hits` counts
      executions of `addr++`. */
  datatype Search = Search(l: int, r: int, key: int, left: int, right: int, matched: bool,
                           probes: nat, hits: nat)
  {
    predicate InTable(stabs: seq<Stab>)
    {
      0 <= l <= r + 1 <= |stabs|
    }
  }

  /** One iteration. */
  function Step(stabs: seq<Stab>, typ: int, s: Search): (t: Search)
    requires s.InTable(stabs) && s.l <= s.r
    ensures t.InTable(stabs)
    ensures s.l <= t.l && t.r <= s.r
  {
    var mid := (s.l + s.r) / 2;
    var m := FindDown(stabs, typ, s.l, mid);
    if m < s.l then
      Search(mid + 1, s.r, s.key, s.left, s.right, s.matched, s.probes + 1, s.hits)
    else if stabs[m].value < s.key then
      Search(mid + 1, s.r, s.key, m, s.right, true, s.probes + 1, s.hits)
    else if stabs[m].value > s.key then
      Search(s.l, m - 1, s.key, s.left, m - 1, true, s.probes + 1, s.hits)
    else
      Search(m, s.r, Bump(s.key), m, s.right, true, s.probes + 1, s.hits + 1)
  }

  /** The whole loop. It terminates on every table, sorted or not, and also when
      `addr++` wraps: an iteration that moves neither bound is an exact hit on the
      entry at `l`, and the bumped key no longer hits that entry. */
  function Narrow(stabs: seq<Stab>, typ: int, s: Search): Search
    requires s.InTable(stabs)
    decreases s.r - s.l + 1, if s.l <= s.r && stabs[s.l].value == s.key then 1 else 0
  {
    if s.l <= s.r then Narrow(stabs, typ, Step(stabs, typ, s)) else s
  }

  function Start(lo: int, hi: int, addr: nat): Search
  {
    Search(lo, hi, addr, lo, hi, false, 0, 0)
  }

  /** The values left in `*region_left` and `*region_right` after the loop has
      ended in state `s`. */
  function Settle(stabs: seq<Stab>, typ: int, s: Search): (int, int)
    requires 0 <= s.left && s.right < |stabs|
  {
    if !s.matched then (s.left, s.left - 1)
    else (FindDown(stabs, typ, s.left + 1, s.right), s.right)
  }

  // ---------------------------------------------------------------------------
  // What holds on every table
  // ---------------------------------------------------------------------------

  /** Facts that need no order on the table: the bounds stay in the region and
      `right` is always `r`. */
  ghost predicate Bounded(stabs: seq<Stab>, lo: int, hi: int, s: Search)
  {
    && 0 <= lo <= s.l <= s.r + 1 <= hi + 1 <= |stabs|
    && s.right == s.r
    && lo <= s.left <= s.l
    && (!s.matched ==> s.left == lo)
  }

  lemma StepStaysBounded(stabs: seq<Stab>, typ: int, lo: int, hi: int, s: Search)
    requires Bounded(stabs, lo, hi, s) && s.l <= s.r
    ensures var t := Step(stabs, typ, s);
            && Bounded(stabs, lo, hi, t)
            && Narrow(stabs, typ, s) == Narrow(stabs, typ, t)
            && (t.r - t.l < s.r - s.l
                || (t.l == s.l && t.r == s.r && stabs[s.l].value == s.key != t.key))
  {
  }

  lemma {:induction false} NarrowStaysBounded(stabs: seq<Stab>, typ: int, lo: int, hi: int, s: Search)
    requires Bounded(stabs, lo, hi, s)
    ensures Bounded(stabs, lo, hi, Narrow(stabs, typ, s))
    ensures Narrow(stabs, typ, s).l == Narrow(stabs, typ, s).r + 1
    decreases s.r - s.l + 1, if s.l <= s.r && stabs[s.l].value == s.key then 1 else 0
  {
    if s.l <= s.r {
      NarrowStaysBounded(stabs, typ, lo, hi, Step(stabs, typ, s));
    }
  }

  function Log2(n: nat): nat
  {
    if n < 2 then 0 else 1 + Log2(n / 2)
  }

  lemma {:induction false} Log2Monotone(m: nat, n: nat)
    requires m <= n
    ensures Log2(m) <= Log2(n)
  {
    if 2 <= m {
      Log2Monotone(m / 2, n / 2);
    }
  }

  /** Iterations still possible in a window of `size` entries, exact hits aside. */
  function Budget(size: nat): nat
  {
    if size == 0 then 0 else Log2(size) + 1
  }

  lemma BudgetHalves(half: nat, size: nat)
    requires 1 <= size && half <= size / 2
    ensures Budget(half) + 1 <= Budget(size)
  {
    if half > 0 {
      Log2Monotone(half, size / 2);
    }
  }

  /** One iteration uses one probe; unless it is an exact hit, it halves the
      window. */
  lemma StepHalves(stabs: seq<Stab>, typ: int, s: Search, t: Search)
    requires s.InTable(stabs) && s.l <= s.r && t == Step(stabs, typ, s)
    ensures t.probes == s.probes + 1 && s.hits <= t.hits <= s.hits + 1
    ensures t.hits == s.hits ==> t.r - t.l + 1 <= (s.r - s.l + 1) / 2
    ensures t.r - t.l <= s.r - s.l
  {
  }

  /** Every iteration that is not an exact hit halves the window. */
  lemma {:induction false} NarrowProbes(stabs: seq<Stab>, typ: int, s: Search, n: Search)
    requires s.InTable(stabs) && n == Narrow(stabs, typ, s)
    ensures n.hits >= s.hits && n.probes <= s.probes + Budget(s.r - s.l + 1) + (n.hits - s.hits)
    decreases s.r - s.l + 1, if s.l <= s.r && stabs[s.l].value == s.key then 1 else 0
  {
    if s.l <= s.r {
      var t := Step(stabs, typ, s);
      StepHalves(stabs, typ, s, t);
      StepMoves(stabs, typ, s, t);
      NarrowProbes(stabs, typ, t, n);
      if t.hits == s.hits {
        BudgetHalves(t.r - t.l + 1, s.r - s.l + 1);
      } else {
        Log2Monotone(t.r - t.l + 1, s.r - s.l + 1);
      }
    }
  }

  // ---------------------------------------------------------------------------
  // The linear scan
  // ---------------------------------------------------------------------------

  ghost predicate Sorted(stabs: seq<Stab>, typ: int, lo: int, hi: int)
    requires 0 <= lo && hi < |stabs|
  {
    forall i, j {:trigger At(stabs, typ, i), At(stabs, typ, j)} ::
      lo <= i < j <= hi && At(stabs, typ, i) && At(stabs, typ, j) ==> stabs[i].value <= stabs[j].value
  }

  /** Greatest index in [lo, hi] of an entry of the type with value <= addr, or
      lo - 1. */
  function LastAtMost(stabs: seq<Stab>, typ: int, lo: int, hi: int, addr: int): (k: int)
    requires 0 <= lo <= hi + 1 <= |stabs|
    ensures lo - 1 <= k <= hi
    ensures k >= lo ==> At(stabs, typ, k) && stabs[k].value <= addr
    ensures forall i {:trigger At(stabs, typ, i)} ::
              k < i <= hi && lo <= i && At(stabs, typ, i) ==> stabs[i].value > addr
    decreases hi - lo + 1
  {
    if hi < lo then lo - 1
    else if stabs[hi].typ == typ && stabs[hi].value <= addr then hi
    else LastAtMost(stabs, typ, lo, hi - 1, addr)
  }

  /** Least index in [lo, hi] of an entry of the type, or hi + 1. */
  function NextOf(stabs: seq<Stab>, typ: int, lo: int, hi: int): (k: int)
    requires 0 <= lo <= hi + 1 <= |stabs|
    ensures lo <= k <= hi + 1
    ensures k <= hi ==> At(stabs, typ, k)
    ensures forall i {:trigger At(stabs, typ, i)} :: lo <= i < k ==> !At(stabs, typ, i)
    decreases hi - lo + 1
  {
    if hi < lo then lo
    else if stabs[lo].typ == typ then lo
    else NextOf(stabs, typ, lo + 1, hi)
  }

  /** What the search returns on a sorted region, by linear scan.
       - Some entry of the type contains `addr`: the last such entry, and the index
         just before the next entry of the type (or the end of the region).
       - No entry of the type: (lo, lo - 1).
       - All entries of the type lie above `addr`: the region before the first of
         them; its left end is lo, or lo - 1 when that first entry is at lo. */
  function Scan(stabs: seq<Stab>, typ: int, lo: int, hi: int, addr: int): (int, int)
    requires 0 <= lo <= hi + 1 <= |stabs|
  {
    var k := LastAtMost(stabs, typ, lo, hi, addr);
    var first := NextOf(stabs, typ, lo, hi);
    if k >= lo then (k, NextOf(stabs, typ, k + 1, hi) - 1)
    else if first > hi then (lo, lo - 1)
    else (if first > lo then lo else lo - 1, first - 1)
  }

  // ---------------------------------------------------------------------------
  // The search refines the scan
  // ---------------------------------------------------------------------------

  /** `left` is an entry below the key; once the key was bumped, just below it. */
  ghost predicate LeftSet(stabs: seq<Stab>, typ: int, s: Search)
  {
    && s.matched && s.left <= s.r && At(stabs, typ, s.left)
    && stabs[s.left].value < s.key
    && (s.hits > 0 ==> stabs[s.left].value == s.key - 1)
  }

  /** `left` still has its initial value, and nothing lies before the window. */
  ghost predicate LeftUnset(stabs: seq<Stab>, typ: int, lo: int, hi: int, s: Search)
  {
    && s.hits == 0 && s.left == lo && (s.matched <==> s.right < hi)
    && forall i {:trigger At(stabs, typ, i)} :: lo <= i < s.l ==> !At(stabs, typ, i)
  }

  /** What the loop keeps on a sorted region, for the address `addr` it started
      with. The entries to the left of the window are below the key; those to its
      right are above `addr` as long as the key was bumped at most once. */
  ghost predicate Inv(stabs: seq<Stab>, typ: int, lo: int, hi: int, addr: int, s: Search)
  {
    && Bounded(stabs, lo, hi, s)
    && s.key == addr + s.hits
    && (forall i {:trigger At(stabs, typ, i)} :: lo <= i < s.l && At(stabs, typ, i) ==> stabs[i].value < s.key)
    && (s.hits <= 1 ==> forall i {:trigger At(stabs, typ, i)} ::
          s.r < i <= hi && At(stabs, typ, i) ==> stabs[i].value > addr)
    && (s.right == hi || At(stabs, typ, s.right + 1))
    && (LeftSet(stabs, typ, s) || LeftUnset(stabs, typ, lo, hi, s))
  }

  /** No entry holds the largest 32-bit value, so `addr++` never wraps. */
  ghost predicate NoWrap(stabs: seq<Stab>, typ: int, lo: int, hi: int)
    requires 0 <= lo && hi < |stabs|
  {
    forall i {:trigger At(stabs, typ, i)} :: lo <= i <= hi && At(stabs, typ, i) ==> stabs[i].value < UINT32_MAX
  }

  ghost predicate Holds(stabs: seq<Stab>, typ: int, lo: int, hi: int, value: int)
    requires 0 <= lo && hi < |stabs|
  {
    exists i {:trigger At(stabs, typ, i)} :: lo <= i <= hi && At(stabs, typ, i) && stabs[i].value == value
  }

  /** The table does not hold both `addr` and `addr + 1`. */
  ghost predicate Unambiguous(stabs: seq<Stab>, typ: int, lo: int, hi: int, addr: int)
    requires 0 <= lo && hi < |stabs|
  {
    addr < UINT32_MAX &&
    !(Holds(stabs, typ, lo, hi, addr) && Holds(stabs, typ, lo, hi, addr + 1))
  }

  /** The walk from `mid` stopped at `m`: nothing of the type is between them. */
  ghost predicate Stopped(stabs: seq<Stab>, typ: int, m: int, mid: int)
  {
    forall i {:trigger At(stabs, typ, i)} :: m < i <= mid ==> !At(stabs, typ, i)
  }

  lemma WalkStops(stabs: seq<Stab>, typ: int, lo: int, mid: int) returns (m: int)
    requires 0 <= lo <= mid < |stabs|
    ensures m == FindDown(stabs, typ, lo, mid)
    ensures m == lo - 1 || (lo <= m <= mid && At(stabs, typ, m))
    ensures Stopped(stabs, typ, m, mid)
  {
    m := FindDown(stabs, typ, lo, mid);
    FindDownSkipsNone(stabs, typ, lo, mid);
  }

  lemma SkipKeepsInv(stabs: seq<Stab>, typ: int, lo: int, hi: int, addr: nat, s: Search, t: Search,
                     mid: int)
    requires Inv(stabs, typ, lo, hi, addr, s)
    requires s.l <= mid <= s.r && Stopped(stabs, typ, s.l - 1, mid)
    requires t == Search(mid + 1, s.r, s.key, s.left, s.right, s.matched, s.probes + 1, s.hits)
    ensures Inv(stabs, typ, lo, hi, addr, t)
  {
  }

  lemma BelowKeepsInv(stabs: seq<Stab>, typ: int, lo: int, hi: int, addr: nat, s: Search, t: Search,
                      mid: int, m: int)
    requires Inv(stabs, typ, lo, hi, addr, s) && Sorted(stabs, typ, lo, hi)
    requires s.l <= m <= mid <= s.r && At(stabs, typ, m) && Stopped(stabs, typ, m, mid)
    requires stabs[m].value < s.key
    requires t == Search(mid + 1, s.r, s.key, m, s.right, true, s.probes + 1, s.hits)
    ensures Inv(stabs, typ, lo, hi, addr, t)
  {
    if s.hits > 0 {
      assert LeftSet(stabs, typ, s);
    }
  }

  lemma AboveKeepsInv(stabs: seq<Stab>, typ: int, lo: int, hi: int, addr: nat, s: Search, t: Search,
                      mid: int, m: int)
    requires Inv(stabs, typ, lo, hi, addr, s) && Sorted(stabs, typ, lo, hi)
    requires s.l <= m <= mid <= s.r && At(stabs, typ, m)
    requires stabs[m].value > s.key
    requires t == Search(s.l, m - 1, s.key, s.left, m - 1, true, s.probes + 1, s.hits)
    ensures Inv(stabs, typ, lo, hi, addr, t)
  {
  }

  lemma HitKeepsInv(stabs: seq<Stab>, typ: int, lo: int, hi: int, addr: nat, s: Search, t: Search,
                    mid: int, m: int)
    requires Inv(stabs, typ, lo, hi, addr, s) && Sorted(stabs, typ, lo, hi)
    requires s.l <= m <= mid <= s.r && At(stabs, typ, m)
    requires stabs[m].value == s.key
    requires t == Search(m, s.r, s.key + 1, m, s.right, true, s.probes + 1, s.hits + 1)
    ensures Inv(stabs, typ, lo, hi, addr, t)
  {
  }

  /** One iteration keeps the invariant unless it hits the largest 32-bit value. */
  lemma StepKeepsInv(stabs: seq<Stab>, typ: int, lo: int, hi: int, addr: nat, s: Search, t: Search)
    requires Inv(stabs, typ, lo, hi, addr, s) && s.l <= s.r && t == Step(stabs, typ, s)
    requires Sorted(stabs, typ, lo, hi)
    requires s.key < UINT32_MAX || !Holds(stabs, typ, lo, hi, s.key)
    ensures Inv(stabs, typ, lo, hi, addr, t)
  {
    var mid := (s.l + s.r) / 2;
    var m := WalkStops(stabs, typ, s.l, mid);
    if m < s.l {
      SkipKeepsInv(stabs, typ, lo, hi, addr, s, t, mid);
    } else if stabs[m].value < s.key {
      BelowKeepsInv(stabs, typ, lo, hi, addr, s, t, mid, m);
    } else if stabs[m].value > s.key {
      AboveKeepsInv(stabs, typ, lo, hi, addr, s, t, mid, m);
    } else {
      EntryHolds(stabs, typ, lo, hi, m, s.key);
      HitKeepsInv(stabs, typ, lo, hi, addr, s, t, mid, m);
    }
  }

  lemma EntryHolds(stabs: seq<Stab>, typ: int, lo: int, hi: int, m: int, key: int)
    requires 0 <= lo <= m <= hi < |stabs| && At(stabs, typ, m) && stabs[m].value == key
    ensures Holds(stabs, typ, lo, hi, key)
  {
  }

  /** One iteration moves a bound, or is an exact hit on the entry at `l`. */
  lemma StepMoves(stabs: seq<Stab>, typ: int, s: Search, t: Search)
    requires s.InTable(stabs) && s.l <= s.r && t == Step(stabs, typ, s)
    ensures t.r - t.l < s.r - s.l || (t.l == s.l && t.r == s.r && stabs[s.l].value == s.key != t.key)
  {
  }

  /** The key is bumped at an entry that holds it. */
  lemma StepHits(stabs: seq<Stab>, typ: int, lo: int, hi: int, s: Search, t: Search)
    requires 0 <= lo <= s.l <= s.r <= hi < |stabs| && t == Step(stabs, typ, s)
    ensures t.hits == s.hits || (t.hits == s.hits + 1 && Holds(stabs, typ, lo, hi, s.key))
  {
    var m := FindDown(stabs, typ, s.l, (s.l + s.r) / 2);
    assert m >= s.l ==> At(stabs, typ, m);
  }

  /** On an unambiguous region the key is bumped at most once. */
  lemma {:induction false} NarrowUnambiguous(stabs: seq<Stab>, typ: int, lo: int, hi: int, addr: nat,
                                             s: Search, n: Search)
    requires Inv(stabs, typ, lo, hi, addr, s) && n == Narrow(stabs, typ, s)
    requires Sorted(stabs, typ, lo, hi) && Unambiguous(stabs, typ, lo, hi, addr)
    requires s.hits == 0 || (s.hits == 1 && Holds(stabs, typ, lo, hi, addr))
    ensures Inv(stabs, typ, lo, hi, addr, n) && n.l == n.r + 1 && n.hits <= 1
    decreases s.r - s.l + 1, if s.l <= s.r && stabs[s.l].value == s.key then 1 else 0
  {
    if s.l <= s.r {
      var t := Step(stabs, typ, s);
      StepKeepsInv(stabs, typ, lo, hi, addr, s, t);
      StepMoves(stabs, typ, s, t);
      StepHits(stabs, typ, lo, hi, s, t);
      NarrowUnambiguous(stabs, typ, lo, hi, addr, t, n);
    }
  }

  lemma NotAtMost(stabs: seq<Stab>, typ: int, lo: int, hi: int, value: int)
    requires 0 <= lo && hi < |stabs| && NoWrap(stabs, typ, lo, hi) && value >= UINT32_MAX
    ensures !Holds(stabs, typ, lo, hi, value)
  {
  }

  lemma {:induction false} NarrowKeepsInv(stabs: seq<Stab>, typ: int, lo: int, hi: int, addr: nat,
                                          s: Search, n: Search)
    requires Inv(stabs, typ, lo, hi, addr, s) && n == Narrow(stabs, typ, s)
    requires Sorted(stabs, typ, lo, hi) && NoWrap(stabs, typ, lo, hi)
    ensures Inv(stabs, typ, lo, hi, addr, n) && n.l == n.r + 1
    decreases s.r - s.l + 1, if s.l <= s.r && stabs[s.l].value == s.key then 1 else 0
  {
    if s.l <= s.r {
      var t := Step(stabs, typ, s);
      if s.key >= UINT32_MAX {
        NotAtMost(stabs, typ, lo, hi, s.key);
      }
      StepKeepsInv(stabs, typ, lo, hi, addr, s, t);
      StepMoves(stabs, typ, s, t);
      NarrowKeepsInv(stabs, typ, lo, hi, addr, t, n);
    }
  }

  /** A final state in which the key was bumped at most once settles on the scan. */
  lemma SettledIsScan(stabs: seq<Stab>, typ: int, lo: int, hi: int, addr: nat, t: Search)
    requires Inv(stabs, typ, lo, hi, addr, t) && t.l == t.r + 1 && t.hits <= 1
    ensures Settle(stabs, typ, t) == Scan(stabs, typ, lo, hi, addr)
  {
    var k := LastAtMost(stabs, typ, lo, hi, addr);
    if t.matched {
      FindDownSkipsNone(stabs, typ, t.left + 1, t.right);
      var (left, right) := Settle(stabs, typ, t);
      if k >= lo {
        assert k <= t.r;
        assert left == k;
      }
    }
  }

  /** A final state in which the key was bumped twice settles on an entry whose
      value is above the address searched for. */
  lemma BumpedTwiceIsWrong(stabs: seq<Stab>, typ: int, lo: int, hi: int, addr: nat, t: Search)
    requires Inv(stabs, typ, lo, hi, addr, t) && t.l == t.r + 1 && t.hits >= 2
    requires Sorted(stabs, typ, lo, hi)
    ensures var (left, right) := Settle(stabs, typ, t);
            lo <= left <= hi && At(stabs, typ, left) && stabs[left].value > addr
    ensures Settle(stabs, typ, t) != Scan(stabs, typ, lo, hi, addr)
  {
    var (left, right) := Settle(stabs, typ, t);
    assert t.left <= left;
    var k := LastAtMost(stabs, typ, lo, hi, addr);
    var first := NextOf(stabs, typ, lo, hi);
    assert first <= left;
  }

  // ---------------------------------------------------------------------------
  // Exactly when the bump does harm
  // ---------------------------------------------------------------------------

  /** Textbook search for `addr` alone, never bumping the key: the window left at
      the first exact hit, with the hit as its left end, or an empty window. */
  function HitWindow(stabs: seq<Stab>, typ: int, l: int, r: int, addr: int): (w: (int, int))
    requires 0 <= l <= r + 1 <= |stabs|
    ensures l <= w.0 <= w.1 + 1 && w.1 <= r
    ensures w.0 <= w.1 ==> At(stabs, typ, w.0) && stabs[w.0].value == addr
    decreases r - l + 1
  {
    if l > r then (l, l - 1)
    else
      var mid := (l + r) / 2;
      var m := FindDown(stabs, typ, l, mid);
      if m < l || stabs[m].value < addr then HitWindow(stabs, typ, mid + 1, r, addr)
      else if stabs[m].value > addr then HitWindow(stabs, typ, l, m - 1, addr)
      else (m, r)
  }

  /** The harmful tables: when the search first hits `addr`, an entry for
      `addr + 1` is still in its window. */
  ghost predicate BumpHits(stabs: seq<Stab>, typ: int, lo: int, hi: int, addr: int)
    requires 0 <= lo <= hi + 1 <= |stabs|
  {
    var w := HitWindow(stabs, typ, lo, hi, addr);
    Holds(stabs, typ, w.0, w.1, addr + 1)
  }

  /** After the first hit, an iteration that is not a hit keeps the entries for
      `addr + 1` in its window. */
  lemma StepKeepsNext(stabs: seq<Stab>, typ: int, lo: int, hi: int, addr: nat, s: Search, t: Search)
    requires Inv(stabs, typ, lo, hi, addr, s) && s.hits == 1 && s.l <= s.r
    requires Sorted(stabs, typ, lo, hi)
    requires t == Step(stabs, typ, s) && t.hits == 1
    ensures Holds(stabs, typ, s.l, s.r, addr + 1) <==> Holds(stabs, typ, t.l, t.r, addr + 1)
  {
    if Holds(stabs, typ, s.l, s.r, addr + 1) {
      var i :| s.l <= i <= s.r && At(stabs, typ, i) && stabs[i].value == addr + 1;
      var m := FindDown(stabs, typ, s.l, (s.l + s.r) / 2);
      FindDownSkipsNone(stabs, typ, s.l, (s.l + s.r) / 2);
      assert m >= s.l ==> At(stabs, typ, m);
      assert t.l <= i <= t.r;
    }
  }

  /** After the first hit, the key is hit again iff an entry for it is in the
      window. */
  lemma {:induction false} SecondHit(stabs: seq<Stab>, typ: int, lo: int, hi: int, addr: nat, s: Search, n: Search)
    requires Inv(stabs, typ, lo, hi, addr, s) && s.hits == 1 && n == Narrow(stabs, typ, s)
    requires Sorted(stabs, typ, lo, hi) && NoWrap(stabs, typ, lo, hi)
    ensures n.hits >= 2 <==> Holds(stabs, typ, s.l, s.r, addr + 1)
    decreases s.r - s.l + 1, if s.l <= s.r && stabs[s.l].value == s.key then 1 else 0
  {
    if s.l <= s.r {
      var t := Step(stabs, typ, s);
      if s.key >= UINT32_MAX {
        NotAtMost(stabs, typ, lo, hi, s.key);
      }
      StepKeepsInv(stabs, typ, lo, hi, addr, s, t);
      StepMoves(stabs, typ, s, t);
      if t.hits == 1 {
        StepKeepsNext(stabs, typ, lo, hi, addr, s, t);
        SecondHit(stabs, typ, lo, hi, addr, t, n);
      } else {
        NarrowProbes(stabs, typ, t, n);
        assert At(stabs, typ, t.l) && stabs[t.l].value == addr + 1;
      }
    }
  }

  /** Until the first hit the loop does what the textbook search does. */
  lemma HitWindowStep(stabs: seq<Stab>, typ: int, s: Search, t: Search, w: (int, int))
    requires s.InTable(stabs) && s.l <= s.r && s.hits == 0 && t == Step(stabs, typ, s)
    requires w == HitWindow(stabs, typ, s.l, s.r, s.key)
    ensures if t.hits == 0 then t.key == s.key && w == HitWindow(stabs, typ, t.l, t.r, t.key) else w == (t.l, t.r)
  {
  }

  lemma {:induction false} FirstHit(stabs: seq<Stab>, typ: int, lo: int, hi: int, addr: nat,
                                    s: Search, n: Search, w: (int, int))
    requires Inv(stabs, typ, lo, hi, addr, s) && s.hits == 0 && n == Narrow(stabs, typ, s)
    requires Sorted(stabs, typ, lo, hi) && NoWrap(stabs, typ, lo, hi)
    requires w == HitWindow(stabs, typ, s.l, s.r, addr)
    ensures n.hits >= 2 <==> Holds(stabs, typ, w.0, w.1, addr + 1)
    decreases s.r - s.l + 1
  {
    if s.l <= s.r {
      var t := Step(stabs, typ, s);
      if s.key >= UINT32_MAX {
        NotAtMost(stabs, typ, lo, hi, s.key);
      }
      StepKeepsInv(stabs, typ, lo, hi, addr, s, t);
      StepMoves(stabs, typ, s, t);
      HitWindowStep(stabs, typ, s, t, w);
      if t.hits == 0 {
        FirstHit(stabs, typ, lo, hi, addr, t, n, w);
      } else {
        SecondHit(stabs, typ, lo, hi, addr, t, n);
      }
    }
  }

  // ---------------------------------------------------------------------------
  // Main results
  // ---------------------------------------------------------------------------

  /** What the two region variables hold when `stab_binsearch` returns. */
  function BinSearch(stabs: seq<Stab>, typ: int, lo: int, hi: int, addr: nat): (b: (int, int))
    requires 0 <= lo <= hi + 1 <= |stabs|
    ensures lo - 1 <= b.0 <= b.1 + 1
    ensures lo - 1 <= b.1 <= hi
    ensures b.0 <= b.1 || b.0 == lo
  {
    NarrowStaysBounded(stabs, typ, lo, hi, Start(lo, hi, addr));
    Settle(stabs, typ, Narrow(stabs, typ, Start(lo, hi, addr)))
  }

  /** On every sorted region, the search is the linear scan, unless both `addr`
      and `addr + 1` are entries. */
  lemma SearchIsScan(stabs: seq<Stab>, typ: int, lo: int, hi: int, addr: nat)
    requires 0 <= lo <= hi + 1 <= |stabs|
    requires Sorted(stabs, typ, lo, hi) && Unambiguous(stabs, typ, lo, hi, addr)
    ensures BinSearch(stabs, typ, lo, hi, addr) == Scan(stabs, typ, lo, hi, addr)
  {
    var n := Narrow(stabs, typ, Start(lo, hi, addr));
    NarrowUnambiguous(stabs, typ, lo, hi, addr, Start(lo, hi, addr), n);
    SettledIsScan(stabs, typ, lo, hi, addr, n);
  }

  /** For every sorted region and every address, the search agrees with the linear
      scan iff no entry for `addr + 1` is in the window of the first exact hit. */
  lemma SearchIsScanIff(stabs: seq<Stab>, typ: int, lo: int, hi: int, addr: nat)
    requires 0 <= lo <= hi + 1 <= |stabs|
    requires Sorted(stabs, typ, lo, hi) && NoWrap(stabs, typ, lo, hi)
    ensures BinSearch(stabs, typ, lo, hi, addr) == Scan(stabs, typ, lo, hi, addr)
            <==> !BumpHits(stabs, typ, lo, hi, addr)
  {
    var s := Start(lo, hi, addr);
    var t := Narrow(stabs, typ, s);
    NarrowKeepsInv(stabs, typ, lo, hi, addr, s, t);
    FirstHit(stabs, typ, lo, hi, addr, s, t, HitWindow(stabs, typ, lo, hi, addr));
    if t.hits <= 1 {
      SettledIsScan(stabs, typ, lo, hi, addr, t);
    } else {
      BumpedTwiceIsWrong(stabs, typ, lo, hi, addr, t);
    }
  }

  /** The comment in the source promises `left > right` when no entry contains
      `addr`. On a sorted region it is so iff the region has no entry of the type:
      when there are entries and all lie above `addr`, the region before the first
      of them is returned. */
  lemma MissIsReportedIff(stabs: seq<Stab>, typ: int, lo: int, hi: int, addr: nat)
    requires 0 <= lo <= hi + 1 <= |stabs|
    requires Sorted(stabs, typ, lo, hi) && Unambiguous(stabs, typ, lo, hi, addr)
    requires LastAtMost(stabs, typ, lo, hi, addr) < lo
    ensures var (left, right) := BinSearch(stabs, typ, lo, hi, addr);
            left > right <==> forall i {:trigger At(stabs, typ, i)} :: lo <= i <= hi ==> !At(stabs, typ, i)
  {
    SearchIsScan(stabs, typ, lo, hi, addr);
    var first := NextOf(stabs, typ, lo, hi);
    assert first <= hi ==> At(stabs, typ, first);
  }

  lemma {:induction false} FindDownRegion(stabs: seq<Stab>, other: seq<Stab>, typ: int, lo: int, m: int, from: int)
    requires 0 <= from <= lo && m < |stabs| && m < |other|
    requires forall i :: from <= i <= m ==> stabs[i] == other[i]
    ensures FindDown(stabs, typ, lo, m) == FindDown(other, typ, lo, m)
    decreases m - lo
  {
    if m >= lo && stabs[m].typ != typ {
      FindDownRegion(stabs, other, typ, lo, m - 1, from);
    }
  }

  /** Two tables agree on a region. */
  ghost predicate Agree(stabs: seq<Stab>, other: seq<Stab>, lo: int, hi: int)
    requires 0 <= lo && hi < |stabs| && hi < |other|
  {
    forall i :: lo <= i <= hi ==> stabs[i] == other[i]
  }

  lemma StepRegionOnly(stabs: seq<Stab>, other: seq<Stab>, typ: int, lo: int, hi: int, s: Search)
    requires Bounded(stabs, lo, hi, s) && hi < |other| && Agree(stabs, other, lo, hi) && s.l <= s.r
    ensures s.InTable(other) && Step(stabs, typ, s) == Step(other, typ, s)
  {
    FindDownRegion(stabs, other, typ, s.l, (s.l + s.r) / 2, lo);
  }

  lemma {:induction false} NarrowRegionOnly(stabs: seq<Stab>, other: seq<Stab>, typ: int, lo: int, hi: int,
                                            s: Search, n: Search)
    requires Bounded(stabs, lo, hi, s) && hi < |other| && n == Narrow(stabs, typ, s)
    requires Agree(stabs, other, lo, hi)
    ensures s.InTable(other) && n == Narrow(other, typ, s)
    decreases s.r - s.l + 1, if s.l <= s.r && stabs[s.l].value == s.key then 1 else 0
  {
    if s.l <= s.r {
      var t := Step(stabs, typ, s);
      StepRegionOnly(stabs, other, typ, lo, hi, s);
      StepStaysBounded(stabs, typ, lo, hi, s);
      StepMoves(stabs, typ, s, t);
      NarrowRegionOnly(stabs, other, typ, lo, hi, t, n);
    }
  }

  /** On every table, sorted or not, the search depends on the entries inside its
      region only: no read outside the region matters. */
  lemma SearchReadsRegionOnly(stabs: seq<Stab>, other: seq<Stab>, typ: int, lo: int, hi: int, addr: nat)
    requires 0 <= lo <= hi + 1 <= |stabs| && hi < |other|
    requires Agree(stabs, other, lo, hi)
    ensures BinSearch(stabs, typ, lo, hi, addr) == BinSearch(other, typ, lo, hi, addr)
  {
    var s := Start(lo, hi, addr);
    var t := Narrow(stabs, typ, s);
    NarrowRegionOnly(stabs, other, typ, lo, hi, s, t);
    NarrowStaysBounded(stabs, typ, lo, hi, s);
    FindDownRegion(stabs, other, typ, t.left + 1, t.right, lo);
  }

  /** The number of iterations of the outer loop. */
  function Probes(stabs: seq<Stab>, typ: int, lo: int, hi: int, addr: nat): nat
    requires 0 <= lo <= hi + 1 <= |stabs|
  {
    Narrow(stabs, typ, Start(lo, hi, addr)).probes
  }

  /** Iterations from a state on. */
  function Iterations(stabs: seq<Stab>, typ: int, s: Search): nat
    requires s.InTable(stabs)
    decreases s.r - s.l + 1, if s.l <= s.r && stabs[s.l].value == s.key then 1 else 0
  {
    if s.l <= s.r then 1 + Iterations(stabs, typ, Step(stabs, typ, s)) else 0
  }

  lemma {:induction false} ProbesAreIterations(stabs: seq<Stab>, typ: int, s: Search, n: Search)
    requires s.InTable(stabs) && n == Narrow(stabs, typ, s)
    ensures n.probes == s.probes + Iterations(stabs, typ, s)
    decreases s.r - s.l + 1, if s.l <= s.r && stabs[s.l].value == s.key then 1 else 0
  {
    if s.l <= s.r {
      var t := Step(stabs, typ, s);
      StepHalves(stabs, typ, s, t);
      StepMoves(stabs, typ, s, t);
      ProbesAreIterations(stabs, typ, t, n);
    }
  }

  /** The search is logarithmic although an exact hit may move neither bound. */
  lemma SearchIsLogarithmic(stabs: seq<Stab>, typ: int, lo: int, hi: int, addr: nat)
    requires 0 <= lo <= hi < |stabs|
    requires Sorted(stabs, typ, lo, hi) && Unambiguous(stabs, typ, lo, hi, addr)
    ensures Probes(stabs, typ, lo, hi, addr) <= Log2(hi - lo + 1) + 2
    ensures Probes(stabs, typ, lo, hi, addr) == Iterations(stabs, typ, Start(lo, hi, addr))
  {
    ProbesAreIterations(stabs, typ, Start(lo, hi, addr), Narrow(stabs, typ, Start(lo, hi, addr)));
    var n := Narrow(stabs, typ, Start(lo, hi, addr));
    NarrowUnambiguous(stabs, typ, lo, hi, addr, Start(lo, hi, addr), n);
    NarrowProbes(stabs, typ, Start(lo, hi, addr), n);
  }

  /** A table of two functions one byte apart on which the search answers with the
      wrong one: the entry for 0xf0100001 is reported as containing 0xf0100000. */
  lemma AdjacentEntriesMislead()
    ensures var stabs := [Stab(0, N_FUN, 0xf010_0000), Stab(0, N_FUN, 0xf010_0001)];
            && BinSearch(stabs, N_FUN, 0, 1, 0xf010_0000) == (1, 1)
            && Scan(stabs, N_FUN, 0, 1, 0xf010_0000) == (0, 0)
  {
    var addr := 0xf010_0000;
    var stabs := [Stab(0, N_FUN, addr), Stab(0, N_FUN, addr + 1)];
    var s1 := Step(stabs, N_FUN, Start(0, 1, addr));
    var s2 := Step(stabs, N_FUN, s1);
    var s3 := Step(stabs, N_FUN, s2);
    assert s3 == Search(1, 1, addr + 2, 1, 1, true, 3, 2);
    assert Step(stabs, N_FUN, s3) == Search(2, 1, addr + 2, 1, 1, true, 4, 2);
    assert Narrow(stabs, N_FUN, s3) == Search(2, 1, addr + 2, 1, 1, true, 4, 2);
    assert Narrow(stabs, N_FUN, s1) == Narrow(stabs, N_FUN, s3);
  }

  /** At the largest 32-bit value `addr++` wraps to 0, and every entry lies above the
      key: the entry for that value is not found. */
  lemma WrapMisleads()
    ensures var stabs := [Stab(0, N_FUN, 0xf010_0000), Stab(0, N_FUN, 0xffff_ffff)];
            && BinSearch(stabs, N_FUN, 0, 1, 0xffff_ffff) == (0, 0)
            && Scan(stabs, N_FUN, 0, 1, 0xffff_ffff) == (1, 1)
  {
    var addr := 0xffff_ffff;
    var stabs := [Stab(0, N_FUN, 0xf010_0000), Stab(0, N_FUN, addr)];
    var s1 := Step(stabs, N_FUN, Start(0, 1, addr));
    var s2 := Step(stabs, N_FUN, s1);
    var s3 := Step(stabs, N_FUN, s2);
    assert s2 == Search(1, 1, 0, 1, 1, true, 2, 1);
    assert s3 == Search(1, 0, 0, 1, 0, true, 3, 1);
    assert Narrow(stabs, N_FUN, s3) == s3;
    assert Narrow(stabs, N_FUN, s1) == Narrow(stabs, N_FUN, s2) == s3;
    assert LastAtMost(stabs, N_FUN, 0, 1, addr) == 1;
  }

  /** A table in which nothing contains 0xf0100000, and on which the search returns
      a region with left <= right all the same: the file entry before the first
      function. */
  lemma MissIsNotReported()
    ensures var stabs := [Stab(0, N_SO, 0xf010_0000), Stab(0, N_FUN, 0xf010_0004)];
            && LastAtMost(stabs, N_FUN, 0, 1, 0xf010_0000) == -1
            && BinSearch(stabs, N_FUN, 0, 1, 0xf010_0000) == (0, 0)
  {
    var stabs := [Stab(0, N_SO, 0xf010_0000), Stab(0, N_FUN, 0xf010_0004)];
    SearchIsScan(stabs, N_FUN, 0, 1, 0xf010_0000);
    assert NextOf(stabs, N_FUN, 0, 1) == 1;
    assert At(stabs, N_FUN, 1) && !At(stabs, N_FUN, 0);
  }

  // ---------------------------------------------------------------------------
  // The C function
  // ---------------------------------------------------------------------------

  /** Both inner walks: from `start` down to the nearest entry of the type that is
      not below `lo`. */
  method WalkDown(stabs: seq<Stab>, typ: int, lo: int, start: int) returns (m: int)
    requires 0 <= lo && start < |stabs|
    ensures m == FindDown(stabs, typ, lo, start)
  {
    m := start;
    while m >= lo && stabs[m].typ != typ
      invariant m <= start
      invariant FindDown(stabs, typ, lo, m) == FindDown(stabs, typ, lo, start)
    {
      m := m - 1;
    }
  }

  /** The variables of the loop are in state `s`. */
  ghost predicate InState(s: Search, l: int, r: int, key: int, left: int, right: int, anyMatches: bool)
  {
    s.l == l && s.r == r && s.key == key && s.left == left && s.right == right && s.matched == anyMatches
  }

  /** The body of the outer loop: the new values of its variables. */
  method Probe(stabs: seq<Stab>, typ: int, l0: int, r0: int, key0: int, left0: int, right0: int, any0: bool,
               ghost s: Search)
    returns (l: int, r: int, key: int, left: int, right: int, anyMatches: bool)
    requires s.InTable(stabs) && s.l <= s.r && InState(s, l0, r0, key0, left0, right0, any0)
    ensures InState(Step(stabs, typ, s), l, r, key, left, right, anyMatches)
  {
    l, r, key, left, right, anyMatches := l0, r0, key0, left0, right0, any0;
    var trueM := (l + r) / 2;
    var m := WalkDown(stabs, typ, l, trueM);
    if m < l {
      l := trueM + 1;
      return;
    }
    anyMatches := true;
    if stabs[m].value < key {
      left := m;
      l := trueM + 1;
    } else if stabs[m].value > key {
      right := m - 1;
      r := m - 1;
    } else {
      left := m;
      l := m;
      key := Bump(key);
    }
  }

  /** `stab_binsearch(stabs, &left, &right, typ, addr)`. The in-out parameters are
      `lo`, `hi` on entry and `left`, `right` on return; `probes` counts the
      iterations of the outer loop. It may be called on any region of any table. */
  method StabBinsearch(stabs: seq<Stab>, lo: int, hi: int, typ: int, addr: nat)
    returns (left: int, right: int, ghost probes: nat)
    requires 0 <= lo <= hi + 1 <= |stabs|
    ensures (left, right) == BinSearch(stabs, typ, lo, hi, addr)
    ensures probes == Probes(stabs, typ, lo, hi, addr)
  {
    var l, r, anyMatches, key := lo, hi, false, addr;
    left, right := lo, hi;
    ghost var s := Start(lo, hi, addr);
    ghost var end := Narrow(stabs, typ, s);
    probes := 0;
    while l <= r
      invariant InState(s, l, r, key, left, right, anyMatches) && s.probes == probes
      invariant Bounded(stabs, lo, hi, s)
      invariant Narrow(stabs, typ, s) == end
      decreases r - l + 1, if l <= r && stabs[l].value == key then 1 else 0
    {
      StepStaysBounded(stabs, typ, lo, hi, s);
      l, r, key, left, right, anyMatches := Probe(stabs, typ, l, r, key, left, right, anyMatches, s);
      s := Step(stabs, typ, s);
      probes := probes + 1;
    }
    if !anyMatches {
      right := left - 1;
    } else {
      left := WalkDown(stabs, typ, left + 1, right);
    }
  }
}
