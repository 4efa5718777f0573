/**
 * The two arena allocators of the engine: a single bump region and the
 * double-ended stack (front cursor growing up from 0, back cursor growing
 * down from len) that owns every byte the circuit solver uses.
 *
 * Sizes are unbounded naturals; the machine word (sizeof(size_t)) is the
 * 8 bytes of a 64-bit host. Buffers are arrays of bytes.
 */
module Mem {

  import opened Maybe
  import opened Arith

  /** sizeof(size_t) on a 64-bit host: every request is rounded up to it. */
  const WORD: nat := 8

  // ---------------------------------------------------------------------
  // Alignment: (size + (align - 1)) & ~(align - 1)
  // ---------------------------------------------------------------------

  /** Bitwise x & ~m on naturals (two's-complement ~m has every high bit set). */
  function AndNot(x: nat, m: nat): nat
    decreases x
  {
    if x == 0 then 0
    else 2 * AndNot(x / 2, m / 2) + (if x % 2 == 1 && m % 2 == 0 then 1 else 0)
  }

  predicate IsPow2(a: nat)
    decreases a
  {
    a == 1 || (a >= 2 && a % 2 == 0 && IsPow2(a / 2))
  }

  predicate IsMultiple(m: nat, a: nat)
    requires a >= 1
  {
    m % a == 0
  }

  /** The rounding every allocation applies to its byte count. */
  function AlignSize(size: nat, align: nat): nat
    requires align >= 1
  {
    AndNot(size + (align - 1), align - 1)
  }

  lemma {:induction false} AndNotZero(x: nat)
    ensures AndNot(x, 0) == x
    decreases x
  {
    if x != 0 {
      AndNotZero(x / 2);
    }
  }

  /** One more low bit: x = 2q + b with q = k*h + r leaves remainder 2r + b modulo 2h. */
  lemma LowBitStep(x: nat, h: nat, q: nat, b: nat, k: nat, r: nat)
    requires h >= 1 && b < 2 && r < h && x == 2 * q + b && q == k * h + r
    ensures x % (2 * h) == 2 * r + b
    ensures x - x % (2 * h) == 2 * (q - r)
  {
    assert x == k * (2 * h) + (2 * r + b);
    DivModUnique(x, 2 * h, k, 2 * r + b);
  }

  /** AndNot with an odd mask drops the low bit. */
  lemma AndNotOddMask(x: nat, m: nat)
    requires x != 0 && m % 2 == 1
    ensures AndNot(x, m) == 2 * AndNot(x / 2, m / 2)
  {
  }

  /** Clearing the low bits below a power of two truncates to a multiple of it. */
  lemma {:induction false} AndNotLowMask(x: nat, a: nat)
    requires IsPow2(a)
    ensures AndNot(x, a - 1) == x - x % a
    decreases a
  {
    if a == 1 {
      AndNotZero(x);
      DivModUnique(x, a, x, 0);
    } else if x == 0 {
      DivModUnique(x, a, 0, 0);
    } else {
      var h := a / 2;
      assert a == 2 * h && h >= 1 && IsPow2(h);
      assert (a - 1) / 2 == h - 1 && (a - 1) % 2 == 1;
      AndNotOddMask(x, a - 1);
      AndNotLowMask(x / 2, h);
      HalveRemainder(x, h);
    }
  }

  /** Truncating x to a multiple of 2h is truncating x / 2 to a multiple of h, doubled. */
  lemma HalveRemainder(x: nat, h: nat)
    requires h >= 1
    ensures x - x % (2 * h) == 2 * (x / 2 - (x / 2) % h)
  {
    var q := x / 2;
    DivModDef(x, 2);
    DivModDef(q, h);
    LowBitStep(x, h, q, x % 2, q / h, q % h);
  }

  /** For a power-of-two alignment, AlignSize is the least multiple of align that is >= size. */
  lemma AlignSizeIsLeastMultiple(size: nat, align: nat)
    requires IsPow2(align)
    ensures IsMultiple(AlignSize(size, align), align)
    ensures size <= AlignSize(size, align) < size + align
    ensures forall m: nat :: m >= size && IsMultiple(m, align) ==> AlignSize(size, align) <= m
  {
    var y := size + (align - 1);
    var t, u := y / align, y % align;
    DivModDef(y, align);
    AndNotLowMask(y, align);
    var r := AlignSize(size, align);
    assert r == t * align;
    DivModUnique(r, align, t, 0);
    forall m: nat | m >= size && IsMultiple(m, align)
      ensures r <= m
    {
      var t' := m / align;
      DivModDef(m, align);
      if t' > t {
        MulDiffAtLeast(t', t, align);
      } else if t' < t {
        MulDiffAtLeast(t, t', align);
      }
    }
  }

  /** The rounding applied with the host word: WORD is a power of two. */
  lemma WordAlign(size: nat)
    ensures IsMultiple(AlignSize(size, WORD), WORD)
    ensures size <= AlignSize(size, WORD) < size + WORD
  {
    assert IsPow2(WORD) by {
      assert IsPow2(1) && IsPow2(2) && IsPow2(4);
    }
    AlignSizeIsLeastMultiple(size, WORD);
  }

  /** A size that is already a multiple of the word is not rounded. */
  lemma WordAlignExact(size: nat)
    requires IsMultiple(size, WORD)
    ensures AlignSize(size, WORD) == size
  {
    assert IsPow2(WORD) by {
      assert IsPow2(1) && IsPow2(2) && IsPow2(4);
    }
    AlignSizeIsLeastMultiple(size, WORD);
  }

  // ---------------------------------------------------------------------
  // Zero-filling (memset(p, 0, n))
  // ---------------------------------------------------------------------

  /** after equals before except that [start, start + count) holds zeros. */
  ghost predicate ZeroFilled(after: seq<bv8>, before: seq<bv8>, start: nat, count: nat)
  {
    |after| == |before| &&
    forall k :: 0 <= k < |after| ==> after[k] == if start <= k < start + count then 0 else before[k]
  }

  method Memset(a: array<bv8>, start: nat, count: nat)
    requires start + count <= a.Length
    modifies a
    ensures ZeroFilled(a[..], old(a[..]), start, count)
  {
    var k := start;
    while k < start + count
      invariant start <= k <= start + count
      invariant forall j :: 0 <= j < a.Length ==> a[j] == if start <= j < k then 0 else old(a[j])
    {
      a[k] := 0;
      k := k + 1;
    }
  }

  // ---------------------------------------------------------------------
  // Region allocator (struct TIMemRegion)
  // ---------------------------------------------------------------------

  /** region_alloc_reset_when_full as written: cursor arithmetic only. */
  datatype Rewind = Rewind(start: nat, offs: nat, wasReset: bool)

  function ResetWhenFullAsWritten(offs: nat, len: nat, bytes: nat): (w: Rewind)
  {
    var o := if offs + bytes >= len then 0 else offs;
    Rewind(o, o + bytes, offs + bytes >= len)
  }

  /** The block handed out by the code as written can run past the end of the buffer. */
  lemma ResetWhenFullOverruns()
    ensures var w := ResetWhenFullAsWritten(0, 16, AlignSize(20, WORD));
      w.wasReset && w.start + AlignSize(20, WORD) > 16 && w.offs > 16
  {
    assert AlignSize(20, WORD) == 24;
  }

  class Region {
    const mem: array<bv8>
    const len: nat
    var offs: nat

    ghost predicate Valid()
      reads this
    {
      offs <= len <= mem.Length
    }

    /** region_make */
    constructor (buf: array<bv8>, len: nat)
      requires len <= buf.Length
      ensures Valid() && mem == buf && this.len == len && offs == 0
    {
      mem := buf;
      this.len := len;
      offs := 0;
    }

    /** region_reset: rewinds the cursor, the bytes are untouched. */
    method Reset()
      requires Valid()
      modifies this`offs
      ensures Valid() && offs == 0
    {
      offs := 0;
    }

    /** region_alloc */
    method Alloc(size: nat) returns (r: Option<nat>)
      requires Valid()
      modifies this`offs, mem
      ensures Valid()
      ensures var bytes := AlignSize(size, WORD);
        if old(offs) + bytes >= len then
          r == None && offs == old(offs) && mem[..] == old(mem[..])
        else
          r == Some(old(offs)) && offs == old(offs) + bytes &&
          ZeroFilled(mem[..], old(mem[..]), old(offs), bytes)
    {
      var bytes := AlignSize(size, WORD);
      if offs + bytes >= len {
        return None;
      }
      var at := offs;
      offs := offs + bytes;
      Memset(mem, at, bytes);
      r := Some(at);
    }

    /**
     * region_alloc_reset_when_full, corrected: it never fails, and it rewinds
     * to the start of the buffer when the request does not fit behind offs.
     * The request must fit an empty region (see ResetWhenFullOverruns).
     */
    method AllocResetWhenFull(size: nat, wasReset: bool) returns (r: nat, wasReset': bool)
      requires Valid() && AlignSize(size, WORD) <= len
      modifies this`offs, mem
      ensures Valid()
      ensures var bytes := AlignSize(size, WORD);
        var full := old(offs) + bytes >= len;
        r == (if full then 0 else old(offs)) && offs == r + bytes &&
        wasReset' == (full || wasReset) &&
        ZeroFilled(mem[..], old(mem[..]), r, bytes)
    {
      var bytes := AlignSize(size, WORD);
      wasReset' := wasReset;
      if offs + bytes >= len {
        offs := 0;
        wasReset' := true;
      }
      r := offs;
      offs := offs + bytes;
      Memset(mem, r, bytes);
    }

    /** region_size_remaining */
    function SizeRemaining(): (r: int)
      reads this
      requires Valid()
      ensures 0 <= r <= len && offs + r == len
    {
      len - offs
    }
  }

  // ---------------------------------------------------------------------
  // Double-ended stack (struct TIBiStack)
  // ---------------------------------------------------------------------

  /** The two cursors of a double-ended stack. */
  datatype Cursors = Cursors(front: nat, back: nat)

  /** Success condition of bistack_alloc_front: not (front + bytes >= back). */
  predicate FrontFits(c: Cursors, bytes: nat)
  {
    c.front + bytes < c.back
  }

  /**
   * Success condition of bistack_alloc_back: not (back - bytes <= front),
   * with the subtraction taken over the integers (see BackGuardAsWritten).
   */
  predicate BackFits(c: Cursors, bytes: nat)
  {
    c.back - bytes > c.front
  }

  /** The guard of bistack_alloc_back as written: the size_t subtraction wraps. */
  predicate BackGuardAsWritten(c: Cursors, bytes: nat)
  {
    (c.back - bytes) % 0x1_0000_0000_0000_0000 > c.front
  }

  /** With a request bigger than back, the written guard lets the allocation through. */
  lemma BackGuardWraps()
    ensures BackGuardAsWritten(Cursors(0, 16), AlignSize(24, WORD))
    ensures !BackFits(Cursors(0, 16), AlignSize(24, WORD))
  {
    assert AlignSize(24, WORD) == 24;
  }

  /** Wherever the subtraction does not wrap, the written guard is the corrected one. */
  lemma BackGuardAgrees(c: Cursors, bytes: nat)
    requires bytes <= c.back < 0x1_0000_0000_0000_0000
    ensures BackGuardAsWritten(c, bytes) <==> BackFits(c, bytes)
  {
  }

  datatype Request = FrontReq(size: nat) | BackReq(size: nat)

  function Bytes(q: Request): nat
  {
    AlignSize(q.size, WORD)
  }

  /** One allocation on the cursors: the new cursors and the block start, or None. */
  function Step(c: Cursors, q: Request): (Cursors, Option<nat>)
  {
    var bytes := Bytes(q);
    match q
    case FrontReq(_) =>
      if FrontFits(c, bytes) then (Cursors(c.front + bytes, c.back), Some(c.front))
      else (c, None)
    case BackReq(_) =>
      if BackFits(c, bytes) then (Cursors(c.front, c.back - bytes), Some(c.back - bytes))
      else (c, None)
  }

  /** A run of allocations, in order: the final cursors and every block start. */
  function Run(c: Cursors, qs: seq<Request>): (Cursors, seq<Option<nat>>)
    decreases |qs|
  {
    if qs == [] then (c, [])
    else
      var (c', r) := Step(c, qs[0]);
      var (c'', rs) := Run(c', qs[1..]);
      (c'', [r] + rs)
  }

  function Total(qs: seq<Request>): nat
    decreases |qs|
  {
    if qs == [] then 0 else Bytes(qs[0]) + Total(qs[1..])
  }

  predicate Disjoint(s1: nat, n1: nat, s2: nat, n2: nat)
  {
    s1 + n1 <= s2 || s2 + n2 <= s1
  }

  /**
   * Block r of request q lies in the space the run moved over: a front block
   * between the old and the new front cursor, a back block between the new
   * and the old back cursor.
   */
  predicate Placed(q: Request, r: Option<nat>, c: Cursors, c': Cursors)
  {
    r.Some? &&
    (q.FrontReq? ==> c.front <= r.value && r.value + Bytes(q) <= c'.front) &&
    (q.BackReq? ==> c'.back <= r.value && r.value + Bytes(q) <= c.back)
  }

  /** A request smaller than the gap succeeds and narrows the gap by its aligned size. */
  lemma StepSucceeds(c: Cursors, q: Request)
    requires c.front + Bytes(q) < c.back
    ensures var (c', r) := Step(c, q);
      Placed(q, r, c, c') &&
      c'.back - c'.front == c.back - c.front - Bytes(q) &&
      c.front <= c'.front && c'.back <= c.back
  {
  }

  /** A run whose aligned total stays below the gap: every block lies in the space it moved over. */
  lemma {:induction false} RunPlaced(c: Cursors, qs: seq<Request>)
    requires c.front + Total(qs) < c.back
    ensures var (c', rs) := Run(c, qs);
      |rs| == |qs| &&
      c'.back - c'.front == c.back - c.front - Total(qs) &&
      c.front <= c'.front && c'.back <= c.back &&
      (forall k :: 0 <= k < |rs| ==> Placed(qs[k], rs[k], c, c'))
    decreases |qs|
  {
    if qs != [] {
      var (c1, r) := Step(c, qs[0]);
      StepSucceeds(c, qs[0]);
      RunPlaced(c1, qs[1..]);
      var (c', rs') := Run(c1, qs[1..]);
      var rs := [r] + rs';
      assert Run(c, qs) == (c', rs);
      forall k | 0 <= k < |rs|
        ensures Placed(qs[k], rs[k], c, c')
      {
        if k > 0 {
          assert rs[k] == rs'[k - 1] && qs[k] == qs[1..][k - 1];
          assert Placed(qs[1..][k - 1], rs'[k - 1], c1, c');
        }
      }
    }
  }

  /** The blocks of such a run are pairwise disjoint. */
  lemma {:induction false} RunDisjoint(c: Cursors, qs: seq<Request>)
    requires c.front + Total(qs) < c.back
    ensures var (c', rs) := Run(c, qs);
      |rs| == |qs| &&
      (forall k :: 0 <= k < |rs| ==> rs[k].Some?) &&
      (forall k, l :: 0 <= k < l < |rs| ==>
         Disjoint(rs[k].value, Bytes(qs[k]), rs[l].value, Bytes(qs[l])))
    decreases |qs|
  {
    if qs != [] {
      var (c1, r) := Step(c, qs[0]);
      StepSucceeds(c, qs[0]);
      RunPlaced(c1, qs[1..]);
      RunDisjoint(c1, qs[1..]);
      var (c', rs') := Run(c1, qs[1..]);
      var rs := [r] + rs';
      assert Run(c, qs) == (c', rs);
      forall k | 0 <= k < |rs|
        ensures rs[k].Some?
      {
        if k > 0 {
          assert rs[k] == rs'[k - 1];
        }
      }
      forall k, l | 0 <= k < l < |rs|
        ensures Disjoint(rs[k].value, Bytes(qs[k]), rs[l].value, Bytes(qs[l]))
      {
        assert rs[l] == rs'[l - 1] && qs[l] == qs[1..][l - 1];
        if k > 0 {
          assert rs[k] == rs'[k - 1] && qs[k] == qs[1..][k - 1];
        } else {
          assert Placed(qs[1..][l - 1], rs'[l - 1], c1, c');
        }
      }
    }
  }

  /**
   * Any run of front and back allocations whose aligned total stays below the
   * gap between the cursors succeeds throughout; every block lies in the gap,
   * the blocks are pairwise disjoint, and the cursors end as far apart as the
   * total says.
   */
  lemma RunSucceeds(c: Cursors, qs: seq<Request>)
    requires c.front + Total(qs) < c.back
    ensures var (c', rs) := Run(c, qs);
      |rs| == |qs| &&
      c'.back - c'.front == c.back - c.front - Total(qs) &&
      c.front <= c'.front && c'.back <= c.back &&
      (forall k :: 0 <= k < |rs| ==> Placed(qs[k], rs[k], c, c')) &&
      (forall k, l :: 0 <= k < l < |rs| ==>
         Disjoint(rs[k].value, Bytes(qs[k]), rs[l].value, Bytes(qs[l])))
  {
    RunPlaced(c, qs);
    RunDisjoint(c, qs);
  }

  /** A failing allocation leaves both cursors as they were. */
  lemma StepFailureKeepsCursors(c: Cursors, q: Request)
    ensures Step(c, q).1.None? ==> Step(c, q).0 == c
    ensures Step(c, q).1.None? <==>
      (if q.FrontReq? then c.front + Bytes(q) >= c.back else c.back - Bytes(q) <= c.front)
  {
  }

  predicate AllSucceeded(rs: seq<Option<nat>>)
  {
    forall k :: 0 <= k < |rs| ==> rs[k].Some?
  }

  /**
   * Rewinding the front cursor and replaying front allocations that once
   * succeeded always succeeds again while the back cursor has not come closer.
   */
  lemma {:induction false} ReplayAfterResetFront(c: Cursors, qs: seq<Request>, back: nat)
    requires forall k :: 0 <= k < |qs| ==> qs[k].FrontReq?
    requires AllSucceeded(Run(c, qs).1)
    requires c.back <= back
    ensures AllSucceeded(Run(Cursors(0, back), qs).1)
    decreases |qs|
  {
    if qs != [] {
      var (c1, r) := Step(c, qs[0]);
      assert Run(c, qs).1 == [r] + Run(c1, qs[1..]).1;
      assert r.Some? by { assert Run(c, qs).1[0] == r; }
      var d1 := Step(Cursors(0, back), qs[0]).0;
      assert AllSucceeded(Run(c1, qs[1..]).1) by {
        forall k | 0 <= k < |Run(c1, qs[1..]).1| ensures Run(c1, qs[1..]).1[k].Some? {
          assert Run(c1, qs[1..]).1[k] == Run(c, qs).1[k + 1];
        }
      }
      ReplayFrom(c1, d1, qs[1..]);
    }
  }

  /** Replaying front requests from a cursor pair with at least as much room. */
  lemma {:induction false} ReplayFrom(c: Cursors, d: Cursors, qs: seq<Request>)
    requires forall k :: 0 <= k < |qs| ==> qs[k].FrontReq?
    requires AllSucceeded(Run(c, qs).1)
    requires d.front <= c.front && c.back <= d.back
    ensures AllSucceeded(Run(d, qs).1)
    decreases |qs|
  {
    if qs != [] {
      var (c1, r) := Step(c, qs[0]);
      var (d1, s) := Step(d, qs[0]);
      assert Run(c, qs).1 == [r] + Run(c1, qs[1..]).1;
      assert Run(d, qs).1 == [s] + Run(d1, qs[1..]).1;
      assert r.Some? by { assert Run(c, qs).1[0] == r; }
      assert AllSucceeded(Run(c1, qs[1..]).1) by {
        forall k | 0 <= k < |Run(c1, qs[1..]).1| ensures Run(c1, qs[1..]).1[k].Some? {
          assert Run(c1, qs[1..]).1[k] == Run(c, qs).1[k + 1];
        }
      }
      ReplayFrom(c1, d1, qs[1..]);
    }
  }

  class BiStack {
    const mem: array<bv8>
    const len: nat
    var front: nat
    var back: nat

    ghost predicate Valid()
      reads this
    {
      front <= back <= len <= mem.Length
    }

    ghost function Cur(): Cursors
      reads this
    {
      Cursors(front, back)
    }

    /** bistack_make */
    constructor (buf: array<bv8>, len: nat)
      requires len <= buf.Length
      ensures Valid() && mem == buf && this.len == len
      ensures front == 0 && back == len
    {
      mem := buf;
      this.len := len;
      front := 0;
      back := len;
    }

    /** bistack_reset */
    method Reset()
      requires Valid()
      modifies this`front, this`back
      ensures Valid() && front == 0 && back == len
    {
      front := 0;
      back := len;
    }

    /** bistack_reset_front */
    method ResetFront()
      requires Valid()
      modifies this`front
      ensures Valid() && front == 0
    {
      front := 0;
    }

    /** bistack_reset_back */
    method ResetBack()
      requires Valid()
      modifies this`back
      ensures Valid() && back == len
    {
      back := len;
    }

    /** The block of `bytes` bytes at the front cursor (shared by both front allocations). */
    method TakeFront(bytes: nat) returns (r: Option<nat>)
      requires Valid()
      modifies this`front, mem
      ensures Valid()
      ensures if old(front) + bytes >= back then
          r == None && front == old(front) && mem[..] == old(mem[..])
        else
          r == Some(old(front)) && front == old(front) + bytes &&
          ZeroFilled(mem[..], old(mem[..]), old(front), bytes)
    {
      if front + bytes >= back {
        return None;
      }
      var at := front;
      front := front + bytes;
      Memset(mem, at, bytes);
      r := Some(at);
    }

    /** bistack_alloc_front */
    method AllocFront(size: nat) returns (r: Option<nat>)
      requires Valid()
      modifies this`front, mem
      ensures Valid() && back == old(back)
      ensures (Cur(), r) == Step(old(Cur()), FrontReq(size))
      ensures r.Some? ==> ZeroFilled(mem[..], old(mem[..]), r.value, Bytes(FrontReq(size)))
      ensures r.None? ==> mem[..] == old(mem[..])
    {
      r := TakeFront(AlignSize(size, WORD));
    }

    /** bistack_alloc_front_vec: count elements of elemSize bytes each. */
    method AllocFrontVec(count: nat, elemSize: nat) returns (r: Option<nat>)
      requires Valid()
      modifies this`front, mem
      ensures Valid() && back == old(back)
      ensures (Cur(), r) == Step(old(Cur()), FrontReq(count * elemSize))
      ensures r.Some? ==> ZeroFilled(mem[..], old(mem[..]), r.value, Bytes(FrontReq(count * elemSize)))
      ensures r.None? ==> mem[..] == old(mem[..])
    {
      r := AllocFront(count * elemSize);
    }

    /** The block of `bytes` bytes below the back cursor (shared by both back allocations). */
    method TakeBack(bytes: nat) returns (r: Option<nat>)
      requires Valid()
      modifies this`back, mem
      ensures Valid()
      ensures if old(back) - bytes <= front then
          r == None && back == old(back) && mem[..] == old(mem[..])
        else
          r == Some(old(back) - bytes) && back == old(back) - bytes &&
          ZeroFilled(mem[..], old(mem[..]), back, bytes)
    {
      if back - bytes <= front {
        return None;
      }
      back := back - bytes;
      Memset(mem, back, bytes);
      r := Some(back);
    }

    /** bistack_alloc_back, with the guard's subtraction taken without wrap-around. */
    method AllocBack(size: nat) returns (r: Option<nat>)
      requires Valid()
      modifies this`back, mem
      ensures Valid() && front == old(front)
      ensures (Cur(), r) == Step(old(Cur()), BackReq(size))
      ensures r.Some? ==> ZeroFilled(mem[..], old(mem[..]), r.value, Bytes(BackReq(size)))
      ensures r.None? ==> mem[..] == old(mem[..])
    {
      r := TakeBack(AlignSize(size, WORD));
    }

    /** bistack_alloc_back_vec, with the same corrected guard. */
    method AllocBackVec(count: nat, elemSize: nat) returns (r: Option<nat>)
      requires Valid()
      modifies this`back, mem
      ensures Valid() && front == old(front)
      ensures (Cur(), r) == Step(old(Cur()), BackReq(count * elemSize))
      ensures r.Some? ==> ZeroFilled(mem[..], old(mem[..]), r.value, Bytes(BackReq(count * elemSize)))
      ensures r.None? ==> mem[..] == old(mem[..])
    {
      r := AllocBack(count * elemSize);
    }

    /** bistack_get_margins */
    function Margins(): (r: int)
      reads this
      requires Valid()
      ensures 0 <= r <= len && front + r == back
    {
      back - front
    }
  }
}
