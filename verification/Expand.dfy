/**
  Loading a compact program image (amx.cpp, `expand`).

  A compact image stores every cell as a code of one to five bytes, most significant
  seven bits first; all bytes but the last carry a continuation bit, and bit 6 of the
  first byte is the sign of the cell.  The loader decodes such an image in place and from
  the end backward.  A cell whose memory is still occupied by unread codes waits in a
  ring of delayed writes.

  `Codes` and `Value` are the specification: cut the image forward into codes, and decode
  one code forward.  `Expand` is the loop of the loader.
*/
module Compact {

  type byte = b: nat | b < 0x100
  type cell = c: nat | c < 0x1_0000_0000
  type Code = s: seq<byte> | s != [] witness [0]

  const MARGIN := 64     // AMX_COMPACTMARGIN, the number of slots in the ring
  const MAX_CODE := 5    // bytes after which a 32-bit cell is full

  // ----- forward decoding: the specification -----

  predicate Continues(b: byte) { b >= 0x80 }

  function Payload(b: byte): nat { b % 0x80 }

  predicate Negative(b: byte) { Payload(b) >= 0x40 }

  function Truncated(v: int): cell { v % 0x1_0000_0000 }

  /** The number of bytes of the first code, all of `s` when no code ends in it. */
  function CodeLength(s: seq<byte>): (k: nat)
    requires s != []
    ensures 1 <= k <= |s|
  {
    if |s| == 1 || !Continues(s[0]) then 1 else 1 + CodeLength(s[1..])
  }

  /** Cuts an image into its codes, first code first. */
  function Codes(s: seq<byte>): seq<Code> {
    if s == [] then [] else
      var k := CodeLength(s);
      [s[..k]] + Codes(s[k..])
  }

  predicate Complete(code: Code) {
    |code| <= MAX_CODE && !Continues(code[|code|-1])
  }

  /** Only the last code that `Codes` returns can be incomplete; none may be too long. */
  predicate WellFormed(codes: seq<Code>) {
    CompleteFrom(codes, 0)
  }

  predicate CompleteFrom(codes: seq<Code>, m: nat) {
    forall i :: m <= i < |codes| ==> Complete(codes[i])
  }

  function Accumulate(acc: int, code: seq<byte>): int
    decreases |code|
  {
    if code == [] then acc else Accumulate(acc * 0x80 + Payload(code[0]), code[1..])
  }

  /** The sign-extended cell of one code. */
  function Value(code: Code): cell {
    Truncated(Accumulate(if Negative(code[0]) then -1 else 0, code))
  }

  /** The cells that the codes stand for. */
  function Cells(codes: seq<Code>): (cells: seq<cell>)
    ensures |cells| == |codes|
    ensures forall i :: 0 <= i < |codes| ==> cells[i] == Value(codes[i])
  {
    seq(|codes|, i requires 0 <= i < |codes| => Value(codes[i]))
  }

  /** Byte `i` of a cell in memory, little endian. */
  function ByteOf(c: cell, i: nat): byte
    requires i < 4
  {
    match i
    case 0 => c % 0x100
    case 1 => c / 0x100 % 0x100
    case 2 => c / 0x1_0000 % 0x100
    case _ => c / 0x100_0000
  }

  /** The memory image of a block of cells. */
  function Image(cells: seq<cell>): (image: seq<byte>)
    ensures |image| == 4 * |cells|
  {
    seq(4 * |cells|, k requires 0 <= k < 4 * |cells| => ByteOf(cells[k / 4], k % 4))
  }

  /** The number of bytes taken by the first `m` codes. */
  function PrefixLength(codes: seq<Code>, m: nat): nat
    requires m <= |codes|
  {
    if m == 0 then 0 else PrefixLength(codes, m - 1) + |codes[m-1]|
  }

  /** The first `m` codes take at most 4*m + 255 bytes. */
  predicate FitsAt(codes: seq<Code>, m: nat)
    requires m <= |codes|
  {
    PrefixLength(codes, m) <= 4 * m + (4 * MARGIN - 1)
  }

  /** The delayed writes never exceed the ring, as long as more than MARGIN cells follow
      the first `m` only when those fit. */
  predicate RingFits(codes: seq<Code>) {
    forall m :: 1 <= m < |codes| - MARGIN ==> FitsAt(codes, m)
  }

  // ----- cutting from the end -----

  /** `p` is where the last code of `s` starts. */
  predicate LastCodeAt(s: seq<byte>, p: nat) {
    && p < |s|
    && (p == 0 || !Continues(s[p-1]))
    && forall i :: p <= i < |s| - 1 ==> Continues(s[i])
  }

  function LastStart(s: seq<byte>, p: nat): (start: nat)
    requires p < |s| && forall i :: p <= i < |s| - 1 ==> Continues(s[i])
    ensures start <= p && LastCodeAt(s, start)
  {
    if p == 0 || !Continues(s[p-1]) then p else LastStart(s, p - 1)
  }

  lemma {:induction false} CodeLengthStops(s: seq<byte>)
    requires s != []
    ensures forall i :: 0 <= i < CodeLength(s) - 1 ==> Continues(s[i])
    ensures CodeLength(s) < |s| ==> !Continues(s[CodeLength(s) - 1])
  {
    if |s| > 1 && Continues(s[0]) {
      CodeLengthStops(s[1..]);
    }
  }

  lemma {:induction false} CodeLengthPrefix(s: seq<byte>, t: seq<byte>)
    requires s != [] && !Continues(s[|s|-1])
    ensures CodeLength(s + t) == CodeLength(s)
  {
    if |s| > 1 && Continues(s[0]) {
      CodeLengthPrefix(s[1..], t);
      assert (s + t)[1..] == s[1..] + t;
    }
  }

  lemma CodesUnfold(first: seq<byte>, rest: seq<byte>)
    requires first != [] && CodeLength(first + rest) == |first|
    ensures Codes(first + rest) == [first] + Codes(rest)
  {
    assert (first + rest)[..|first|] == first && (first + rest)[|first|..] == rest;
  }

  lemma AppendAssociates<T>(a: seq<T>, b: seq<T>, c: seq<T>)
    ensures a + (b + c) == (a + b) + c
  {
  }

  /** The codes of an image are those before its last code, and its last code. */
  lemma {:induction false} CodesFromTheEnd(s: seq<byte>, p: nat)
    requires LastCodeAt(s, p)
    ensures Codes(s) == Codes(s[..p]) + [s[p..]]
    decreases |s|
  {
    CodeLengthStops(s);
    if p == 0 {
      assert CodeLength(s) == |s|;
      assert s + [] == s == s[p..] && s[..p] == [];
      CodesUnfold(s, []);
    } else {
      CodeLengthPrefix(s[..p], s[p..]);
      assert s == s[..p] + s[p..];
      var k := CodeLength(s);
      var first, mid, last := s[..k], s[k..p], s[p..];
      assert s[..p] == first + mid && s == first + (mid + last);
      CodesFromTheEnd(mid + last, p - k);
      assert (mid + last)[..p-k] == mid && (mid + last)[p-k..] == last;
      CodesUnfold(first, mid);
      CodesUnfold(first, mid + last);
      AppendAssociates([first], Codes(mid), [last]);
    }
  }

  // ----- one code, backward -----

  function Pow2(n: nat): (p: nat)
    ensures p >= 1
  {
    if n == 0 then 1 else 2 * Pow2(n - 1)
  }

  /** What the inner loop has collected after reading `s` from its end. */
  function Collected(s: seq<byte>): nat {
    if s == [] then 0 else Payload(s[0]) * Pow2(7 * (|s| - 1)) + Collected(s[1..])
  }

  /** The sign-extension loop. */
  function SignFilled(c: int, shift: nat): int
    decreases 32 - shift
  {
    if shift >= 32 then c else SignFilled(c + 0xff * Pow2(shift), shift + 8)
  }

  lemma Pow2By7(n: nat)
    ensures Pow2(7 * (n + 1)) == 0x80 * Pow2(7 * n)
  {
    var m := 7 * n;
    assert Pow2(m + 7) == 2 * Pow2(m + 6) == 4 * Pow2(m + 5) == 8 * Pow2(m + 4) == 16 * Pow2(m + 3)
        == 32 * Pow2(m + 2) == 64 * Pow2(m + 1) == 128 * Pow2(m);
  }

  lemma {:induction false} AccumulateIs(acc: int, s: seq<byte>)
    ensures Accumulate(acc, s) == acc * Pow2(7 * |s|) + Collected(s)
    decreases |s|
  {
    if s != [] {
      hide Pow2, Payload;
      AccumulateIs(acc * 0x80 + Payload(s[0]), s[1..]);
      Pow2By7(|s| - 1);
      Distribute(acc, Payload(s[0]), Pow2(7 * (|s| - 1)));
    }
  }

  lemma Distribute(acc: int, low: int, p: int)
    ensures (acc * 0x80 + low) * p == acc * (0x80 * p) + low * p
  {
  }

  /** Where the sign-extension loop ends. */
  function SignEnd(shift: nat): (end: nat)
    ensures end >= 32
    decreases 32 - shift
  {
    if shift >= 32 then shift else SignEnd(shift + 8)
  }

  lemma {:induction false} SignFilledIs(c: int, shift: nat)
    ensures SignFilled(c, shift) == c - Pow2(shift) + Pow2(SignEnd(shift))
    decreases 32 - shift
  {
    hide Pow2;
    if shift < 32 {
      SignFilledIs(c + 0xff * Pow2(shift), shift + 8);
      Pow2By8(shift);
    }
  }

  lemma Pow2By8(n: nat)
    ensures Pow2(n + 8) == 0x100 * Pow2(n)
  {
    assert Pow2(n + 8) == 2 * Pow2(n + 7) == 4 * Pow2(n + 6) == 8 * Pow2(n + 5) == 16 * Pow2(n + 4);
    assert Pow2(n + 4) == 2 * Pow2(n + 3) == 4 * Pow2(n + 2) == 8 * Pow2(n + 1) == 16 * Pow2(n);
  }

  lemma Pow2By32(n: nat)
    ensures Pow2(n + 32) == 0x1_0000_0000 * Pow2(n)
  {
    hide Pow2;
    Pow2By8(n);
    Pow2By8(n + 8);
    Pow2By8(n + 16);
    Pow2By8(n + 24);
  }

  /** Filling in the sign bits subtracts the weight of the missing ones. */
  lemma SignFilledValue(c: int, shift: nat)
    ensures Truncated(SignFilled(c, shift)) == Truncated(c - Pow2(shift))
  {
    hide Pow2, SignFilled;
    SignFilledIs(c, shift);
    Pow2By32(SignEnd(shift) - 32);
    TruncatedBy(c - Pow2(shift), Pow2(SignEnd(shift) - 32));
  }

  lemma TruncatedBy(a: int, n: int)
    ensures Truncated(a + 0x1_0000_0000 * n) == Truncated(a)
  {
  }

  lemma TruncatedSum(a: int, b: int)
    ensures Truncated(Truncated(a) + b) == Truncated(a + b)
  {
  }

  /** Filling in sign bits commutes with dropping the bits above 32. */
  lemma {:induction false} SignFilledTruncated(c: int, shift: nat)
    ensures Truncated(SignFilled(Truncated(c), shift)) == Truncated(SignFilled(c, shift))
    decreases 32 - shift
  {
    if shift < 32 {
      var f := 0xff * Pow2(shift);
      SignFilledTruncated(c + f, shift + 8);
      SignFilledTruncated(Truncated(c) + f, shift + 8);
      TruncatedSum(c, f);
    }
  }

  lemma CollectedStep(s: seq<byte>, start: nat)
    requires start < |s|
    ensures Truncated(Truncated(Collected(s[start+1..])) + Payload(s[start]) * Pow2(7 * (|s| - 1 - start)))
         == Truncated(Collected(s[start..]))
  {
    var low, bits := Collected(s[start+1..]), Payload(s[start]) * Pow2(7 * (|s| - 1 - start));
    assert s[start..][1..] == s[start+1..];
    assert Collected(s[start..]) == bits + low;
    TruncatedSum(low, bits);
  }

  /** Reading a code from its end and filling in its sign gives its forward value. */
  lemma BackwardIsForward(code: Code)
    requires |code| <= MAX_CODE
    ensures Value(code) == Truncated(if Negative(code[0]) then SignFilled(Collected(code), 7 * |code|) else Collected(code))
  {
    hide Pow2, SignFilled, Collected, Accumulate;
    AccumulateIs(-1, code);
    AccumulateIs(0, code);
    SignFilledValue(Collected(code), 7 * |code|);
  }

  // ----- the ring of delayed writes -----

  datatype Delayed = Delayed(memloc: int, c: cell)

  /** The `spare` array with its head `sh`, its tail `st` and its count `sc`. */
  class Ring {
    const spare: array<Delayed>
    var sh: nat
    var st: nat
    var sc: nat

    ghost predicate Valid()
      reads this
    {
      spare.Length == MARGIN && sh < MARGIN && sc <= MARGIN && st == (sh + sc) % MARGIN
    }

    ghost function Queue(): (q: seq<Delayed>)
      requires Valid()
      reads this, spare
      ensures |q| == sc
    {
      Slots(spare[..], sh, sc)
    }

    static function Slots(slots: seq<Delayed>, head: nat, count: nat): (q: seq<Delayed>)
      requires |slots| == MARGIN
      ensures |q| == count
    {
      seq(count, i requires 0 <= i < count => slots[Slot(head, i)])
    }

    static function Slot(head: nat, i: nat): nat {
      (head + i) % MARGIN
    }

    static lemma SlotNext(head: nat, i: nat)
      requires head < MARGIN && 1 <= i <= MARGIN
      ensures Slot(head, i) == Slot(Slot(head, 1), i - 1)
    {
    }

    constructor ()
      ensures Valid() && fresh(spare) && Queue() == []
    {
      spare := new Delayed[MARGIN](_ => Delayed(0, 0));
      sh, st, sc := 0, 0, 0;
    }

    function Head(): (d: Delayed)
      requires Valid() && sc > 0
      reads this, spare
      ensures d == Queue()[0]
    {
      spare[sh]
    }

    method Push(d: Delayed)
      requires Valid() && sc < MARGIN
      modifies this, spare
      ensures Valid() && Queue() == old(Queue()) + [d]
    {
      assert forall i :: 0 <= i < sc ==> Slot(sh, i) != st;
      spare[st] := d;
      st := (st + 1) % MARGIN;
      sc := sc + 1;
    }

    method Pop() returns (d: Delayed)
      requires Valid() && sc > 0
      modifies this
      ensures Valid() && [d] + Queue() == old(Queue())
    {
      d := spare[sh];
      forall i | 1 <= i < sc ensures Slot(sh, i) == Slot(Slot(sh, 1), i - 1) {
        SlotNext(sh, i);
      }
      SlotNext(sh, sc);
      sh := Slot(sh, 1);
      sc := sc - 1;
    }
  }

  // ----- the loader -----

  lemma LastIncomplete(codes: seq<Code>, last: Code)
    requires !Complete(last)
    ensures !WellFormed(codes + [last])
  {
    assert (codes + [last])[|codes|] == last;
  }

  /** Too many continued bytes, or a last byte that continues. */
  lemma NotWellFormed(s: seq<byte>, start: nat)
    requires start < |s| && forall i :: start <= i < |s| - 1 ==> Continues(s[i])
    requires |s| - start > MAX_CODE || Continues(s[|s|-1])
    ensures !WellFormed(Codes(s))
  {
    var p := LastStart(s, start);
    var front, last: Code := s[..p], s[p..];
    assert |last| > MAX_CODE || Continues(last[|last|-1]);
    LastIncomplete(Codes(front), last);
    CodesFromTheEnd(s, p);
  }

  /** The inner loops: reads the code that ends at `codesize` from its end.  `ok` is false
      where an assertion of the loader fails. */
  method ReadCode(code: array<byte>, codesize: nat) returns (ok: bool, start: nat, c: cell)
    requires 0 < codesize <= code.Length
    ensures ok ==> LastCodeAt(code[..codesize], start) && Complete(code[start..codesize])
    ensures ok ==> c == Value(code[start..codesize])
    ensures !ok ==> !WellFormed(Codes(code[..codesize]))
  {
    ghost var s := code[..codesize];
    var shift := 0;
    start, c := codesize, 0;
    while shift == 0 || (start > 0 && Continues(code[start-1]))
      invariant 0 <= start <= codesize && shift == 7 * (codesize - start) <= 35
      invariant c == Truncated(Collected(s[start..]))
      invariant shift > 0 ==> !Continues(s[codesize-1])
      invariant forall i :: start <= i < codesize - 1 ==> Continues(s[i])
      decreases start
    {
      start := start - 1;
      if shift >= 32 || (shift == 0 && Continues(code[start])) {
        NotWellFormed(s, start);
        return false, start, c;
      }
      CollectedStep(s, start);
      c := Truncated(c + Payload(code[start]) * Pow2(shift));
      shift := shift + 7;
    }
    assert s[start..] == code[start..codesize];
    BackwardIsForward(s[start..]);
    if Negative(code[start]) {
      SignFilledTruncated(Collected(s[start..]), shift);
      c := SignExpand(c, shift);
    }
    ok := true;
  }

  method SignExpand(c0: cell, shift0: nat) returns (c: cell)
    ensures c == Truncated(SignFilled(c0, shift0))
  {
    var shift := shift0;
    c := c0;
    while shift < 32
      invariant Truncated(SignFilled(c, shift)) == Truncated(SignFilled(c0, shift0))
    {
      SignFilledTruncated(c + 0xff * Pow2(shift), shift + 8);
      c := Truncated(c + 0xff * Pow2(shift));
      shift := shift + 8;
    }
  }

  // ----- the loop of the loader -----

  /** Cell `j` of the memory image that starts at `base` is in place. */
  ghost predicate InPlace(cells: seq<cell>, base: int, buf: seq<byte>, j: nat)
  {
    && j < |cells| && 0 <= base + 4 * j && base + 4 * j + 4 <= |buf|
    && forall i :: 0 <= i < 4 ==> buf[base + 4 * j + i] == ByteOf(cells[j], i)
  }

  /** The delayed writes for cells `m..h`, the last cell first. */
  function Waiting(cells: seq<cell>, base: int, m: nat, h: nat): (queue: seq<Delayed>)
    requires m <= h <= |cells|
    ensures |queue| == h - m
  {
    if m == h then [] else [Delayed(base + 4 * (h - 1), cells[h-1])] + Waiting(cells, base, m, h - 1)
  }

  lemma {:induction false} WaitingSnoc(cells: seq<cell>, base: int, m: nat, h: nat)
    requires 0 < m <= h <= |cells|
    ensures Waiting(cells, base, m - 1, h) == Waiting(cells, base, m, h) + [Delayed(base + 4 * (m - 1), cells[m-1])]
  {
    if m < h {
      var first, last := [Delayed(base + 4 * (h - 1), cells[h-1])], [Delayed(base + 4 * (m - 1), cells[m-1])];
      WaitingSnoc(cells, base, m, h - 1);
      assert first + (Waiting(cells, base, m, h - 1) + last) == (first + Waiting(cells, base, m, h - 1)) + last;
    } else {
      assert Waiting(cells, base, m - 1, m - 1) == [];
    }
  }

  /** What holds after the last cells have been decoded, down to the first `m` of them:
      cells `m..h` wait in the ring and cells `h..` are in place. */
  ghost predicate Decoded(cells: seq<cell>, m: nat, h: nat, base: int, buf: seq<byte>, queue: seq<Delayed>)
  {
    && m <= h <= |cells|
    && 0 <= base + 4 * m && base + 4 * |cells| <= |buf|
    && queue == Waiting(cells, base, m, h)
    && (forall j :: h <= j < |cells| ==> InPlace(cells, base, buf, j))
  }

  /** Exactly the cells whose memory is not yet free wait in the ring: those that start at
      or below the end of the unread codes. */
  ghost predicate Blocked(count: nat, m: nat, h: nat, base: int, unread: nat)
  {
    && (m < h ==> unread > 0 && base + 4 * (h - 1) <= unread)
    && (h < count ==> base + 4 * h > unread || h == 0)
  }

  lemma {:induction false} WaitingAt(cells: seq<cell>, base: int, m: nat, h: nat, i: nat)
    requires m <= h <= |cells| && i < h - m
    ensures Waiting(cells, base, m, h)[i] == Delayed(base + 4 * (h - 1 - i), cells[h-1-i])
  {
    if i > 0 {
      WaitingAt(cells, base, m, h - 1, i - 1);
    }
  }

  /** Between two codes the ring holds a contiguous block of cells, last one first, and at most
      one more than the bytes by which the unread codes overlap the decoded cells make up. */
  lemma RingOccupancy(cells: seq<cell>, m: nat, h: nat, base: int, buf: seq<byte>, queue: seq<Delayed>, unread: nat)
    requires Decoded(cells, m, h, base, buf, queue) && Blocked(|cells|, m, h, base, unread)
    ensures queue != [] ==> |queue| <= (unread - (base + 4 * m)) / 4 + 1
    ensures forall i :: 0 <= i < |queue| ==> queue[i] == Delayed(base + 4 * (m + |queue| - 1 - i), cells[m + |queue| - 1 - i])
  {
    forall i | 0 <= i < |queue|
      ensures queue[i] == Delayed(base + 4 * (m + |queue| - 1 - i), cells[m + |queue| - 1 - i])
    {
      WaitingAt(cells, base, m, h, i);
    }
  }

  /** The part of `RingFits` that concerns the cells decoded so far. */
  ghost predicate FitsFrom(codes: seq<Code>, m: nat) {
    forall k :: 1 <= k < |codes| - MARGIN && m <= k ==> FitsAt(codes, k)
  }

  /** The ring has room for cell `m-1` exactly if the first `m-1` codes fit. */
  lemma RingRoom(codes: seq<Code>, m: nat, h: nat)
    requires 0 < m <= h <= |codes|
    requires m < h ==> 4 * (h - 1) <= PrefixLength(codes, m - 1)
    requires h < |codes| ==> 4 * h > PrefixLength(codes, m - 1) || h == 0
    ensures FitsFrom(codes, m) && h - m < MARGIN ==> FitsFrom(codes, m - 1)
    ensures h - m >= MARGIN ==> !RingFits(codes)
  {
    if h - m >= MARGIN {
      assert !FitsAt(codes, m - 1);
    } else if 1 <= m - 1 < |codes| - MARGIN {
      assert FitsAt(codes, m - 1);
    }
  }

  lemma PrefixLengthWhole(s: seq<byte>)
    ensures PrefixLength(Codes(s), |Codes(s)|) == |s|
  {
    if s != [] {
      var p := LastStart(s, |s| - 1);
      CodesFromTheEnd(s, p);
      PrefixLengthWhole(s[..p]);
      PrefixLengthOfPrefix(Codes(s[..p]), [s[p..]], |Codes(s[..p])|);
    }
  }

  lemma {:induction false} PrefixLengthOfPrefix(a: seq<Code>, b: seq<Code>, m: nat)
    requires m <= |a|
    ensures PrefixLength(a + b, m) == PrefixLength(a, m)
  {
    if m > 0 { PrefixLengthOfPrefix(a, b, m - 1); }
  }

  /** The buffer after storing a cell. */
  function Stored(buf: seq<byte>, loc: nat, c: cell): (r: seq<byte>)
    requires loc + 4 <= |buf|
    ensures |r| == |buf|
  {
    buf[loc := ByteOf(c, 0)][loc + 1 := ByteOf(c, 1)][loc + 2 := ByteOf(c, 2)][loc + 3 := ByteOf(c, 3)]
  }

  /** The unread codes below `lo` and the bytes from `hi` on are the same. */
  ghost predicate Untouched(buf: seq<byte>, buf': seq<byte>, lo: nat, hi: int) {
    |buf| == |buf'| && lo <= |buf| && 0 <= hi <= |buf| && buf'[..lo] == buf[..lo] && buf'[hi..] == buf[hi..]
  }

  /** Storing the oldest waiting cell. */
  lemma FlushStep(cells: seq<cell>, m: nat, h: nat, base: int, buf0: seq<byte>, buf: seq<byte>, queue: seq<Delayed>, lo: nat)
    requires Decoded(cells, m, h, base, buf, queue) && m < h && lo <= queue[0].memloc
    requires Untouched(buf0, buf, lo, base + 4 * |cells|)
    ensures queue[0].memloc == base + 4 * (h - 1) && queue[0].memloc + 4 <= |buf|
    ensures var buf' := Stored(buf, queue[0].memloc, queue[0].c);
            Decoded(cells, m, h - 1, base, buf', queue[1..]) && Untouched(buf0, buf', lo, base + 4 * |cells|)
  {
    var loc := queue[0].memloc;
    var buf' := Stored(buf, loc, queue[0].c);
    forall j | h - 1 <= j < |cells|
      ensures InPlace(cells, base, buf', j)
    {
      if j >= h {
        assert InPlace(cells, base, buf, j);
      }
    }
  }

  /** A decoded cell joins the ring. */
  lemma DelayStep(cells: seq<cell>, m: nat, h: nat, base: int, buf: seq<byte>, queue: seq<Delayed>)
    requires Decoded(cells, m, h, base, buf, queue) && m > 0 && base + 4 * (m - 1) >= 0
    ensures Decoded(cells, m - 1, h, base, buf, queue + [Delayed(base + 4 * (m - 1), cells[m-1])])
  {
    WaitingSnoc(cells, base, m, h);
  }

  lemma Finished(cells: seq<cell>, h: nat, buf: seq<byte>, queue: seq<Delayed>)
    requires Decoded(cells, 0, h, 0, buf, queue) && Blocked(|cells|, 0, h, 0, 0)
    ensures queue == [] && buf[..4 * |cells|] == Image(cells)
  {
    forall k | 0 <= k < 4 * |cells|
      ensures buf[k] == Image(cells)[k]
    {
      assert InPlace(cells, 0, buf, k / 4);
    }
  }

  method StoreCell(code: array<byte>, loc: nat, c: cell)
    requires loc + 4 <= code.Length
    modifies code
    ensures code[..] == Stored(old(code[..]), loc, c)
  {
    code[loc], code[loc+1], code[loc+2], code[loc+3] := ByteOf(c, 0), ByteOf(c, 1), ByteOf(c, 2), ByteOf(c, 3);
  }

  /** Stores the oldest waiting cell. */
  method FlushOne(code: array<byte>, ring: Ring)
    requires ring.Valid() && ring.sc > 0
    requires 0 <= ring.Queue()[0].memloc && ring.Queue()[0].memloc + 4 <= code.Length
    modifies code, ring
    ensures ring.Valid() && ring.Queue() == old(ring.Queue())[1..]
    ensures code[..] == Stored(old(code[..]), old(ring.Queue())[0].memloc, old(ring.Queue())[0].c)
  {
    var d := ring.Pop();
    StoreCell(code, d.memloc, d.c);
  }

  /** The delayed writes whose memory lies above the unread codes. */
  method Flush(code: array<byte>, ring: Ring, codesize: nat, ghost cells: seq<cell>, ghost m: nat, ghost h0: nat, ghost base: int)
    returns (ghost h: nat)
    requires ring.Valid() && codesize <= code.Length
    requires Decoded(cells, m, h0, base, code[..], ring.Queue())
    requires h0 < |cells| ==> base + 4 * h0 > codesize || h0 == 0
    modifies code, ring
    ensures ring.Valid() && h <= h0
    ensures Decoded(cells, m, h, base, code[..], ring.Queue())
    ensures m < h ==> base + 4 * (h - 1) <= codesize
    ensures h < |cells| ==> base + 4 * h > codesize || h == 0
    ensures Untouched(old(code[..]), code[..], codesize, base + 4 * |cells|)
  {
    h := h0;
    ghost var buf0 := code[..];
    while ring.sc > 0 && ring.Head().memloc > codesize
      invariant ring.Valid() && m <= h <= h0
      invariant Decoded(cells, m, h, base, code[..], ring.Queue())
      invariant h < |cells| ==> base + 4 * h > codesize || h == 0
      invariant Untouched(buf0, code[..], codesize, base + 4 * |cells|)
      decreases ring.sc
    {
      FlushStep(cells, m, h, base, buf0, code[..], ring.Queue(), codesize);
      FlushOne(code, ring);
      h := h - 1;
    }
  }

  /** Stores or delays cell `m-1`, once the bytes above `codesize` are free.  `ok` is false
      where an assertion of the loader fails. */
  method Place(code: array<byte>, ring: Ring, codesize: nat, memsize0: int, c: cell,
               ghost codes: seq<Code>, ghost cells: seq<cell>, ghost m: nat, ghost h0: nat, ghost base: int)
    returns (ok: bool, memsize: int, ghost h: nat)
    requires ring.Valid() && codesize <= code.Length && 0 < m <= |codes| == |cells|
    requires memsize0 == base + 4 * m && c == cells[m-1] && codesize == PrefixLength(codes, m - 1)
    requires Decoded(cells, m, h0, base, code[..], ring.Queue())
    requires h0 < |codes| ==> base + 4 * h0 > codesize || h0 == 0
    modifies code, ring, ring.spare
    ensures ring.Valid() && memsize == base + 4 * (m - 1)
    ensures ok ==> Decoded(cells, m - 1, h, base, code[..], ring.Queue()) && Blocked(|cells|, m - 1, h, base, codesize)
    ensures ok && base == 0 && FitsFrom(codes, m) ==> FitsFrom(codes, m - 1)
    ensures !ok ==> base != 0 || !RingFits(codes)
    ensures Untouched(old(code[..]), code[..], codesize, base + 4 * |codes|)
  {
    h := Flush(code, ring, codesize, cells, m, h0, base);
    memsize := memsize0 - 4;
    if memsize < 0 {
      return false, memsize, h;
    }
    ghost var buf, queue := code[..], ring.Queue();
    if base == 0 { RingRoom(codes, m, h); }
    DelayStep(cells, m, h, base, buf, queue);
    if memsize > codesize || (memsize == codesize && memsize == 0) {
      assert h == m && queue == [];
      assert (queue + [Delayed(memsize, c)])[1..] == queue;
      StoreCell(code, memsize, c);
      FlushStep(cells, m - 1, h, base, buf, buf, queue + [Delayed(memsize, c)], codesize);
      h := h - 1;
      ok := true;
    } else if ring.sc >= MARGIN {
      ok := false;
    } else {
      ring.Push(Delayed(memsize, c));
      ok := true;
    }
  }

  /** The bytes below `codesize` are the first `m` codes of the image. */
  ghost predicate Unread(image: seq<byte>, codes: seq<Code>, m: nat, codesize: nat) {
    codesize <= |image| && m <= |codes| && Codes(image[..codesize]) == codes[..m] && PrefixLength(codes, m) == codesize
  }

  lemma ReadStep(image: seq<byte>, codesize: nat, start: nat, codes: seq<Code>, m: nat)
    requires Unread(image, codes, m, codesize) && LastCodeAt(image[..codesize], start)
    ensures m > 0 && codes[m-1] == image[start..codesize] && Unread(image, codes, m - 1, start)
  {
    CodesFromTheEnd(image[..codesize], start);
    assert image[..codesize][..start] == image[..start] && image[..codesize][start..] == image[start..codesize];
    assert codes[..m] == Codes(image[..start]) + [image[start..codesize]];
    assert codes[..m][..m-1] == codes[..m-1] && codes[..m][m-1] == codes[m-1];
  }

  /** Reads the last unread code of `image` from a buffer that still holds it. */
  method ReadLast(code: array<byte>, codesize: nat, ghost image: seq<byte>, ghost codes: seq<Code>, ghost m: nat)
    returns (ok: bool, start: nat, c: cell)
    requires 0 < codesize <= code.Length && Unread(image, codes, m, codesize)
    requires code[..][..codesize] == image[..codesize]
    ensures ok ==> m > 0 && start < codesize && Unread(image, codes, m - 1, start)
    ensures ok ==> c == Value(codes[m-1]) && (CompleteFrom(codes, m) ==> CompleteFrom(codes, m - 1))
    ensures !ok ==> !WellFormed(codes)
  {
    ok, start, c := ReadCode(code, codesize);
    assert code[..codesize] == code[..][..codesize];
    if ok {
      assert code[start..codesize] == code[..codesize][start..] == image[start..codesize];
      ReadStep(image, codesize, start, codes, m);
    } else {
      assert !WellFormed(codes[..m]);
    }
  }

  lemma StillUntouched(buf: seq<byte>, buf': seq<byte>, buf'': seq<byte>, lo: nat, lo': nat, hi: int)
    requires Untouched(buf, buf', lo, hi) && Untouched(buf', buf'', lo', hi) && lo' <= lo
    ensures Untouched(buf, buf'', lo', hi)
  {
    assert buf'[..lo'] == buf'[..lo][..lo'] == buf[..lo][..lo'] == buf[..lo'];
  }

  lemma UnreadWhole(image: seq<byte>, codesize: nat)
    requires codesize <= |image|
    ensures var codes := Codes(image[..codesize]); Unread(image, codes, |codes|, codesize)
  {
    var codes := Codes(image[..codesize]);
    PrefixLengthWhole(image[..codesize]);
    assert codes[..|codes|] == codes;
  }

  lemma NothingUnread(image: seq<byte>, codes: seq<Code>, m: nat)
    requires Unread(image, codes, m, 0)
    ensures m == 0
  {
    assert image[..0] == [];
  }

  /** Decompresses the first `codesize0` bytes of `code` into its first `memsize0` bytes.
      `ok` tells that every assertion of the loader holds; it does exactly on images of
      complete codes for `memsize0 / 4` cells that stay within the ring. */
  method Expand(code: array<byte>, codesize0: nat, memsize0: nat) returns (ok: bool)
    requires codesize0 <= code.Length && memsize0 <= code.Length
    modifies code
    ensures ok <==> var codes := Codes(old(code[..])[..codesize0]);
                    WellFormed(codes) && memsize0 == 4 * |codes| && RingFits(codes)
    ensures ok ==> code[..][..memsize0] == Image(Cells(Codes(old(code[..])[..codesize0])))
    ensures code[..][memsize0..] == old(code[..])[memsize0..]
  {
    ghost var image := code[..];
    ghost var codes := Codes(image[..codesize0]);
    UnreadWhole(image, codesize0);
    ok := memsize0 % 4 == 0;
    if ok {
      ok := ExpandCodes(code, codesize0, memsize0, image, codes);
    }
  }

  /** The outer loop of the loader. */
  method ExpandCodes(code: array<byte>, codesize0: nat, memsize0: nat, ghost image: seq<byte>, ghost codes: seq<Code>)
    returns (ok: bool)
    requires codesize0 <= code.Length && memsize0 <= code.Length
    requires image == code[..] && Unread(image, codes, |codes|, codesize0)
    modifies code
    ensures ok <==> WellFormed(codes) && memsize0 == 4 * |codes| && RingFits(codes)
    ensures ok ==> code[..][..memsize0] == Image(Cells(codes))
    ensures Untouched(image, code[..], 0, memsize0)
  {
    hide InPlace, Value, Waiting, FitsAt, Complete, Continues, PrefixLength, Image, ByteOf, LastCodeAt;
    ghost var cells := Cells(codes);
    ghost var m: nat, h: nat, base := |codes|, |codes|, memsize0 - 4 * |codes|;
    var codesize, memsize: int := codesize0, memsize0;
    var ring := new Ring();
    while codesize > 0
      invariant 0 <= codesize <= codesize0 && memsize == base + 4 * m
      invariant ring.Valid() && fresh(ring) && fresh(ring.spare)
      invariant Untouched(image, code[..], codesize, memsize0) && Unread(image, codes, m, codesize)
      invariant Decoded(cells, m, h, base, code[..], ring.Queue()) && Blocked(|cells|, m, h, base, codesize)
      invariant CompleteFrom(codes, m)
      invariant base == 0 ==> FitsFrom(codes, m)
      decreases codesize
    {
      ghost var buf, lo := code[..], codesize;
      var c;
      ok, codesize, c := ReadLast(code, codesize, image, codes, m);
      if !ok { return; }
      ok, memsize, h := Place(code, ring, codesize, memsize, c, codes, cells, m, h, base);
      StillUntouched(image, buf, code[..], lo, codesize, memsize0);
      if !ok { return; }
      m := m - 1;
    }
    ok := memsize == 0;
    NothingUnread(image, codes, m);
    if ok {
      Finished(cells, h, code[..], ring.Queue());
      assert ring.sc == 0;
    }
  }
}
