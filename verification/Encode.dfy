/**
  The compressed output of the compiler (sc6.c, `write_encoded`), and what the loader makes of it.

  The compiler writes every cell as its shortest code.  What a code stands for is said here in
  terms of signed numbers, and not in terms of the decoder: a code of n bytes spells a number of
  7*n bits in two's complement, high group first.
*/
module Compression {
  import opened Compact

  const ENC_MAX := 5
  const ENC_MASK := 0x0f

  // ----- what codes stand for -----

  function Signed(c: cell): int { if c < 0x8000_0000 then c else c - 0x1_0000_0000 }

  /** The number that the groups of seven bits spell. */
  function Spelled(code: seq<byte>): nat {
    if code == [] then 0 else Spelled(code[..|code|-1]) * 128 + code[|code|-1] % 128
  }

  /** Half of the numbers that `n` groups can spell. */
  function Half(n: nat): int
    requires 1 <= n <= 4
  {
    match n case 1 => 64 case 2 => 8192 case 3 => 1_048_576 case _ => 134_217_728
  }

  /** The cell has a code of `n` bytes. */
  predicate FitsIn(c: cell, n: nat)
    requires n >= 1
  {
    n >= 5 || -Half(n) <= Signed(c) < Half(n)
  }

  /** Group `k` of seven bits, the lowest one first. */
  function Group(c: cell, k: nat): (g: int)
    ensures 0 <= g < 128
  {
    match k
    case 0 => c % 128
    case 1 => c / 128 % 128
    case 2 => c / 16384 % 128
    case 3 => c / 2_097_152 % 128
    case _ => c / 268_435_456 % 128
  }

  function Width(c: cell): (n: nat)
    ensures 1 <= n <= 5 && FitsIn(c, n) && forall k :: 1 <= k < n ==> !FitsIn(c, k)
  {
    if FitsIn(c, 1) then 1 else if FitsIn(c, 2) then 2 else if FitsIn(c, 3) then 3 else if FitsIn(c, 4) then 4 else 5
  }

  /** The shortest code of a cell: high group first, all bytes but the last one continued. */
  function Encoded(c: cell): (code: Code)
    ensures |code| == Width(c)
  {
    var n := Width(c);
    seq<byte>(n, i requires 0 <= i < n => Group(c, n - 1 - i) + if i < n - 1 then 128 else 0)
  }

  function EncodedAll(cells: seq<cell>): seq<byte> {
    if cells == [] then [] else Encoded(cells[0]) + EncodedAll(cells[1..])
  }

  // ----- the decoder, by the numbers -----

  function Power(n: nat): (p: nat)
    ensures p >= 1
  {
    if n == 0 then 1 else 128 * Power(n - 1)
  }

  lemma Powers()
    ensures Power(1) == 128 && Power(2) == 16384 && Power(3) == 2_097_152 && Power(4) == 268_435_456
    ensures Power(5) == 34_359_738_368
  {
  }

  lemma {:induction false} AccumulateSnoc(acc: int, code: seq<byte>)
    requires code != []
    ensures Accumulate(acc, code) == Accumulate(acc, code[..|code|-1]) * 128 + code[|code|-1] % 128
    decreases |code|
  {
    if |code| > 1 {
      AccumulateSnoc(acc * 0x80 + Payload(code[0]), code[1..]);
      assert code[1..][..|code|-2] == code[..|code|-1][1..];
    }
  }

  lemma {:induction false} AccumulateSpells(code: seq<byte>)
    ensures Accumulate(0, code) == Spelled(code) && Accumulate(-1, code) == Spelled(code) - Power(|code|)
  {
    if code != [] {
      AccumulateSnoc(0, code);
      AccumulateSnoc(-1, code);
      AccumulateSpells(code[..|code|-1]);
    }
  }

  /** The first byte of a code tells which half the number is in. */
  lemma {:induction false} SpelledHalf(code: Code)
    ensures code[0] % 128 >= 64 <==> Spelled(code) >= 64 * Power(|code| - 1)
    ensures Spelled(code) < Power(|code|)
  {
    if |code| > 1 { SpelledHalf(code[..|code|-1]); }
    else { assert code[..0] == []; }
  }

  /** What the loader takes a code for: the signed number in two's complement that its groups
      spell; a code of five bytes has more bits than a cell, which takes the low ones. */
  lemma CodeMeans(code: Code)
    requires |code| <= 5
    ensures |code| == 5 ==> Value(code) == Spelled(code) % 0x1_0000_0000
    ensures |code| <= 4 ==> var v, half := Signed(Value(code)), Half(|code|);
      -half <= v < half && (v == Spelled(code) || v == Spelled(code) - 2 * half)
  {
    hide Accumulate, Spelled, Power, Negative;
    AccumulateSpells(code);
    SpelledHalf(code);
    Powers();
    SignBit(code[0]);
    TwosComplement(Spelled(code), |code|, Value(code));
  }

  lemma TwosComplement(s: int, n: nat, c: cell)
    requires 1 <= n <= 5 && 0 <= s < Power(n) && c == Truncated(if s >= 64 * Power(n - 1) then s - Power(n) else s)
    ensures n == 5 ==> c == s % 0x1_0000_0000
    ensures n <= 4 ==> -Half(n) <= Signed(c) < Half(n) && (Signed(c) == s || Signed(c) == s - 2 * Half(n))
  {
    Powers();
    if n == 5 { TruncatedBy(s, -8); }
  }

  lemma SignBit(b: byte)
    ensures Negative(b) <==> b % 128 >= 64
  {
  }

  lemma {:induction false} Unrolled(code: Code)
    requires |code| <= 5
    ensures var d := seq<int>(|code|, i requires 0 <= i < |code| => code[i] % 128);
      Spelled(code) == match |code|
        case 1 => d[0]
        case 2 => 128 * d[0] + d[1]
        case 3 => 16384 * d[0] + 128 * d[1] + d[2]
        case 4 => 2_097_152 * d[0] + 16384 * d[1] + 128 * d[2] + d[3]
        case _ => 268_435_456 * d[0] + 2_097_152 * d[1] + 16384 * d[2] + 128 * d[3] + d[4]
  {
    if |code| > 1 { Unrolled(code[..|code|-1]); }
    else { assert code[..0] == []; }
  }

  /** A cell is the sum of its groups. */
  lemma GroupsOf(c: cell)
    ensures c == Group(c, 0) + 128 * Group(c, 1) + 16384 * Group(c, 2) + 2_097_152 * Group(c, 3) + 268_435_456 * Group(c, 4)
    ensures Group(c, 4) < 16
  {
    var q1, q2, q3, q4 := c / 128, c / 16384, c / 2_097_152, c / 268_435_456;
    assert q2 == q1 / 128 && q3 == q2 / 128 && q4 == q3 / 128 && q4 < 16;
  }

  /** The code of every cell is decoded to that cell. */
  lemma EncodedDecodes(c: cell)
    ensures Complete(Encoded(c)) && Value(Encoded(c)) == c
  {
    hide Value, Group, Encoded, Width, FitsIn, Signed, Half;
    var code := Encoded(c);
    EncodedGroups(c);
    CodeMeans(code);
    Unrolled(code);
    LowGroups(c, |code|, Spelled(code));
    InRange(c, |code|, Spelled(code), Value(code));
  }

  /** The number that the low `n` groups of a cell spell. */
  lemma LowGroups(c: cell, n: nat, s: int)
    requires 1 <= n <= 5
    requires s == match n
      case 1 => Group(c, 0)
      case 2 => 128 * Group(c, 1) + Group(c, 0)
      case 3 => 16384 * Group(c, 2) + 128 * Group(c, 1) + Group(c, 0)
      case 4 => 2_097_152 * Group(c, 3) + 16384 * Group(c, 2) + 128 * Group(c, 1) + Group(c, 0)
      case _ => 268_435_456 * Group(c, 4) + 2_097_152 * Group(c, 3) + 16384 * Group(c, 2) + 128 * Group(c, 1) + Group(c, 0)
    ensures if n == 5 then s == c else exists q: nat :: c == s + 2 * Half(n) * q
  {
    hide Group;
    GroupsOf(c);
    match n
    case 1 => assert c == s + 2 * Half(n) * (Group(c, 1) + 128 * Group(c, 2) + 16384 * Group(c, 3) + 2_097_152 * Group(c, 4));
    case 2 => assert c == s + 2 * Half(n) * (Group(c, 2) + 128 * Group(c, 3) + 16384 * Group(c, 4));
    case 3 => assert c == s + 2 * Half(n) * (Group(c, 3) + 128 * Group(c, 4));
    case 4 => assert c == s + 2 * Half(n) * Group(c, 4);
    case _ =>
  }

  /** A number in range is told by its low bits. */
  lemma InRange(c: cell, n: nat, s: int, v: cell)
    requires 1 <= n <= 5 && FitsIn(c, n) && (if n == 5 then s == c else exists q: nat :: c == s + 2 * Half(n) * q)
    requires n == 5 ==> v == s % 0x1_0000_0000
    requires n <= 4 ==> -Half(n) <= Signed(v) < Half(n) && (Signed(v) == s || Signed(v) == s - 2 * Half(n))
    ensures v == c
  {
    if n <= 4 {
      var q: nat :| c == s + 2 * Half(n) * q;
    }
  }

  lemma EncodedGroups(c: cell)
    ensures var code := Encoded(c); Complete(code) && FitsIn(c, |code|)
    ensures var code := Encoded(c); forall i :: 0 <= i < |code| ==> code[i] % 128 == Group(c, |code| - 1 - i)
  {
    hide Group;
    var code := Encoded(c);
    assert code[|code|-1] == Group(c, 0);
  }

  /** No code of a cell is shorter. */
  lemma EncodedShortest(c: cell, code: Code)
    requires |code| <= 5 && Value(code) == c
    ensures |Encoded(c)| <= |code|
  {
    hide Value;
    CodeMeans(code);
    assert FitsIn(c, |code|);
  }

  // ----- whole images -----

  function EncodedEach(cells: seq<cell>): (codes: seq<Code>)
    ensures |codes| == |cells|
  {
    seq<Code>(|cells|, i requires 0 <= i < |cells| => Encoded(cells[i]))
  }

  lemma {:induction false} CodeStops(code: Code, rest: seq<byte>)
    requires !Continues(code[|code|-1]) && forall i :: 0 <= i < |code| - 1 ==> Continues(code[i])
    ensures CodeLength(code + rest) == |code|
  {
    if |code| > 1 {
      CodeStops(code[1..], rest);
      assert (code + rest)[1..] == code[1..] + rest;
    }
  }

  lemma EncodedStops(c: cell, rest: seq<byte>)
    ensures CodeLength(Encoded(c) + rest) == |Encoded(c)|
  {
    hide Group, Width, CodeLength;
    var code := Encoded(c);
    assert code[|code|-1] == Group(c, 0);
    forall i | 0 <= i < |code| - 1 ensures Continues(code[i]) {
      assert code[i] == Group(c, |code| - 1 - i) + 128;
    }
    CodeStops(code, rest);
  }

  /** The loader cuts what the compiler has written into the codes of the cells. */
  lemma {:induction false} EncodedCuts(cells: seq<cell>)
    ensures Codes(EncodedAll(cells)) == EncodedEach(cells)
  {
    hide CodeLength;
    if cells != [] {
      var code, rest := Encoded(cells[0]), EncodedAll(cells[1..]);
      EncodedStops(cells[0], rest);
      CodesUnfold(code, rest);
      EncodedCuts(cells[1..]);
      assert EncodedEach(cells) == [code] + EncodedEach(cells[1..]);
    }
  }

  lemma {:induction false} EncodedAppend(cells: seq<cell>, c: cell)
    ensures EncodedAll(cells + [c]) == EncodedAll(cells) + Encoded(c)
  {
    if cells == [] {
      assert cells + [c] == [c] && [c][1..] == [];
    } else {
      assert (cells + [c])[1..] == cells[1..] + [c];
      EncodedAppend(cells[1..], c);
    }
  }

  lemma {:induction false} EncodedPrefix(cells: seq<cell>, m: nat)
    requires m <= |cells|
    ensures PrefixLength(EncodedEach(cells), m) == |EncodedAll(cells[..m])|
  {
    if m > 0 {
      EncodedPrefix(cells, m - 1);
      assert cells[..m] == cells[..m-1] + [cells[m-1]];
      EncodedAppend(cells[..m-1], cells[m-1]);
    }
  }

  /** The compiler gives up where the codes exceed the cells by this margin. */
  predicate WithinMargin(cells: seq<cell>, m: nat)
    requires m <= |cells|
  {
    |EncodedAll(cells[..m])| - 4 * m < MARGIN - 2
  }

  predicate Compressible(cells: seq<cell>) {
    forall m :: 1 <= m <= |cells| ==> WithinMargin(cells, m)
  }

  /** The loader accepts everything that the compiler writes, and decodes it to the cells. */
  lemma WrittenExpands(cells: seq<cell>)
    requires Compressible(cells)
    ensures var codes := Codes(EncodedAll(cells));
      WellFormed(codes) && |codes| == |cells| && RingFits(codes) && Cells(codes) == cells
  {
    hide Value, Complete, Encoded;
    EncodedCuts(cells);
    var codes := EncodedEach(cells);
    forall i | 0 <= i < |cells| ensures Complete(codes[i]) && Cells(codes)[i] == cells[i] {
      EncodedDecodes(cells[i]);
    }
    forall m | 1 <= m < |codes| - MARGIN ensures FitsAt(codes, m) {
      EncodedPrefix(cells, m);
      assert WithinMargin(cells, m);
    }
  }

  // ----- the memory image -----

  /** The little-endian cell in four bytes of memory. */
  function CellIn(buf: seq<byte>, a: nat): int
    requires a + 4 <= |buf|
  {
    var b0: int, b1: int, b2: int, b3: int := buf[a], buf[a+1], buf[a+2], buf[a+3];
    b0 + 256 * b1 + 65536 * b2 + 16_777_216 * b3
  }

  lemma BytesOf(c: cell)
    ensures ByteOf(c, 0) + 256 * ByteOf(c, 1) + 65536 * ByteOf(c, 2) + 16_777_216 * ByteOf(c, 3) == c
  {
    var q1, q2, q3 := c / 0x100, c / 0x1_0000, c / 0x100_0000;
    assert q2 == q1 / 0x100 && q3 == q2 / 0x100;
  }

  /** An image holds its cells, in order. */
  lemma ImageHolds(cells: seq<cell>, j: nat)
    requires j < |cells|
    ensures CellIn(Image(cells), 4 * j) == cells[j]
  {
    hide ByteOf;
    var image := Image(cells);
    forall i | 0 <= i < 4 ensures image[4 * j + i] == ByteOf(cells[j], i) {
      Quarter(j, i);
    }
    BytesOf(cells[j]);
  }

  lemma Quarter(j: nat, i: nat)
    requires i < 4
    ensures (4 * j + i) / 4 == j && (4 * j + i) % 4 == i
  {
  }

  /** The loader gets back the cells that the compiler has written, in memory of their size. */
  method LoadWritten(code: array<byte>, codesize: nat, memsize: nat, ghost cells: seq<cell>) returns (ok: bool)
    requires codesize <= code.Length && memsize <= code.Length && memsize == 4 * |cells|
    requires Compressible(cells) && code[..codesize] == EncodedAll(cells)
    modifies code
    ensures ok && forall j :: 0 <= j < |cells| ==> CellIn(code[..], 4 * j) == cells[j]
  {
    hide Codes, Cells, Image, EncodedAll, RingFits, WellFormed, Compressible, CellIn;
    assert code[..][..codesize] == code[..codesize];
    WrittenExpands(cells);
    ok := Expand(code, codesize, memsize);
    forall j | 0 <= j < |cells| ensures CellIn(code[..], 4 * j) == cells[j] {
      ImageHolds(cells, j);
      SameCellIn(code[..], code[..][..memsize], 4 * j);
    }
  }

  lemma SameCellIn(buf: seq<byte>, buf': seq<byte>, a: nat)
    requires buf' <= buf && a + 4 <= |buf'|
    ensures CellIn(buf, a) == CellIn(buf', a)
  {
  }

  // ----- the compiler -----

  lemma WidthFound(c: cell, n: nat)
    requires 1 <= n <= 5 && FitsIn(c, n) && (n == 1 || !FitsIn(c, n - 1))
    ensures n == Width(c)
  {
  }

  /** The test by which a leading zero is skipped. */
  lemma ZeroSkipped(c: cell, n: nat)
    requires 2 <= n <= 5 && forall k :: n <= k < 5 ==> Group(c, k) == 0
    ensures Group(c, n - 1) == 0 && Group(c, n - 2) < 64 <==> Signed(c) >= 0 && FitsIn(c, n - 1)
  {
    GroupsOf(c);
    assert n <= 4 ==> Group(c, 4) == 0;
    assert n <= 3 ==> Group(c, 3) == 0;
    assert n <= 2 ==> Group(c, 2) == 0;
  }

  /** The tests by which a leading -1 is skipped: the highest group has four bits only. */
  lemma OneSkipped(c: cell, n: nat)
    requires 2 <= n <= 5 && (n < 5 ==> Group(c, 4) == 15) && forall k :: n <= k < 4 ==> Group(c, k) == 127
    ensures Group(c, n - 1) == (if n == 5 then 15 else 127) && Group(c, n - 2) >= 64 <==> Signed(c) < 0 && FitsIn(c, n - 1)
  {
    GroupsOf(c);
    assert n <= 3 ==> Group(c, 3) == 127;
    assert n <= 2 ==> Group(c, 2) == 127;
  }

  /** A number that is not negative never looks like one with a leading -1. */
  lemma NoneToSkip(c: cell, n: nat)
    requires 1 <= n <= 5 && FitsIn(c, n) && (n <= 4 ==> Signed(c) >= 0)
    ensures Group(c, n - 1) < 64
  {
    GroupsOf(c);
  }

  function ShiftedRight(c: nat, k: nat): nat {
    if k == 0 then c else ShiftedRight(c, k - 1) / 128
  }

  lemma ShiftedGroup(c: cell, k: nat)
    requires k < 5
    ensures ShiftedRight(c, k) % 128 == Group(c, k)
  {
    var q1, q2, q3, q4 := c / 128, c / 16384, c / 2_097_152, c / 268_435_456;
    assert q2 == q1 / 128 && q3 == q2 / 128 && q4 == q3 / 128;
    assert ShiftedRight(c, 0) == c;
    assert ShiftedRight(c, 1) == ShiftedRight(c, 0) / 128 == q1;
    assert ShiftedRight(c, 2) == ShiftedRight(c, 1) / 128 == q2;
    assert ShiftedRight(c, 3) == ShiftedRight(c, 2) / 128 == q3;
    assert ShiftedRight(c, 4) == ShiftedRight(c, 3) / 128 == q4;
  }

  /** The groups of seven bits, low one first. */
  method Split(c: cell) returns (t: array<byte>)
    ensures fresh(t) && t.Length == ENC_MAX && forall k :: 0 <= k < ENC_MAX ==> t[k] == Group(c, k)
  {
    hide Group, ShiftedRight;
    t := new byte[ENC_MAX];
    var p: nat := c;
    var index := 0;
    NotShifted(c);
    while index < ENC_MAX
      invariant 0 <= index <= ENC_MAX && p == ShiftedRight(c, index)
      invariant forall k :: 0 <= k < index ==> t[k] == Group(c, k)
    {
      ShiftedGroup(c, index);
      t[index] := p % 0x80;
      p := p / 0x80;
      index := index + 1;
      ShiftedOnce(c, index);
    }
  }

  lemma NotShifted(c: cell)
    ensures ShiftedRight(c, 0) == c
  {
  }

  lemma ShiftedOnce(c: cell, k: nat)
    requires k > 0
    ensures ShiftedRight(c, k) == ShiftedRight(c, k - 1) / 0x80
  {
  }

  /** The three steps that skip leading groups leave the shortest code. */
  method SkipLeading(t: array<byte>, ghost c: cell) returns (index: nat)
    requires t.Length == ENC_MAX && forall k :: 0 <= k < ENC_MAX ==> t[k] == Group(c, k)
    ensures index == Width(c)
  {
    hide Group, Width, FitsIn, Signed;
    index := ENC_MAX;
    AlwaysFits(c);
    while index > 1 && t[index-1] == 0 && t[index-2] < 0x40
      invariant 1 <= index <= ENC_MAX && FitsIn(c, index) && (index < ENC_MAX ==> Signed(c) >= 0)
      invariant forall k :: index <= k < ENC_MAX ==> t[k] == 0
    {
      ZeroSkipped(c, index);
      index := index - 1;
    }
    if index > 1 { ZeroSkipped(c, index); }
    if index == ENC_MAX {
      OneSkipped(c, index);
      if t[index-1] == ENC_MASK && t[index-2] >= 0x40 {
        index := index - 1;
      }
    }
    while index > 1 && t[index-1] == 0x7f && t[index-2] >= 0x40
      invariant 1 <= index <= ENC_MAX && FitsIn(c, index)
      invariant index == ENC_MAX ==> !FitsIn(c, index - 1)
      invariant Signed(c) >= 0 ==> index == 1 || !FitsIn(c, index - 1)
      invariant Signed(c) < 0 && index < ENC_MAX ==> t[4] == ENC_MASK && forall k :: index <= k < 4 ==> t[k] == 0x7f
    {
      if index == ENC_MAX || Signed(c) >= 0 { NoneToSkip(c, index); }
      OneSkipped(c, index);
      index := index - 1;
    }
    if 1 < index < ENC_MAX && Signed(c) < 0 { OneSkipped(c, index); }
    WidthFound(c, index);
  }

  lemma AlwaysFits(c: cell)
    ensures FitsIn(c, ENC_MAX)
  {
  }

  /** The bytes of one cell, high group first, with continuation bits. */
  method EncodeCell(c: cell) returns (code: seq<byte>)
    ensures code == Encoded(c)
  {
    hide Group, Width;
    var t := Split(c);
    var index := SkipLeading(t, c);
    ghost var n := index;
    code := [];
    while index > 0
      invariant 0 <= index <= n && code == Encoded(c)[..n - index]
    {
      index := index - 1;
      code := code + [if index == 0 then t[index] else t[index] + 0x80];
    }
  }

  class Output {
    var file: seq<byte>
    var bytesIn: int
    var bytesOut: int
    ghost var written: seq<cell>

    constructor ()
      ensures Valid() && written == []
    {
      file, bytesIn, bytesOut, written := [], 0, 0, [];
    }

    ghost predicate Valid()
      reads this
    {
      file == EncodedAll(written) && bytesIn == 4 * |written| && bytesOut == |file| && Compressible(written)
    }

    /** write_encoded; it gives up (and the compiler starts again without compression) exactly
        where the codes exceed the margin. */
    method WriteEncoded(cells: seq<cell>) returns (ok: bool)
      requires Valid()
      modifies this
      ensures ok <==> Compressible(old(written) + cells)
      ensures ok ==> Valid() && written == old(written) + cells
    {
      hide Encoded, WithinMargin, EncodedAll;
      ghost var all := old(written) + cells;
      var i := 0;
      while i < |cells|
        invariant 0 <= i <= |cells| && Valid() && written == all[..|old(written)| + i]
      {
        var code := EncodeCell(cells[i]);
        EncodedAppend(written, cells[i]);
        file := file + code;
        bytesOut := bytesOut + |code|;
        bytesIn := bytesIn + 4;
        ghost var m := |written| + 1;
        assert all[..m] == written + [cells[i]];
        OneMore(written, cells[i]);
        written := written + [cells[i]];
        if bytesOut - bytesIn >= MARGIN - 2 {
          MarginOf(all, m);
          return false;
        }
        i := i + 1;
      }
      assert all[..|old(written)| + i] == all;
      ok := true;
    }
  }

  lemma OneMore(cells: seq<cell>, c: cell)
    requires Compressible(cells)
    ensures Compressible(cells + [c]) <==> |EncodedAll(cells + [c])| - 4 * (|cells| + 1) < MARGIN - 2
  {
    var more := cells + [c];
    assert more[..|more|] == more;
    assert WithinMargin(more, |more|) <==> |EncodedAll(more)| - 4 * (|cells| + 1) < MARGIN - 2;
    forall m | 1 <= m <= |cells| ensures WithinMargin(more, m) {
      assert WithinMargin(cells, m) && more[..m] == cells[..m];
    }
  }

  lemma MarginOf(all: seq<cell>, m: nat)
    requires 1 <= m <= |all| && |EncodedAll(all[..m])| - 4 * m >= MARGIN - 2
    ensures !Compressible(all)
  {
    assert !WithinMargin(all, m);
  }
}
