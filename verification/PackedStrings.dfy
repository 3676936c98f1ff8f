/**
  Strings in cells (amx.cpp, `amx_StrLen`, `amx_SetString`, `amx_GetString`).

  An unpacked string has one character per cell; a packed one has four, and the first of them
  in the most significant byte.  Cells have 32 bits and are little-endian, so that the
  characters of a packed string are not in the order of the bytes in memory.
*/
module PackedStrings {

  type byte = x: int | 0 <= x < 256

  const UNPACKEDMAX := 0xff_ffff
  const UNLIMITED := 0x7fff_ffff

  // ----- memory -----

  predicate HasCell(mem: array<byte>, i: nat) { 4 * i + 4 <= mem.Length }

  /** The cell number `i`, as an unsigned number. */
  function Cell(mem: array<byte>, i: nat): (c: int)
    requires HasCell(mem, i)
    reads mem
    ensures 0 <= c < 0x1_0000_0000
  {
    var b0: int, b1: int, b2: int, b3: int := mem[4*i], mem[4*i+1], mem[4*i+2], mem[4*i+3];
    b0 + 0x100 * b1 + 0x1_0000 * b2 + 0x100_0000 * b3
  }

  method StoreCell(mem: array<byte>, i: nat, c: int)
    requires HasCell(mem, i) && 0 <= c < 0x1_0000_0000
    modifies mem
    ensures Cell(mem, i) == c
    ensures forall k :: 0 <= k < 4 * i || 4 * i + 4 <= k < mem.Length ==> mem[k] == old(mem[k])
  {
    var q1 := c / 0x100;
    var q2 := q1 / 0x100;
    var q3 := q2 / 0x100;
    mem[4*i] := c % 0x100;
    mem[4*i+1] := q1 % 0x100;
    mem[4*i+2] := q2 % 0x100;
    mem[4*i+3] := q3;
  }

  method SwapCell(mem: array<byte>, i: nat)
    requires HasCell(mem, i)
    modifies mem
    ensures mem[4*i] == old(mem[4*i+3]) && mem[4*i+1] == old(mem[4*i+2])
    ensures mem[4*i+2] == old(mem[4*i+1]) && mem[4*i+3] == old(mem[4*i])
    ensures forall k :: 0 <= k < 4 * i || 4 * i + 4 <= k < mem.Length ==> mem[k] == old(mem[k])
  {
    mem[4*i], mem[4*i+3] := mem[4*i+3], mem[4*i];
    mem[4*i+1], mem[4*i+2] := mem[4*i+2], mem[4*i+1];
  }

  // ----- what a string in memory is -----

  predicate NulFree(t: seq<byte>) { forall k :: 0 <= k < |t| ==> t[k] != 0 }

  /** Where the character `k` of a packed string at cell `at` is: most significant byte first. */
  function CharAt(at: nat, k: nat): nat { 4 * (at + k / 4) + 3 - k % 4 }

  predicate PackedChars(mem: array<byte>, at: nat, t: seq<byte>)
    reads mem
  {
    && HasCell(mem, at + |t| / 4)
    && (forall k :: 0 <= k < |t| ==> mem[CharAt(at, k)] == t[k])
    && mem[CharAt(at, |t|)] == 0
  }

  predicate UnpackedChars(mem: array<byte>, at: nat, t: seq<byte>)
    reads mem
  {
    && HasCell(mem, at + |t|)
    && (forall k :: 0 <= k < |t| ==> IsChar(Cell(mem, at + k), t[k]))
    && Cell(mem, at + |t|) == 0
  }

  /** The cell of a character in an unpacked string. */
  predicate IsChar(c: int, b: byte) { c != 0 && c % 0x100 == b }

  /** The string `t` is at cell `at`, in the format that its first cell tells. */
  predicate Holds(mem: array<byte>, at: nat, t: seq<byte>)
    reads mem
  {
    NulFree(t) && HasCell(mem, at) &&
    if Cell(mem, at) > UNPACKEDMAX then PackedChars(mem, at, t) else UnpackedChars(mem, at, t)
  }

  lemma TopByte(mem: array<byte>, i: nat)
    requires HasCell(mem, i)
    ensures Cell(mem, i) > UNPACKEDMAX <==> mem[4*i+3] != 0
    ensures Cell(mem, i) == 0 <==> mem[4*i] == 0 && mem[4*i+1] == 0 && mem[4*i+2] == 0 && mem[4*i+3] == 0
  {
  }

  lemma PackedEnd(mem: array<byte>, at: nat, t: seq<byte>, k: nat)
    requires NulFree(t) && PackedChars(mem, at, t) && k <= |t|
    ensures CharAt(at, k) < mem.Length && (mem[CharAt(at, k)] == 0 <==> k == |t|)
  {
    assert k < |t| ==> t[k] != 0;
  }

  lemma UnpackedEnd(mem: array<byte>, at: nat, t: seq<byte>, k: nat)
    requires UnpackedChars(mem, at, t) && k <= |t|
    ensures HasCell(mem, at + k) && (Cell(mem, at + k) == 0 <==> k == |t|)
  {
    assert k < |t| ==> t[k] == Cell(mem, at + k) % 0x100;
  }

  lemma NotLonger(mem: array<byte>, at: nat, t: seq<byte>, u: seq<byte>)
    requires Holds(mem, at, t) && Holds(mem, at, u)
    ensures |u| <= |t|
  {
    if |t| < |u| {
      if Cell(mem, at) <= UNPACKEDMAX {
        UnpackedEnd(mem, at, t, |t|);
        UnpackedEnd(mem, at, u, |t|);
      }
    }
  }

  /** A memory holds one string only. */
  lemma HoldsOne(mem: array<byte>, at: nat, t: seq<byte>, u: seq<byte>)
    requires Holds(mem, at, t) && Holds(mem, at, u)
    ensures t == u
  {
    NotLonger(mem, at, t, u);
    NotLonger(mem, at, u, t);
    forall k | 0 <= k < |t| ensures t[k] == u[k] {
      if Cell(mem, at) > UNPACKEDMAX {
        assert mem[CharAt(at, k)] == t[k];
      } else {
        assert Cell(mem, at + k) % 0x100 == t[k];
      }
    }
  }

  // ----- length -----

  method StrLen(mem: array<byte>, at: nat, ghost t: seq<byte>) returns (length: nat)
    requires Holds(mem, at, t)
    ensures length == |t|
  {
    if Cell(mem, at) > UNPACKEDMAX {
      length := PackedLen(mem, at, t);
    } else {
      length := 0;
      UnpackedEnd(mem, at, t, length);
      while Cell(mem, at + length) != 0
        invariant length <= |t|
        invariant Cell(mem, at + length) == 0 <==> length == |t|
        decreases |t| - length
      {
        length := length + 1;
        UnpackedEnd(mem, at, t, length);
      }
    }
  }

  /** `strlen`, which goes by the bytes in memory, finds the last cell at least. */
  method ByteLen(mem: array<byte>, at: nat, ghost t: seq<byte>) returns (len: nat)
    requires NulFree(t) && PackedChars(mem, at, t)
    ensures len / 4 == |t| / 4
  {
    ghost var n := |t| / 4;
    len := 0;
    while mem[4*at+len] != 0
      invariant len <= 4 * n + 3
      invariant forall p :: 4 * at <= p < 4 * at + len ==> mem[p] != 0
      decreases 4 * n + 3 - len
    {
      ghost var last := CharAt(at, |t|);
      assert mem[last] == 0 && last == 4 * at + 4 * n + 3 - |t| % 4;
      len := len + 1;
    }
    if len < 4 * n {
      PackedEnd(mem, at, t, len / 4 * 4 + 3 - len % 4);
    }
  }

  method PackedLen(mem: array<byte>, at: nat, ghost t: seq<byte>) returns (len: nat)
    requires NulFree(t) && PackedChars(mem, at, t)
    ensures len == |t|
  {
    hide CharAt;
    len := ByteLen(mem, at, t);
    len := len - len % 4;
    ghost var first := len;
    var c := Cell(mem, at + len / 4);
    while c / 0x100_0000 != 0
      invariant first <= len <= |t| && 0 <= c < 0x1_0000_0000
      invariant c == CellShifted(mem, at + first / 4, len - first)
      decreases |t| - len
    {
      NextChar(mem, at, t, len);
      len := len + 1;
      c := c * 0x100 % 0x1_0000_0000;
    }
    NextChar(mem, at, t, len);
  }

  /** The cell made of four bytes, shifted left by `j` characters. */
  function Shifted(b0: int, b1: int, b2: int, b3: int, j: nat): int {
    if j == 0 then b0 + 0x100 * b1 + 0x1_0000 * b2 + 0x100_0000 * b3
    else if j == 1 then 0x100 * b0 + 0x1_0000 * b1 + 0x100_0000 * b2
    else if j == 2 then 0x1_0000 * b0 + 0x100_0000 * b1
    else if j == 3 then 0x100_0000 * b0
    else 0
  }

  lemma NextShift(b0: int, b1: int, b2: int, b3: int, j: nat)
    requires 0 <= b0 < 0x100 && 0 <= b1 < 0x100 && 0 <= b2 < 0x100 && 0 <= b3 < 0x100 && j <= 3
    ensures var c := Shifted(b0, b1, b2, b3, j);
      && 0 <= c < 0x1_0000_0000
      && c / 0x100_0000 == (if j == 0 then b3 else if j == 1 then b2 else if j == 2 then b1 else b0)
      && c * 0x100 % 0x1_0000_0000 == Shifted(b0, b1, b2, b3, j + 1)
  {
    var c := Shifted(b0, b1, b2, b3, j);
    if j == 0 {
      TopChar(b3, b0 + 0x100 * b1 + 0x1_0000 * b2, c);
    } else if j == 1 {
      TopChar(b2, 0x100 * b0 + 0x1_0000 * b1, c);
    } else if j == 2 {
      TopChar(b1, 0x1_0000 * b0, c);
    } else {
      TopChar(b0, 0, c);
    }
  }

  function CellShifted(mem: array<byte>, i: nat, j: nat): int
    requires HasCell(mem, i)
    reads mem
  {
    Shifted(mem[4*i], mem[4*i+1], mem[4*i+2], mem[4*i+3], j)
  }

  /** The top character of the shifted last cell. */
  lemma NextChar(mem: array<byte>, at: nat, t: seq<byte>, k: nat)
    requires NulFree(t) && PackedChars(mem, at, t) && |t| / 4 * 4 <= k <= |t|
    ensures var c := CellShifted(mem, at + |t| / 4, k % 4);
      && 0 <= c < 0x1_0000_0000
      && (c / 0x100_0000 == 0 <==> k == |t|)
      && c * 0x100 % 0x1_0000_0000 == CellShifted(mem, at + |t| / 4, k % 4 + 1)
  {
    hide Shifted, CharAt;
    var i, j := at + |t| / 4, k % 4;
    PackedEnd(mem, at, t, k);
    LastCell(at, |t|, k);
    NextShift(mem[4*i], mem[4*i+1], mem[4*i+2], mem[4*i+3], j);
  }

  lemma LastCell(at: nat, n: nat, k: nat)
    requires n / 4 * 4 <= k <= n
    ensures CharAt(at, k) == 4 * (at + n / 4) + 3 - k % 4
  {
  }

  lemma TopChar(top: int, others: int, c: int)
    requires 0 <= top < 0x100 && 0 <= others < 0x100_0000 && c == 0x100_0000 * top + others
    ensures c / 0x100_0000 == top && c * 0x100 % 0x1_0000_0000 == others * 0x100
  {
    assert c * 0x100 == 0x1_0000_0000 * top + others * 0x100;
  }

  // ----- storing a string -----

  /** What is stored of a text: `size` counts cells, and a terminator has to fit in. */
  function Stored(t: seq<byte>, pack: bool, size: nat): seq<byte>
    requires size > 0
  {
    var room := if pack then 4 * size else size;
    var limited := size < (if pack then UNLIMITED / 4 else UNLIMITED);
    if limited && |t| >= room then t[..room-1] else t
  }

  /** The cells that a text needs. */
  function Cells(t: seq<byte>, pack: bool): nat {
    1 + if pack then |t| / 4 else |t|
  }

  predicate Swapped(mem: array<byte>, was: seq<byte>, i: nat)
    requires HasCell(mem, i) && |was| == mem.Length
    reads mem
  {
    && mem[4*i] == was[4*i+3] && mem[4*i+1] == was[4*i+2]
    && mem[4*i+2] == was[4*i+1] && mem[4*i+3] == was[4*i]
  }

  /** `swapcell` on the cells from the last one back to the first. */
  method SwapAll(mem: array<byte>, at: nat, last: nat)
    requires HasCell(mem, at + last)
    modifies mem
    ensures forall i :: at <= i <= at + last ==> Swapped(mem, old(mem[..]), i)
    ensures forall p :: 0 <= p < 4 * at || 4 * (at + last + 1) <= p < mem.Length ==> mem[p] == old(mem[p])
  {
    ghost var was := mem[..];
    var j: int := last;
    while j >= 0
      invariant -1 <= j <= last
      invariant forall i :: at + j < i <= at + last ==> Swapped(mem, was, i)
      invariant forall p :: 0 <= p < 4 * (at + j + 1) || 4 * (at + last + 1) <= p < mem.Length ==> mem[p] == was[p]
    {
      label Before:
      SwapCell(mem, at + j);
      forall i | at + j <= i <= at + last ensures Swapped(mem, was, i) {
        if i > at + j {
          assert old@Before(Swapped(mem, was, i));
        }
      }
      j := j - 1;
    }
  }

  /** A character of the source, whose type is signed, in a cell. */
  function Extended(c: byte): int {
    if c < 0x80 then c else 0xffff_ff00 + c
  }

  /** The cells that `n` characters and a terminator take, four to a cell if packed. */
  function CellsFor(n: nat, pack: bool): nat { if pack then (n + 4) / 4 else n + 1 }

  /** As much is stored as fits in `size` cells with a terminator, and no less; the largest sizes
      are no limit. */
  lemma StoredMeans(t: seq<byte>, pack: bool, size: nat)
    requires size > 0
    ensures var s := Stored(t, pack, size);
      && s <= t && Cells(s, pack) == CellsFor(|s|, pack)
      && if size < (if pack then 0x1fff_ffff else 0x7fff_ffff)
         then CellsFor(|s|, pack) <= size && (s == t || CellsFor(|s| + 1, pack) > size)
         else s == t
  {
  }


  ghost predicate Holding(mem: array<byte>, at: nat, t: seq<byte>)
    reads mem
  {
    && HasCell(mem, at + |t|)
    && (forall k :: 0 <= k < |t| ==> Cell(mem, at + k) == Extended(t[k]))
    && Cell(mem, at + |t|) == 0
  }

  method SetPacked(dest: array<byte>, at: nat, source: seq<byte>, len: nat)
    requires NulFree(source) && len <= |source| && HasCell(dest, at + len / 4)
    modifies dest
    ensures Holds(dest, at, source[..len])
    ensures forall p :: 0 <= p < 4 * at || 4 * (at + len / 4 + 1) <= p < dest.Length ==> dest[p] == old(dest[p])
  {
    StoreCell(dest, at + len / 4, 0);
    TopByte(dest, at + len / 4);
    forall i | 0 <= i < len {
      dest[4 * at + i] := source[i];
    }
    ghost var was := dest[..];
    SwapAll(dest, at, len / 4);
    PackedNow(dest, at, source[..len], was);
  }

  lemma PackedNow(mem: array<byte>, at: nat, t: seq<byte>, was: seq<byte>)
    requires NulFree(t) && HasCell(mem, at + |t| / 4) && |was| == mem.Length
    requires forall k :: 0 <= k < |t| ==> was[4*at+k] == t[k]
    requires forall p :: 4 * at + |t| <= p < 4 * (at + |t| / 4 + 1) ==> was[p] == 0
    requires forall i :: at <= i <= at + |t| / 4 ==> Swapped(mem, was, i)
    ensures Holds(mem, at, t)
  {
    forall k | 0 <= k <= |t| ensures CharAt(at, k) < mem.Length && mem[CharAt(at, k)] == was[4*at+k] {
      assert Swapped(mem, was, at + k / 4);
    }
    assert PackedChars(mem, at, t);
    assert Swapped(mem, was, at);
    TopByte(mem, at);
    if t != [] {
      assert t[0] == mem[CharAt(at, 0)];
    }
  }

  /** Stores a string as far as it fits.  What can be told of it in memory is that string, except
      for an unpacked one whose first character is negative: it will be taken for a packed one. */
  method SetString(dest: array<byte>, at: nat, source: seq<byte>, pack: bool, size: nat)
    requires NulFree(source) && size > 0 && HasCell(dest, at + Cells(Stored(source, pack, size), pack) - 1)
    modifies dest
    ensures var t := Stored(source, pack, size);
      Holds(dest, at, t) <==> pack || t == [] || t[0] < 0x80
    ensures forall p :: 0 <= p < 4 * at || 4 * (at + Cells(Stored(source, pack, size), pack)) <= p < dest.Length
              ==> dest[p] == old(dest[p])
  {
    var len := |source|;
    if pack {
      if size < UNLIMITED / 4 && len >= 4 * size {
        len := 4 * size - 1;
      }
      assert Stored(source, pack, size) == source[..len];
      SetPacked(dest, at, source, len);
    } else {
      if size < UNLIMITED && len >= size {
        len := size - 1;
      }
      ghost var t := Stored(source, pack, size);
      assert t == source[..len];
      var i := 0;
      while i < len
        invariant i <= len
        invariant forall k :: 0 <= k < i ==> Cell(dest, at + k) == Extended(t[k])
        invariant forall p :: 0 <= p < 4 * at || 4 * (at + i) <= p < dest.Length ==> dest[p] == old(dest[p])
      {
        label Before:
        StoreCell(dest, at + i, Extended(source[i]));
        forall k | 0 <= k < i ensures Cell(dest, at + k) == Extended(t[k]) {
          assert old@Before(Cell(dest, at + k)) == Extended(t[k]);
        }
        i := i + 1;
      }
      label Last:
      StoreCell(dest, at + len, 0);
      forall k | 0 <= k < len ensures Cell(dest, at + k) == Extended(t[k]) {
        assert old@Last(Cell(dest, at + k)) == Extended(t[k]);
      }
      ToldApart(dest, at, t);
    }
  }

  lemma AllBytes(mem: array<byte>, i: nat, c: byte)
    requires HasCell(mem, i) && Cell(mem, i) == Extended(c) && c >= 0x80
    ensures mem[4*i] != 0 && mem[4*i+1] != 0 && mem[4*i+2] != 0 && mem[4*i+3] != 0
  {
  }

  lemma UnpackedHeld(mem: array<byte>, at: nat, t: seq<byte>)
    requires NulFree(t) && Holding(mem, at, t)
    ensures UnpackedChars(mem, at, t)
  {
    hide Cell, Extended;
    forall k | 0 <= k < |t| ensures IsChar(Cell(mem, at + k), t[k]) {
      assert Cell(mem, at + k) == Extended(t[k]);
      ExtendedChar(t[k]);
    }
  }

  lemma ExtendedChar(c: byte)
    ensures Extended(c) % 0x100 == c && (Extended(c) == 0 <==> c == 0)
  {
    Quotient(Extended(c), if c < 0x80 then 0 else 0xff_ffff, c);
  }

  /** When the characters in the cells are told to be the string. */
  lemma ToldApart(mem: array<byte>, at: nat, t: seq<byte>)
    requires NulFree(t) && Holding(mem, at, t)
    ensures Holds(mem, at, t) <==> t == [] || t[0] < 0x80
  {
    if t == [] || t[0] < 0x80 {
      assert Cell(mem, at) == (if t == [] then 0 else Extended(t[0])) by {
        assert Cell(mem, at) == Cell(mem, at + 0);
      }
      UnpackedHeld(mem, at, t);
    } else {
      assert Cell(mem, at + 0) == Extended(t[0]);
      if Holds(mem, at, t) {
        AllNegative(mem, at, t, |t|);
        AllBytes(mem, at + |t| / 4, t[|t|/4]);
      }
    }
  }

  lemma {:induction false} AllNegative(mem: array<byte>, at: nat, t: seq<byte>, n: nat)
    requires NulFree(t) && Holding(mem, at, t) && PackedChars(mem, at, t) && t != [] && t[0] >= 0x80 && n <= |t|
    ensures forall k :: 0 <= k < n ==> t[k] >= 0x80
  {
    if n > 0 {
      AllNegative(mem, at, t, n - 1);
      var k := n - 1;
      assert mem[CharAt(at, k)] == t[k];
      assert Cell(mem, at + k / 4) == Extended(t[k/4]);
      assert k / 4 < n - 1 || k == 0;
    }
  }

  // ----- reading a string -----

  /** `c >> 8 * i`. */
  function Shift(c: int, i: nat): int
    decreases i
  {
    if i == 0 then c else Shift(c / 0x100, i - 1)
  }

  lemma Quotient(c: int, q: int, r: int)
    requires c == 0x100 * q + r && 0 <= r < 0x100
    ensures c / 0x100 == q && c % 0x100 == r
  {
  }

  /** One byte of a cell, as a shift finds it. */
  lemma ByteOf(mem: array<byte>, i: nat, k: nat)
    requires HasCell(mem, i) && k <= 3
    ensures Shift(Cell(mem, i), k) % 0x100 == mem[4*i+k]
  {
    var b0: int, b1: int, b2: int, b3: int := mem[4*i], mem[4*i+1], mem[4*i+2], mem[4*i+3];
    var q2 := b2 + 0x100 * b3;
    var q1 := b1 + 0x100 * q2;
    var c := Cell(mem, i);
    Quotient(c, q1, b0);
    Quotient(q1, q2, b1);
    Quotient(q2, b3, b2);
    assert Shift(c, 0) == c;
    assert k >= 1 ==> Shift(c, k) == Shift(q1, k - 1);
    assert k >= 2 ==> Shift(q1, k - 1) == Shift(q2, k - 2);
    assert k == 3 ==> Shift(q2, 1) == Shift(b3, 0) == b3;
  }

  /** Room for what will be written.  Behind a packed string that is shorter than `size - 1`, a
      second terminator is written. */
  predicate Fits(dest: array<byte>, t: seq<byte>, packed: bool, size: nat) {
    var written := |t| + if packed then 2 else 1;
    dest.Length >= if written < size then written else size
  }

  predicate Copied(dest: array<byte>, t: seq<byte>, n: nat)
    reads dest
  {
    n <= dest.Length && n <= |t| && forall k :: 0 <= k < n ==> dest[k] == t[k]
  }

  /** What is read with room for `size` characters: the string, and always a terminator.  Nothing
      behind it is written, except for a second terminator exactly if the string is packed and
      leaves two cells of the room. */
  method GetString(dest: array<byte>, mem: array<byte>, at: nat, size: nat, ghost t: seq<byte>)
    requires dest != mem && Holds(mem, at, t) && Fits(dest, t, Cell(mem, at) > UNPACKEDMAX, size)
    modifies dest
    ensures size > 0 ==> var n := if |t| < size then |t| else size - 1;
      && n < dest.Length && dest[..n] == t[..n] && dest[n] == 0
      && var second := Cell(mem, at) > UNPACKEDMAX && |t| + 2 <= size;
      && (second ==> |t| + 1 < dest.Length && dest[|t|+1] == 0)
      && forall k :: n < k < dest.Length && !(second && k == |t| + 1) ==> dest[k] == old(dest[k])
    ensures size == 0 ==> dest[..] == old(dest[..])
  {
    hide PackedChars, UnpackedChars;
    var len := 0;
    if Cell(mem, at) > UNPACKEDMAX {
      len := GetPacked(dest, mem, at, size, t);
    } else {
      UnpackedEnd(mem, at, t, len);
      while Cell(mem, at + len) != 0 && len < size
        invariant len <= |t| && len <= size
        invariant HasCell(mem, at + len) && (Cell(mem, at + len) == 0 <==> len == |t|)
        invariant Copied(dest, t, len) && forall k :: len <= k < dest.Length ==> dest[k] == old(dest[k])
        decreases |t| - len
      {
        UnpackedChar(mem, at, t, len);
        dest[len] := Cell(mem, at + len) % 0x100;
        len := len + 1;
        UnpackedEnd(mem, at, t, len);
      }
    }
    if len >= size {
      if size == 0 {
        return;
      }
      len := size - 1;
    }
    dest[len] := 0;
  }

  lemma UnpackedChar(mem: array<byte>, at: nat, t: seq<byte>, k: nat)
    requires UnpackedChars(mem, at, t) && k < |t|
    ensures HasCell(mem, at + k) && Cell(mem, at + k) % 0x100 == t[k]
  {
  }

  /** The characters up to and with the terminator, as long as there is room. */
  method GetPacked(dest: array<byte>, mem: array<byte>, at: nat, size: nat, ghost t: seq<byte>)
    returns (len: nat)
    requires dest != mem && NulFree(t) && PackedChars(mem, at, t) && Fits(dest, t, true, size)
    modifies dest
    ensures len == if |t| < size then |t| + 1 else size
    ensures Copied(dest, t + [0], len) && forall k :: len <= k < dest.Length ==> dest[k] == old(dest[k])
  {
    hide PackedChars, Cell, Shift, CharAt;
    len := 0;
    var source, i, c := at, 3, 0;
    while len < size
      invariant len <= |t| && len <= size
      invariant i == 3 - len % 4 && source == at + (len + 3) / 4
      invariant len % 4 != 0 ==> HasCell(mem, at + len / 4) && c == Cell(mem, at + len / 4)
      invariant Copied(dest, t + [0], len) && forall k :: len <= k < dest.Length ==> dest[k] == old(dest[k])
    {
      CharOf(mem, at, t, len);
      NextPlace(len);
      if i == 3 {
        c := Cell(mem, source);
        source := source + 1;
      }
      dest[len] := Shift(c, i) % 0x100;
      len := len + 1;
      if dest[len-1] == 0 {
        break;
      }
      i := (i + 3) % 4;
    }
  }

  lemma NextPlace(k: nat)
    ensures (k + 4) / 4 == k / 4 + 1 && (k + 3) / 4 == k / 4 + if k % 4 == 0 then 0 else 1
    ensures (k + 1) % 4 == (if k % 4 == 3 then 0 else k % 4 + 1) && (k % 4 != 3 ==> (k + 1) / 4 == k / 4)
  {
  }

  lemma CharOf(mem: array<byte>, at: nat, t: seq<byte>, k: nat)
    requires NulFree(t) && PackedChars(mem, at, t) && k <= |t|
    ensures HasCell(mem, at + k / 4)
    ensures Shift(Cell(mem, at + k / 4), 3 - k % 4) % 0x100 == (t + [0])[k]
    ensures (t + [0])[k] == 0 <==> k == |t|
  {
    PackedEnd(mem, at, t, k);
    ByteOf(mem, at + k / 4, 3 - k % 4);
    assert k < |t| ==> mem[CharAt(at, k)] == t[k];
  }

  lemma StoredFits(mem: array<byte>, at: nat, source: seq<byte>, size: nat)
    requires size > 0 && Holds(mem, at, Stored(source, true, size))
    ensures HasCell(mem, at) && |Stored(source, true, size)| <= |source|
  {
  }

  /** A packed string is measured and read back as it was stored, cut or not. */
  method PackedRoundTrip(dest: array<byte>, mem: array<byte>, at: nat, source: seq<byte>, size: nat)
    returns (length: nat)
    requires NulFree(source) && size > 0 && HasCell(mem, at + Cells(Stored(source, true, size), true) - 1)
    requires dest != mem && dest.Length >= |source| + 2
    modifies dest, mem
    ensures length == |Stored(source, true, size)| < dest.Length
    ensures dest[..length] == Stored(source, true, size) && dest[length] == 0
  {
    hide Holds, Stored, Cells;
    ghost var t := Stored(source, true, size);
    SetString(mem, at, source, true, size);
    StoredFits(mem, at, source, size);
    length := StrLen(mem, at, t);
    GetString(dest, mem, at, dest.Length, t);
  }
}
