/**
  The typed data pack (CDataPack.cpp): a growing buffer of bytes with one cursor for reading and
  writing.  A value is stored as its type, its length and its bytes.  `size_t` and cells have
  four bytes, little-endian.
*/
module DataPack {

  type byte = x: int | 0 <= x < 256
  type word = x: int | 0 <= x < 0x1_0000_0000
  type cell = x: int | -0x8000_0000 <= x < 0x8000_0000

  const INITIAL_SIZE := 64

  // ----- what is stored -----

  /** A float is known by its bits; a string has no zero in it. */
  datatype Item = Raw(data: seq<byte>) | CellItem(value: cell) | FloatItem(bits: word) | Text(text: seq<byte>)

  predicate Storable(item: Item) {
    match item
    case Raw(data) => |data| < 0x1_0000_0000
    case Text(text) => |text| < 0x1_0000_0000 && forall i :: 0 <= i < |text| ==> text[i] != 0
    case _ => true
  }

  function Word(v: word): (bytes: seq<byte>)
    ensures |bytes| == 4
  {
    var q1 := v / 0x100;
    var q2 := q1 / 0x100;
    [v % 0x100, q1 % 0x100, q2 % 0x100, q2 / 0x100]
  }

  function WordAt(bytes: seq<byte>, at: nat): (v: word)
    requires at + 4 <= |bytes|
  {
    var b0: int, b1: int, b2: int, b3: int := bytes[at], bytes[at+1], bytes[at+2], bytes[at+3];
    b0 + 0x100 * (b1 + 0x100 * (b2 + 0x100 * b3))
  }

  lemma WordBack(v: word, bytes: seq<byte>, at: nat)
    requires at + 4 <= |bytes| && bytes[at..at+4] == Word(v)
    ensures WordAt(bytes, at) == v
  {
    assert bytes[at..at+4][0] == bytes[at] && bytes[at..at+4][1] == bytes[at+1];
    assert bytes[at..at+4][2] == bytes[at+2] && bytes[at..at+4][3] == bytes[at+3];
  }

  /** A cell as its bits, and back. */
  function Bits(c: cell): word { if c < 0 then c + 0x1_0000_0000 else c }

  function Signed(v: word): cell { if v < 0x8000_0000 then v else v - 0x1_0000_0000 }

  function Kind(item: Item): byte {
    match item
    case Raw(_) => 0
    case CellItem(_) => 1
    case FloatItem(_) => 2
    case Text(_) => 3
  }

  function Data(item: Item): seq<byte> {
    match item
    case Raw(data) => data
    case CellItem(value) => Word(Bits(value))
    case FloatItem(bits) => Word(bits)
    case Text(text) => text
  }

  function Encode(item: Item): (bytes: seq<byte>)
    requires Storable(item)
    ensures |bytes| >= 5
  {
    [Kind(item)] + Word(|Data(item)|) + Data(item) + if item.Text? then [0] else []
  }

  lemma EncodeRaw(data: seq<byte>)
    requires Storable(Raw(data))
    ensures Encode(Raw(data)) == [0] + Word(|data|) + data
  {
  }

  predicate AllStorable(items: seq<Item>) {
    forall i :: 0 <= i < |items| ==> Storable(items[i])
  }

  function Encoding(items: seq<Item>): seq<byte>
    requires AllStorable(items)
  {
    if items == [] then [] else Encode(items[0]) + Encoding(items[1..])
  }

  lemma {:induction false} EncodingConcat(a: seq<Item>, b: seq<Item>)
    requires AllStorable(a) && AllStorable(b)
    ensures Encoding(a + b) == Encoding(a) + Encoding(b)
  {
    hide Encode;
    if a == [] {
      assert a + b == b;
    } else {
      assert (a + b)[1..] == a[1..] + b;
      EncodingConcat(a[1..], b);
    }
  }

  /** Where an item is. */
  function Offset(items: seq<Item>, k: nat): nat
    requires AllStorable(items) && k <= |items|
  {
    |Encoding(items[..k])|
  }

  lemma ItemAt(items: seq<Item>, k: nat)
    requires AllStorable(items) && k < |items|
    ensures Offset(items, k + 1) == Offset(items, k) + |Encode(items[k])| <= |Encoding(items)|
    ensures Encoding(items)[Offset(items, k)..Offset(items, k + 1)] == Encode(items[k])
  {
    hide Encode;
    var here := items[k..k+1];
    assert items[..k+1] == items[..k] + here && items == items[..k+1] + items[k+1..];
    EncodingConcat(items[..k], here);
    EncodingConcat(items[..k+1], items[k+1..]);
    assert Encoding(here) == Encode(items[k]) by {
      assert here[1..] == [];
      assert Encoding(here[1..]) == [];
    }
  }

  lemma OffsetEnd(items: seq<Item>)
    requires AllStorable(items)
    ensures Offset(items, |items|) == |Encoding(items)|
  {
    assert items[..|items|] == items;
  }

  // ----- the buffer -----

  class CDataPack {
    var base: array<byte>
    var curptr: nat
    var size: nat
    /** What has been written, and how many items are in front of the cursor. */
    ghost var items: seq<Item>
    ghost var index: nat

    constructor ()
      ensures Valid() && items == [] && index == 0 && fresh(base)
    {
      base := new byte[INITIAL_SIZE];
      curptr, size := 0, 0;
      items, index := [], 0;
    }

    ghost predicate Valid()
      reads this, base
    {
      && base.Length > 0 && size <= base.Length
      && AllStorable(items) && index <= |items|
      && base[..size] == Encoding(items)
      && curptr == Offset(items, index)
    }

    /** Makes room behind the cursor; what has been written is kept. */
    method CheckSize(typesize: nat)
      requires base.Length > 0 && curptr <= base.Length && size <= base.Length
      modifies `base
      ensures base.Length >= old(base.Length) && curptr + typesize <= base.Length
      ensures base == old(base) || fresh(base)
      ensures base[..size] == old(base[..size])
    {
      if curptr + typesize <= base.Length {
        return;
      }
      var capacity := base.Length;
      while true
        invariant capacity >= base.Length
        decreases curptr + typesize - capacity
      {
        capacity := capacity * 2;
        if curptr + typesize <= capacity {
          break;
        }
      }
      var grown := new byte[capacity];
      forall i | 0 <= i < base.Length {
        grown[i] := base[i];
      }
      base := grown;
    }

    // ----- writing at the end -----

    /** The bytes `w` have been put behind the items, and are not counted yet. */
    ghost predicate Writing(w: seq<byte>)
      reads this, base
    {
      && base.Length > 0 && size <= base.Length
      && AllStorable(items) && index == |items|
      && base[..size] == Encoding(items)
      && curptr == size + |w| <= base.Length
      && base[size..curptr] == w
    }

    method MakeRoom(room: nat)
      requires Valid() && index == |items|
      modifies `base
      ensures Writing([]) && curptr + room <= base.Length && (base == old(base) || fresh(base))
    {
      OffsetEnd(items);
      CheckSize(room);
    }

    lemma AtTheEnd()
      requires Writing([])
      ensures AllStorable(items) && curptr == Offset(items, |items|)
    {
      OffsetEnd(items);
    }

    method Put(bytes: seq<byte>, ghost w: seq<byte>)
      requires Writing(w) && curptr + |bytes| <= base.Length
      modifies base, `curptr
      ensures curptr == old(curptr) + |bytes| && Writing(w + bytes)
    {
      hide AllStorable, Encoding;
      ghost var was := base[..];
      forall i | 0 <= i < |bytes| {
        base[curptr + i] := bytes[i];
      }
      curptr := curptr + |bytes|;
      assert base[..size] == was[..size];
      assert base[size..old(curptr)] == was[size..old(curptr)] == w;
      assert base[old(curptr)..curptr] == bytes;
      assert base[size..curptr] == base[size..old(curptr)] + base[old(curptr)..curptr];
    }

    /** Leaves room that is not written now. */
    method Skip(length: nat, ghost w: seq<byte>) returns (ghost data: seq<byte>)
      requires Writing(w) && curptr + length <= base.Length
      modifies `curptr
      ensures curptr == old(curptr) + length && data == base[old(curptr)..curptr] && Writing(w + data)
    {
      hide AllStorable, Encoding;
      data := base[curptr..curptr+length];
      curptr := curptr + length;
      assert base[size..curptr] == w + data;
    }

    method Count(n: nat, ghost item: Item)
      requires Storable(item) && Writing(Encode(item)) && n == |Encode(item)|
      modifies `size, `items, `index
      ensures Valid() && items == old(items) + [item] && index == |items|
    {
      hide Encode, Encoding;
      Appended(base[..], items, item, size + n);
      size := size + n;
      items, index := items + [item], index + 1;
    }

    method PackCell(value: cell)
      requires Valid() && index == |items|
      modifies this, base
      ensures Valid() && items == old(items) + [CellItem(value)] && index == |items|
      ensures base == old(base) || fresh(base)
    {
      hide Valid, Writing, Word;
      MakeRoom(1 + 4 + 4);
      Put([1], []);
      assert [] + [1] == [1];
      Put(Word(4), [1]);
      Put(Word(Bits(value)), [1] + Word(4));
      assert [1] + Word(4) + Word(Bits(value)) == Encode(CellItem(value));
      Count(1 + 4 + 4, CellItem(value));
    }

    method PackFloat(bits: word)
      requires Valid() && index == |items|
      modifies this, base
      ensures Valid() && items == old(items) + [FloatItem(bits)] && index == |items|
      ensures base == old(base) || fresh(base)
    {
      hide Valid, Writing, Word;
      MakeRoom(1 + 4 + 4);
      Put([2], []);
      assert [] + [2] == [2];
      Put(Word(4), [2]);
      Put(Word(bits), [2] + Word(4));
      assert [2] + Word(4) + Word(bits) == Encode(FloatItem(bits));
      Count(1 + 4 + 4, FloatItem(bits));
    }

    method PackString(text: seq<byte>)
      requires Valid() && index == |items| && Storable(Text(text))
      modifies this, base
      ensures Valid() && items == old(items) + [Text(text)] && index == |items|
      ensures base == old(base) || fresh(base)
    {
      hide Valid, Writing, Word;
      var len := |text|;
      MakeRoom(1 + 4 + len + 1);
      Put([3], []);
      assert [] + [3] == [3];
      Put(Word(len), [3]);
      Put(text, [3] + Word(len));
      Put([0], [3] + Word(len) + text);
      Count(1 + 4 + len + 1, Text(text));
    }

    /** Makes an item of bytes that the caller fills in; they are what the buffer has there. */
    method CreateMemory(length: word) returns (pos: nat, addr: nat, ghost data: seq<byte>)
      requires Valid() && index == |items|
      modifies this, base
      ensures Valid() && |data| == length && items == old(items) + [Raw(data)] && index == |items|
      ensures base == old(base) || fresh(base)
      ensures pos == Offset(items, index - 1) && addr == pos + 5
      ensures addr + length <= base.Length && base[addr..addr+length] == data
    {
      hide Valid, Writing, Word, Encoding, Encode, Offset;
      MakeRoom(1 + 4 + length);
      pos := curptr;
      AtTheEnd();
      Put([0], []);
      assert [] + [0] == [0];
      Put(Word(length), [0]);
      addr := curptr;
      data := Skip(length, [0] + Word(length));
      EncodeRaw(data);
      Count(1 + 4 + length, Raw(data));
      AtLast(old(items), Raw(data));
    }

    /** What a caller does with the address, before it packs anything else. */
    method Fill(addr: nat, data: seq<byte>)
      requires Valid() && 0 < index == |items| && items[index-1].Raw? && |data| == |items[index-1].data|
      requires addr == Offset(items, index - 1) + 5
      modifies base, `items
      ensures Valid() && items == old(items)[..index-1] + [Raw(data)]
    {
      hide Encoding, Encode, Word;
      ghost var was := base[..];
      FillRoom(was, items, size);
      OffsetEnd(items);
      forall i | 0 <= i < |data| {
        base[addr + i] := data[i];
      }
      assert base[..addr] == was[..addr] && base[addr..size] == data;
      Filled(was, base[..], items, data, size);
      items := items[..index-1] + [Raw(data)];
    }

    /** Forgets what has been written, with the cursor at the beginning. */
    method ResetSize()
      requires Valid() && index == 0
      modifies `size, `items
      ensures Valid() && items == []
    {
      size := 0;
      items := [];
    }

    // ----- reading -----

    method Reset()
      requires Valid()
      modifies `curptr, `index
      ensures Valid() && index == 0
    {
      curptr := 0;
      index := 0;
    }

    /** The native of this name: back to the beginning, and with nothing left if asked for. */
    method ResetPack(clear: bool)
      requires Valid()
      modifies `curptr, `index, `size, `items
      ensures Valid() && index == 0 && items == if clear then [] else old(items)
    {
      Reset();
      if clear {
        ResetSize();
      }
    }

    method IsReadable(bytes: nat) returns (ok: bool)
      ensures ok == (curptr + bytes <= size)
    {
      ok := curptr + bytes <= size;
    }

    /** The item behind the cursor has this type. */
    ghost predicate NextIs(kind: byte)
      requires Valid()
      reads this, base
    {
      index < |items| && Kind(items[index]) == kind
    }

    method CanReadCell() returns (can: bool)
      requires Valid()
      ensures can == NextIs(1)
    {
      hide Encoding, Encode, Word, WordAt;
      AtCursor();
      var ok := IsReadable(1 + 4 + 4);
      can := ok && base[curptr] == 1 && WordAt(base[..], curptr + 1) == 4;
    }

    method ReadCell() returns (value: cell)
      requires Valid()
      modifies `curptr, `index
      ensures Valid()
      ensures if old(NextIs(1)) then index == old(index) + 1 && items[old(index)] == CellItem(value)
              else index == old(index) && curptr == old(curptr) && value == 0
    {
      hide Encoding, Encode, Word, WordAt;
      var can := CanReadCell();
      if !can {
        return 0;
      }
      AtCursor();
      curptr := curptr + 1;
      curptr := curptr + 4;
      value := Signed(WordAt(base[..], curptr));
      curptr := curptr + 4;
      index := index + 1;
    }

    method CanReadFloat() returns (can: bool)
      requires Valid()
      ensures can == NextIs(2)
    {
      hide Encoding, Encode, Word, WordAt;
      AtCursor();
      var ok := IsReadable(1 + 4 + 4);
      can := ok && base[curptr] == 2 && WordAt(base[..], curptr + 1) == 4;
    }

    method ReadFloat() returns (bits: word)
      requires Valid()
      modifies `curptr, `index
      ensures Valid()
      ensures if old(NextIs(2)) then index == old(index) + 1 && items[old(index)] == FloatItem(bits)
              else index == old(index) && curptr == old(curptr) && bits == 0
    {
      hide Encoding, Encode, Word, WordAt;
      var can := CanReadFloat();
      if !can {
        return 0;
      }
      AtCursor();
      curptr := curptr + 1;
      curptr := curptr + 4;
      bits := WordAt(base[..], curptr);
      curptr := curptr + 4;
      index := index + 1;
    }

    method StrLen(at: nat, ghost text: seq<byte>) returns (len: nat)
      requires at + |text| < base.Length && base[at..at+|text|] == text && base[at+|text|] == 0
      requires Storable(Text(text))
      ensures len == |text|
    {
      ghost var all := base[at..at+|text|+1];
      assert all == text + [0];
      len := 0;
      while base[at+len] != 0
        invariant len <= |text| && base[at+len] == all[len]
        decreases |text| - len
      {
        len := len + 1;
      }
    }

    method CanReadString() returns (can: bool, len: nat)
      requires Valid()
      ensures can == NextIs(3)
      ensures can ==> len == |items[index].text|
    {
      hide Encoding, Encode, Word, WordAt;
      AtCursor();
      len := 0;
      var ok := IsReadable(1 + 4);
      if !ok || base[curptr] != 3 {
        return false, 0;
      }
      len := WordAt(base[..], curptr + 1);
      var length := StrLen(curptr + 5, items[index].text);
      ok := IsReadable(1 + 4 + len + 1);
      can := length == len && ok;
    }

    method ReadString() returns (read: bool, text: seq<byte>)
      requires Valid()
      modifies `curptr, `index
      ensures Valid() && read == old(NextIs(3))
      ensures if read then index == old(index) + 1 && items[old(index)] == Text(text)
              else index == old(index) && curptr == old(curptr)
    {
      hide Encoding, Encode, Word, WordAt;
      var len;
      read, len := CanReadString();
      if !read {
        return false, [];
      }
      AtCursor();
      curptr := curptr + 1;
      curptr := curptr + 4;
      text := base[curptr..curptr+len];
      curptr := curptr + len + 1;
      index := index + 1;
    }

    method CanReadMemory() returns (can: bool, bytecount: nat)
      requires Valid()
      ensures can == NextIs(0)
      ensures can ==> bytecount == |items[index].data|
    {
      hide Encoding, Encode, Word, WordAt;
      AtCursor();
      var ok := IsReadable(1 + 4);
      if !ok || base[curptr] != 0 {
        return false, 0;
      }
      bytecount := WordAt(base[..], curptr + 1);
      can := IsReadable(1 + 4 + bytecount);
    }

    method ReadMemory() returns (read: bool, data: seq<byte>)
      requires Valid()
      modifies `curptr, `index
      ensures Valid() && read == old(NextIs(0))
      ensures if read then index == old(index) + 1 && items[old(index)] == Raw(data)
              else index == old(index) && curptr == old(curptr)
    {
      hide Encoding, Encode, Word, WordAt;
      var bytecount;
      read, bytecount := CanReadMemory();
      if !read {
        return false, [];
      }
      AtCursor();
      curptr := curptr + 1;
      curptr := curptr + 4;
      data := base[curptr..curptr+bytecount];
      curptr := curptr + bytecount;
      index := index + 1;
    }

    // ----- writing and reading everything -----

    method Pack(item: Item)
      requires Valid() && index == |items| && Storable(item)
      modifies this, base
      ensures Valid() && items == old(items) + [item] && index == |items|
      ensures base == old(base) || fresh(base)
    {
      hide Valid, Offset, Encoding;
      match item {
        case Raw(data) =>
          var _, addr, _ := CreateMemory(|data|);
          Fill(addr, data);
        case CellItem(value) => PackCell(value);
        case FloatItem(bits) => PackFloat(bits);
        case Text(text) => PackString(text);
      }
    }

    /** Reads an item of the type that the reader expects. */
    method Read(kind: byte) returns (read: bool, item: Item)
      requires Valid() && kind <= 3
      modifies `curptr, `index
      ensures Valid() && read == old(NextIs(kind))
      ensures if read then index == old(index) + 1 && items[old(index)] == item
              else index == old(index) && curptr == old(curptr)
    {
      item := CellItem(0);
      if kind == 0 {
        var data;
        read, data := ReadMemory();
        item := Raw(data);
      } else if kind == 1 {
        read := CanReadCell();
        var value := ReadCell();
        item := CellItem(value);
      } else if kind == 2 {
        read := CanReadFloat();
        var bits := ReadFloat();
        item := FloatItem(bits);
      } else {
        var text;
        read, text := ReadString();
        item := Text(text);
      }
    }

    /** Whatever is written to a cleared pack, through any growth of the buffer, is read back after
        a reset by a reader that expects the same types. */
    method RoundTrip(written: seq<Item>) returns (read: seq<Item>)
      requires Valid() && AllStorable(written)
      modifies this, base
      ensures Valid() && read == written == items && index == |items|
    {
      hide Encoding, Encode, Storable, Valid;
      ResetPack(true);
      var i := 0;
      AllRead();
      while i < |written|
        invariant i <= |written| && Valid() && items == written[..i] && index == |items|
        invariant base == old(base) || fresh(base)
      {
        Pack(written[i]);
        i := i + 1;
      }
      Reset();
      read := [];
      while |read| < |written|
        invariant |read| <= |written| && Valid() && items == written && index == |read|
        invariant read == written[..|read|]
      {
        var ok, item := Read(Kind(written[|read|]));
        read := read + [item];
      }
    }

    lemma AllRead()
      requires Valid()
      ensures index <= |items|
    {
    }

    /** What the bytes behind the cursor are. */
    lemma AtCursor()
      requires Valid()
      ensures index == |items| ==> curptr == size
      ensures index < |items| ==> var item := items[index];
        && curptr + 5 + |Data(item)| + (if item.Text? then 1 else 0) <= size
        && curptr + 5 + |Data(item)| + (if item.Text? then 1 else 0) == Offset(items, index + 1)
        && base[curptr] == Kind(item) && WordAt(base[..], curptr + 1) == |Data(item)|
        && base[curptr+5..curptr+5+|Data(item)|] == Data(item)
        && (item.Text? ==> base[curptr+5+|Data(item)|] == 0)
        && (item.CellItem? ==> Signed(WordAt(base[..], curptr + 5)) == item.value)
        && (item.FloatItem? ==> WordAt(base[..], curptr + 5) == item.bits)
    {
      hide Encoding, Word, WordAt;
      if index == |items| {
        OffsetEnd(items);
      } else {
        var item := items[index];
        ItemAt(items, index);
        assert Encode(item) == base[..size][curptr..Offset(items, index + 1)] == base[curptr..Offset(items, index + 1)];
        ItemBytes(item, base[..], curptr);
      }
    }
  }

  lemma Slice(bytes: seq<byte>, at: nat, m: nat, i: nat, j: nat)
    requires i <= j <= m && at + m <= |bytes|
    ensures bytes[at..at+m][i..j] == bytes[at+i..at+j]
  {
    var part, same := bytes[at..at+m][i..j], bytes[at+i..at+j];
    assert |part| == |same|;
    assert forall k :: 0 <= k < |part| ==> part[k] == same[k];
  }

  lemma EncodeParts(item: Item)
    requires Storable(item)
    ensures var n, all := |Data(item)|, Encode(item);
      && |all| == 5 + n + (if item.Text? then 1 else 0)
      && all[0] == Kind(item) && all[1..5] == Word(n) && all[5..5+n] == Data(item)
      && (item.Text? ==> all[5+n] == 0)
  {
    hide Word, Kind;
    var head := [Kind(item)] + Word(|Data(item)|);
    assert Encode(item)[..5] == head;
    assert Encode(item)[1..5] == head[1..] == Word(|Data(item)|);
  }

  lemma ItemBytes(item: Item, bytes: seq<byte>, at: nat)
    requires Storable(item) && at + |Encode(item)| <= |bytes| && bytes[at..at+|Encode(item)|] == Encode(item)
    ensures var n := |Data(item)|;
      && |Encode(item)| == 5 + n + (if item.Text? then 1 else 0)
      && bytes[at] == Kind(item) && WordAt(bytes, at + 1) == n
      && bytes[at+5..at+5+n] == Data(item)
      && (item.Text? ==> bytes[at+5+n] == 0)
      && (item.CellItem? ==> Signed(WordAt(bytes, at + 5)) == item.value)
      && (item.FloatItem? ==> WordAt(bytes, at + 5) == item.bits)
  {
    hide Word, WordAt, Encode;
    var n := |Data(item)|;
    var m := |Encode(item)|;
    EncodeParts(item);
    assert bytes[at] == bytes[at..at+m][0];
    Slice(bytes, at, m, 1, 5);
    Slice(bytes, at, m, 5, 5 + n);
    WordBack(n, bytes, at + 1);
    if item.Text? {
      assert bytes[at+5+n] == bytes[at..at+m][5+n];
    }
    if item.CellItem? {
      WordBack(Bits(item.value), bytes, at + 5);
    }
    if item.FloatItem? {
      WordBack(item.bits, bytes, at + 5);
    }
  }

  lemma AtLast(items: seq<Item>, item: Item)
    requires AllStorable(items) && Storable(item)
    ensures AllStorable(items + [item]) && Offset(items + [item], |items|) == Offset(items, |items|)
  {
    assert (items + [item])[..|items|] == items[..|items|];
  }

  lemma FillRoom(was: seq<byte>, items: seq<Item>, size: nat)
    requires AllStorable(items) && items != [] && items[|items|-1].Raw?
    requires size <= |was| && was[..size] == Encoding(items)
    ensures size == Offset(items, |items| - 1) + 5 + |items[|items|-1].data|
    ensures was[..Offset(items, |items| - 1)] == Encoding(items[..|items|-1])
    ensures was[Offset(items, |items| - 1)..size] == Encode(items[|items|-1])
  {
    hide Word;
    var k := |items| - 1;
    ItemAt(items, k);
    OffsetEnd(items);
    EncodingConcat(items[..k], items[k..]);
    assert items == items[..k] + items[k..];
    assert was[..Offset(items, k)] == was[..size][..Offset(items, k)];
    assert was[Offset(items, k)..size] == was[..size][Offset(items, k)..];
  }

  lemma Filled(was: seq<byte>, now: seq<byte>, items: seq<Item>, data: seq<byte>, size: nat)
    requires AllStorable(items) && items != [] && items[|items|-1].Raw? && |data| == |items[|items|-1].data|
    requires size <= |was| == |now| && was[..size] == Encoding(items)
    requires size == Offset(items, |items| - 1) + 5 + |data|
    requires var addr := Offset(items, |items| - 1) + 5; now[..addr] == was[..addr] && now[addr..size] == data
    ensures var all := items[..|items|-1] + [Raw(data)];
      AllStorable(all) && now[..size] == Encoding(all) && size == Offset(all, |items|)
  {
    hide Encoding, Word;
    var k := |items| - 1;
    var front, pos := items[..k], Offset(items, k);
    FillRoom(was, items, size);
    assert now[..pos] == now[..pos+5][..pos] == was[..pos];
    assert now[pos..pos+5] == now[..pos+5][pos..] == was[pos..size][..5];
    assert now[pos..size] == now[pos..pos+5] + now[pos+5..size];
    assert now[pos..size] == Encode(Raw(data));
    Appended(now, front, Raw(data), size);
  }

  /** A buffer that holds items and one more encoding behind them. */
  lemma Appended(bytes: seq<byte>, items: seq<Item>, item: Item, size: nat)
    requires AllStorable(items) && Storable(item) && size == |Encoding(items)| + |Encode(item)| <= |bytes|
    requires bytes[..|Encoding(items)|] == Encoding(items)
    requires bytes[|Encoding(items)|..size] == Encode(item)
    ensures AllStorable(items + [item]) && bytes[..size] == Encoding(items + [item])
    ensures size == Offset(items + [item], |items| + 1)
  {
    hide Encode;
    EncodingConcat(items, [item]);
    assert Encoding([item]) == Encode(item) by {
      assert [item][1..] == [];
      assert Encoding([item][1..]) == [];
    }
    assert bytes[..size] == bytes[..|Encoding(items)|] + bytes[|Encoding(items)|..size];
    OffsetEnd(items + [item]);
  }
}
