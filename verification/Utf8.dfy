/**
  UTF-8 as section 2 of RFC 2279 defines it, with up to six bytes (amx.cpp, `amx_UTF8Get`,
  `amx_UTF8Put`, `amx_UTF8Check`).
*/
module Utf8 {

  type byte = x: int | 0 <= x < 256

  /** The values that have an encoding: 31 bits, no surrogates, not 0xfffe and 0xffff. */
  predicate Scalar(v: int) {
    0 <= v < 0x8000_0000 && !(0xd800 <= v <= 0xdfff) && v != 0xfffe && v != 0xffff
  }

  /** The length of the shortest form. */
  function Size(v: int): nat
    requires 0 <= v
  {
    if v < 0x80 then 1 else if v < 0x800 then 2 else if v < 0x1_0000 then 3
    else if v < 0x20_0000 then 4 else if v < 0x400_0000 then 5 else 6
  }

  /** What the first byte of `n` is filled up with: n ones and a zero. */
  function Mark(n: nat): int {
    if n == 2 then 0xc0 else if n == 3 then 0xe0 else if n == 4 then 0xf0 else if n == 5 then 0xf8 else 0xfc
  }

  /** The value without its last `k` groups of six bits. */
  function High(v: int, k: nat): (r: int)
    requires 0 <= v
    ensures r >= 0
  {
    if k == 0 then v else High(v / 64, k - 1)
  }

  /** The last `k` groups of six bits, each in a follow-up byte. */
  function Low(v: int, k: nat): (bytes: seq<byte>)
    requires 0 <= v
    ensures |bytes| == k && AllFollow(bytes)
  {
    if k == 0 then [] else Low(v / 64, k - 1) + [0x80 + v % 64]
  }

  function Encoding(v: int): (bytes: seq<byte>)
    requires 0 <= v < 0x8000_0000
    ensures |bytes| == Size(v)
  {
    if v < 0x80 then [v] else
      FirstFits(v);
      [Mark(Size(v)) + High(v, Size(v) - 1)] + Low(v, Size(v) - 1)
  }

  predicate Follow(b: byte) { 0x80 <= b < 0xc0 }

  predicate AllFollow(bytes: seq<byte>) {
    forall i :: 0 <= i < |bytes| ==> Follow(bytes[i])
  }

  lemma HighIs(v: int)
    requires 0 <= v
    ensures High(v, 0) == v && High(v, 1) == v / 0x40 && High(v, 2) == v / 0x1000 && High(v, 3) == v / 0x4_0000
    ensures High(v, 4) == v / 0x100_0000 && High(v, 5) == v / 0x4000_0000
  {
    var a := v / 64;
    var b := a / 64;
    var c := b / 64;
    var d := c / 64;
    assert High(v, 1) == High(a, 0);
    assert High(v, 2) == High(a, 1) == High(b, 0);
    assert High(v, 3) == High(a, 2) == High(b, 1) == High(c, 0);
    assert High(v, 4) == High(a, 3) == High(b, 2) == High(c, 1) == High(d, 0);
    assert High(v, 5) == High(a, 4) == High(b, 3) == High(c, 2) == High(d, 1) == High(d / 64, 0);
  }

  /** How far the value part of a first byte goes. */
  function Room(n: nat): int {
    if n == 2 then 0x20 else if n == 3 then 0x10 else if n == 4 then 8 else if n == 5 then 4 else 2
  }

  lemma FirstFits(v: int)
    requires 0x80 <= v < 0x8000_0000
    ensures 0 <= High(v, Size(v) - 1) < Room(Size(v))
  {
    HighIs(v);
  }

  // ----- decoding -----

  /** Six bits of each byte, put behind the bits of the first one. */
  function Collected(first: int, bytes: seq<byte>): int
    requires 0 <= first
    ensures Collected(first, bytes) >= 0
  {
    if bytes == [] then first
    else Collected(first, bytes[..|bytes|-1]) * 64 + bytes[|bytes|-1] % 64
  }

  /** Splitting a value in groups and collecting them again are inverse. */
  lemma {:induction false} CollectedFromLow(v: int, k: nat)
    requires 0 <= v
    ensures Collected(High(v, k), Low(v, k)) == v
  {
    if k > 0 {
      CollectedFromLow(v / 64, k - 1);
      assert Low(v, k)[..k-1] == Low(v / 64, k - 1);
    }
  }

  lemma {:induction false} LowOfCollected(first: int, bytes: seq<byte>)
    requires 0 <= first && AllFollow(bytes)
    ensures var v := Collected(first, bytes); High(v, |bytes|) == first && Low(v, |bytes|) == bytes
  {
    if bytes != [] {
      var n := |bytes|;
      LowOfCollected(first, bytes[..n-1]);
      var v := Collected(first, bytes);
      assert v / 64 == Collected(first, bytes[..n-1]);
      assert Follow(bytes[n-1]) && 0x80 + v % 64 == bytes[n-1];
      assert bytes == bytes[..n-1] + [bytes[n-1]];
    }
  }

  /** The length that a first byte stands for, 0 for a byte that is not a first one. */
  function Announced(c: byte): nat {
    if c < 0x80 then 1 else if c < 0xc0 then 0 else if c < 0xe0 then 2 else if c < 0xf0 then 3
    else if c < 0xf8 then 4 else if c < 0xfc then 5 else if c < 0xfe then 6 else 0
  }

  /** The bytes start with an encoding of `v`. */
  ghost predicate Starts(v: int, bytes: seq<byte>) {
    Scalar(v) && Encoding(v) <= bytes
  }

  /** What a decoder has to see in bytes that start with an encoding. */
  lemma StartsMeans(v: int, bytes: seq<byte>)
    requires Starts(v, bytes)
    ensures Size(v) <= |bytes| && Announced(bytes[0]) == Size(v)
    ensures Size(v) == 1 ==> bytes[0] == v
    ensures Size(v) > 1 ==>
      AllFollow(bytes[1..Size(v)]) && Collected(bytes[0] - Mark(Size(v)), bytes[1..Size(v)]) == v
  {
    var n := Size(v);
    if n > 1 {
      FirstFits(v);
      CollectedFromLow(v, n - 1);
      assert bytes[..n] == Encoding(v);
      assert bytes[1..n] == bytes[..n][1..] == Low(v, n - 1);
      assert bytes[0] == Encoding(v)[0];
    } else {
      assert bytes[0] == Encoding(v)[0];
    }
  }

  /** The other way round, with the shortest form checked by the value. */
  lemma MeansStarts(v: int, bytes: seq<byte>, n: nat)
    requires 1 < n <= |bytes| && Announced(bytes[0]) == n && AllFollow(bytes[1..n])
    requires v == Collected(bytes[0] - Mark(n), bytes[1..n])
    ensures 0 <= v < 0x8000_0000 && Size(v) <= n
    ensures Size(v) == n ==> Encoding(v) == bytes[..n]
  {
    var first := bytes[0] - Mark(n);
    LowOfCollected(first, bytes[1..n]);
    HighIs(v);
    assert High(v, n - 1) == first;
    if Size(v) == n {
      assert bytes[..n] == [bytes[0]] + bytes[1..n];
    }
  }

  /** No encoding is the beginning of another one. */
  lemma EncodingUnique(v: int, w: int, bytes: seq<byte>)
    requires Starts(v, bytes) && Starts(w, bytes)
    ensures v == w
  {
    StartsMeans(v, bytes);
    StartsMeans(w, bytes);
  }

  predicate Terminated(s: array<byte>, at: nat)
    reads s
  {
    exists k :: at <= k < s.Length && s[k] == 0
  }

  /** The follow-up bytes from the second one to `pos` have been collected. */
  ghost predicate Reading(s: array<byte>, at: nat, first: int, pos: nat, result: int)
    requires 0 <= first
    reads s
  {
    && at < pos <= s.Length
    && AllFollow(s[at+1..pos])
    && result == Collected(first, s[at+1..pos])
  }

  /** Takes one follow-up byte. */
  method Append(s: array<byte>, at: nat, ghost first: nat, pos: nat, result: int)
    returns (ok: bool, next: nat, value: int)
    requires Reading(s, at, first, pos, result) && pos < s.Length
    ensures ok == Follow(s[pos])
    ensures next == pos + 1
    ensures ok ==> Reading(s, at, first, next, value)
  {
    var c := s[pos];
    next := pos + 1;
    ok := c / 64 == 2;
    value := result * 64 + c % 64;
    assert s[at+1..next][..|s[at+1..next]|-1] == s[at+1..pos];
  }

  lemma NothingTaken(s: array<byte>, at: nat, first: nat)
    requires at < s.Length
    ensures Reading(s, at, first, at + 1, first)
  {
    assert s[at+1..at+1] == [];
  }

  /** Takes `followup + 1` bytes.  The terminator is not a follow-up byte, so that nothing
      behind it is read. */
  method TakeFollowUps(s: array<byte>, at: nat, first: nat, followup: nat)
    returns (ok: bool, pos: nat, result: int)
    requires Terminated(s, at + 1) && followup <= 4
    ensures ok ==> Reading(s, at, first, pos, result) && pos == at + 2 + followup
    ensures !ok ==> exists p :: at < p < at + 2 + followup && p < s.Length && !Follow(s[p])
    ensures ok ==> Terminated(s, pos)
  {
    hide Collected;
    ok, pos, result := true, at + 1, first;
    NothingTaken(s, at, first);
    if followup >= 4 {
      ok, pos, result := Append(s, at, first, pos, result);
    }
    if ok && followup >= 3 {
      ok, pos, result := Append(s, at, first, pos, result);
    }
    if ok && followup >= 2 {
      ok, pos, result := Append(s, at, first, pos, result);
    }
    if ok && followup >= 1 {
      ok, pos, result := Append(s, at, first, pos, result);
    }
    if ok {
      ok, pos, result := Append(s, at, first, pos, result);
    }
  }

  /** The number of follow-up bytes minus 1, by the four bits that are not always part of the
      value or always ones. */
  const UTF8_COUNT: seq<nat> := [0, 0, 0, 0, 0, 0, 0, 0, 1, 1, 1, 1, 2, 2, 3, 4]

  const UTF8_LOWMARK: seq<int> := [0x80, 0x800, 0x1_0000, 0x20_0000, 0x400_0000]

  /** The bits of a first byte that belong to the value. */
  function Masked(c: byte, followup: nat): nat {
    c % (if followup == 0 then 0x20 else if followup == 1 then 0x10 else if followup == 2 then 8
         else if followup == 3 then 4 else 2)
  }

  lemma FirstByte(c: byte)
    requires 0xc0 <= c < 0xfe
    ensures var followup := UTF8_COUNT[(c / 4) % 16];
            followup <= 4 && Announced(c) == followup + 2 && Masked(c, followup) == c - Mark(followup + 2)
  {
  }

  lemma Lowmark(v: int, followup: nat)
    requires 0 <= v < 0x8000_0000 && followup <= 4
    ensures v < UTF8_LOWMARK[followup] <==> Size(v) < followup + 2
  {
  }

  /** What has been read decides which value the string can start with. */
  lemma OnlyCandidate(s: array<byte>, at: nat, followup: nat, ok: bool, pos: nat, result: int, v: int)
    requires at < s.Length && 0xc0 <= s[at] < 0xfe && followup == UTF8_COUNT[(s[at] / 4) % 16] <= 4
    requires ok ==> Reading(s, at, Masked(s[at], followup), pos, result) && pos == at + 2 + followup
    requires !ok ==> exists p :: at < p < at + 2 + followup && p < s.Length && !Follow(s[p])
    requires Starts(v, s[at..])
    ensures ok && v == result && Size(v) == followup + 2
  {
    var n := followup + 2;
    FirstByte(s[at]);
    StartsMeans(v, s[at..]);
    assert s[at..][1..n] == s[at+1..at+n];
  }

  lemma AsciiStarts(s: array<byte>, at: nat)
    requires at < s.Length && s[at] < 0x80
    ensures Starts(s[at], s[at..])
  {
    assert Encoding(s[at]) == s[at..][..1];
  }

  lemma StartsFirst(v: int, bytes: seq<byte>)
    requires Starts(v, bytes)
    ensures bytes != [] && (bytes[0] < 0x80 || 0xc0 <= bytes[0] < 0xfe)
  {
    StartsMeans(v, bytes);
  }

  /** Reads one character of the zero-terminated string at `at`: it is accepted if and only if
      the string starts with the encoding of some value. */
  method Get(s: array<byte>, at: nat) returns (ok: bool, end: nat, value: int)
    requires Terminated(s, at)
    ensures ok ==> Starts(value, s[at..]) && end == at + Size(value) && (value != 0 ==> Terminated(s, end))
    ensures !ok ==> end == at && value == 0 && forall v :: !Starts(v, s[at..])
  {
    hide Collected, AllFollow, Encoding, Announced, Masked;
    var c := s[at];
    if c < 0x80 {
      AsciiStarts(s, at);
      return true, at + 1, c as int;
    }
    if c < 0xc0 || c >= 0xfe {
      forall v ensures !Starts(v, s[at..]) {
        if Starts(v, s[at..]) {
          StartsFirst(v, s[at..]);
        }
      }
      return false, at, 0;
    }
    ok, end, value := GetLong(s, at);
  }

  method GetLong(s: array<byte>, at: nat) returns (ok: bool, end: nat, value: int)
    requires Terminated(s, at) && 0xc0 <= s[at] < 0xfe
    ensures ok ==> Starts(value, s[at..]) && end == at + Size(value) && Terminated(s, end)
    ensures !ok ==> end == at && value == 0 && forall v :: !Starts(v, s[at..])
  {
    hide Collected, AllFollow, Encoding, Announced, Masked;
    var c := s[at];
    FirstByte(c);
    var followup := UTF8_COUNT[(c / 4) % 16];
    var pos, result;
    ok, pos, result := TakeFollowUps(s, at, Masked(c, followup), followup);
    forall v | Starts(v, s[at..]) ensures ok && v == result && Size(v) == followup + 2 {
      OnlyCandidate(s, at, followup, ok, pos, result, v);
    }
    if !ok {
      return false, at, 0;
    }
    assert s[at..][1..followup+2] == s[at+1..pos];
    MeansStarts(result, s[at..], followup + 2);
    Lowmark(result, followup);
    if result < UTF8_LOWMARK[followup]
      || 0xd800 <= result <= 0xdfff || result == 0xfffe || result == 0xffff {
      return false, at, 0;
    }
    return true, pos, result;
  }

  // ----- encoding -----

  /** A cell that can be written: for a negative one, a single byte is written. */
  predicate Accepted(v: int) { v < 0 || Scalar(v) }

  function Written(v: int): seq<byte>
    requires Accepted(v)
  {
    if v < 0 then [v % 256] else Encoding(v)
  }

  /** Six bits, from the one that counts `unit` on, in a follow-up byte. */
  function Six(v: int, unit: int): byte
    requires unit > 0
  {
    v / unit % 0x40 + 0x80
  }

  lemma EncodingIs(v: int)
    requires 0 <= v < 0x8000_0000
    ensures v < 0x80 ==> Encoding(v) == [v]
    ensures 0x80 <= v < 0x800 ==> Encoding(v) == [v / 0x40 % 0x20 + 0xc0, Six(v, 1)]
    ensures 0x800 <= v < 0x1_0000 ==>
      Encoding(v) == [v / 0x1000 % 0x10 + 0xe0, Six(v, 0x40), Six(v, 1)]
    ensures 0x1_0000 <= v < 0x20_0000 ==>
      Encoding(v) == [v / 0x4_0000 % 8 + 0xf0, Six(v, 0x1000), Six(v, 0x40), Six(v, 1)]
    ensures 0x20_0000 <= v < 0x400_0000 ==>
      Encoding(v) == [v / 0x100_0000 % 4 + 0xf8, Six(v, 0x4_0000), Six(v, 0x1000),
                      Six(v, 0x40), Six(v, 1)]
    ensures 0x400_0000 <= v ==>
      Encoding(v) == [v / 0x4000_0000 % 2 + 0xfc, Six(v, 0x100_0000), Six(v, 0x4_0000),
                      Six(v, 0x1000), Six(v, 0x40), Six(v, 1)]
  {
    hide Low, High, AllFollow, Six;
    if v >= 0x80 {
      FirstFits(v);
    }
    HighIs(v);
    LowIs(v);
  }

  lemma LowIs(v: int)
    requires 0 <= v
    ensures Low(v, 1) == [Six(v, 1)]
    ensures Low(v, 2) == [Six(v, 0x40), Six(v, 1)]
    ensures Low(v, 3) == [Six(v, 0x1000), Six(v, 0x40), Six(v, 1)]
    ensures Low(v, 4) == [Six(v, 0x4_0000), Six(v, 0x1000), Six(v, 0x40),
                          Six(v, 1)]
    ensures Low(v, 5) == [Six(v, 0x100_0000), Six(v, 0x4_0000), Six(v, 0x1000),
                          Six(v, 0x40), Six(v, 1)]
  {
    hide Low, High, AllFollow;
    HighIs(v);
    LowNext(v, 0);
    LowNext(v, 1);
    LowNext(v, 2);
    LowNext(v, 3);
    LowNext(v, 4);
  }

  lemma {:induction false} LowNext(v: int, k: nat)
    requires 0 <= v
    ensures Low(v, k + 1) == [High(v, k) % 64 + 0x80] + Low(v, k)
  {
    if k > 0 {
      LowNext(v / 64, k - 1);
    }
  }

  ghost predicate Stored(s: array<byte>, at: nat, bytes: seq<byte>)
    reads s
  {
    at + |bytes| <= s.Length && forall i :: 0 <= i < |bytes| ==> s[at+i] == bytes[i]
  }

  /** Stores one character if it fits in `maxchars` bytes, and nothing otherwise. */
  method Put(s: array<byte>, at: nat, maxchars: int, value: int) returns (ok: bool, end: nat)
    requires at <= s.Length && maxchars <= s.Length - at && value < 0x8000_0000
    modifies s
    ensures ok <==> Accepted(value) && |Written(value)| <= maxchars
    ensures ok ==> end == at + |Written(value)| && s[at..end] == Written(value)
    ensures !ok ==> end == at
    ensures forall i :: 0 <= i < at || end <= i < s.Length ==> s[i] == old(s[i])
  {
    hide Encoding, Low, High, AllFollow, Mark, Six;
    if value < 0x80 {
      if maxchars < 1 { return false, at; }
      s[at] := value % 256;
      assert Stored(s, at, Written(value)) by {
        if value >= 0 { EncodingIs(value); }
      }
      end := at + 1;
    } else if value < 0x800 {
      if maxchars < 2 { return false, at; }
      s[at] := value / 0x40 % 0x20 + 0xc0;
      s[at+1] := Six(value, 1);
      assert Stored(s, at, Written(value)) by { EncodingIs(value); }
      end := at + 2;
    } else if value < 0x1_0000 {
      if maxchars < 3 { return false, at; }
      if 0xd800 <= value <= 0xdfff || value == 0xfffe || value == 0xffff {
        return false, at;
      }
      s[at] := value / 0x1000 % 0x10 + 0xe0;
      s[at+1] := Six(value, 0x40);
      s[at+2] := Six(value, 1);
      assert Stored(s, at, Written(value)) by { EncodingIs(value); }
      end := at + 3;
    } else {
      ok, end := PutLong(s, at, maxchars, value);
      if !ok { return; }
    }
    assert s[at..end] == Written(value);
    ok := true;
  }

  /** The forms of four to six bytes. */
  method PutLong(s: array<byte>, at: nat, maxchars: int, value: int) returns (ok: bool, end: nat)
    requires at <= s.Length && maxchars <= s.Length - at && 0x1_0000 <= value < 0x8000_0000
    modifies s
    ensures ok <==> Size(value) <= maxchars
    ensures ok ==> end == at + Size(value) && Stored(s, at, Encoding(value))
    ensures !ok ==> end == at
    ensures forall i :: 0 <= i < at || end <= i < s.Length ==> s[i] == old(s[i])
  {
    hide Encoding, Low, High, AllFollow, Mark, Six, Scalar, Accepted, Written;
    if value < 0x20_0000 {
      if maxchars < 4 { return false, at; }
      s[at] := value / 0x4_0000 % 8 + 0xf0;
      s[at+1] := Six(value, 0x1000);
      s[at+2] := Six(value, 0x40);
      s[at+3] := Six(value, 1);
      assert Stored(s, at, Encoding(value)) by {
        EncodingIs(value);
      }
      end := at + 4;
    } else if value < 0x400_0000 {
      if maxchars < 5 { return false, at; }
      s[at] := value / 0x100_0000 % 4 + 0xf8;
      s[at+1] := Six(value, 0x4_0000);
      s[at+2] := Six(value, 0x1000);
      s[at+3] := Six(value, 0x40);
      s[at+4] := Six(value, 1);
      assert Stored(s, at, Encoding(value)) by {
        EncodingIs(value);
      }
      end := at + 5;
    } else {
      if maxchars < 6 { return false, at; }
      s[at] := value / 0x4000_0000 % 2 + 0xfc;
      s[at+1] := Six(value, 0x100_0000);
      s[at+2] := Six(value, 0x4_0000);
      s[at+3] := Six(value, 0x1000);
      s[at+4] := Six(value, 0x40);
      s[at+5] := Six(value, 1);
      assert Stored(s, at, Encoding(value)) by {
        EncodingIs(value);
      }
      end := at + 6;
    }
    ok := true;
  }

  /** What is written for a value is read back as that value exactly when the value is not
      negative. */
  lemma ReadsBack(v: int, rest: seq<byte>)
    requires Accepted(v)
    ensures Starts(v, Written(v) + rest) <==> v >= 0
    ensures v >= 0 ==> forall w :: Starts(w, Written(v) + rest) <==> w == v
  {
    if v >= 0 {
      assert Starts(v, Written(v) + rest);
      forall w | Starts(w, Written(v) + rest) ensures w == v {
        EncodingUnique(v, w, Written(v) + rest);
      }
    }
  }

  // ----- whole strings -----

  predicate Text(vs: seq<int>) {
    forall i :: 0 <= i < |vs| ==> Scalar(vs[i]) && vs[i] != 0
  }

  function EncodingOf(vs: seq<int>): seq<byte>
    requires Text(vs)
  {
    if vs == [] then [] else Encoding(vs[0]) + EncodingOf(vs[1..])
  }

  /** The bytes are an encoded text and its terminator, and possibly more. */
  ghost predicate Encodes(vs: seq<int>, bytes: seq<byte>) {
    Text(vs) && EncodingOf(vs) + [0] <= bytes
  }

  lemma {:induction false} EncodingOfMore(vs: seq<int>, v: int)
    requires Text(vs + [v])
    ensures Text(vs) && Scalar(v) && EncodingOf(vs + [v]) == EncodingOf(vs) + Encoding(v)
  {
    hide Encoding;
    assert (vs + [v])[|vs|] == v;
    assert forall i :: 0 <= i < |vs| ==> vs[i] == (vs + [v])[i];
    if vs == [] {
      assert (vs + [v])[1..] == [];
    } else {
      assert vs[1..] + [v] == (vs + [v])[1..];
      EncodingOfMore(vs[1..], v);
    }
  }

  lemma EncodesFirst(vs: seq<int>, bytes: seq<byte>)
    requires Encodes(vs, bytes) && vs != []
    ensures Starts(vs[0], bytes) && Encodes(vs[1..], bytes[Size(vs[0])..])
  {
    hide Encoding;
    FrontOf(Encoding(vs[0]), EncodingOf(vs[1..]) + [0], bytes);
  }

  lemma FrontOf(first: seq<byte>, rest: seq<byte>, bytes: seq<byte>)
    requires (first + rest) <= bytes
    ensures first <= bytes && rest <= bytes[|first|..]
  {
    assert bytes[|first|..][..|rest|] == (first + rest)[|first|..];
  }

  lemma NothingIsNothing(vs: seq<int>, v: int, bytes: seq<byte>)
    requires Encodes(vs, bytes) && Starts(v, bytes) && v != 0
    ensures vs != []
  {
    StartsMeans(v, bytes);
  }

  /** A text that the bytes encode begins with what has been read from their front. */
  lemma {:induction false} ReadSoFar(vs: seq<int>, read: seq<int>, bytes: seq<byte>, rest: seq<byte>)
    requires Encodes(vs, bytes) && Text(read) && bytes == EncodingOf(read) + rest
    ensures read <= vs && Encodes(vs[|read|..], rest)
    decreases |read|
  {
    hide Encoding;
    if read == [] {
      assert bytes == rest && vs[0..] == vs;
    } else {
      var n := Size(read[0]);
      assert bytes[..n] == Encoding(read[0]);
      NothingIsNothing(vs, read[0], bytes);
      EncodesFirst(vs, bytes);
      EncodingUnique(vs[0], read[0], bytes);
      assert bytes[n..] == EncodingOf(read[1..]) + rest;
      ReadSoFar(vs[1..], read[1..], bytes[n..], rest);
      assert vs[1..][|read|-1..] == vs[|read|..];
    }
  }

  /** A zero-terminated string is accepted if and only if it is the encoding of a text, and
      then its length in characters is returned. */
  method Check(s: array<byte>, at: nat) returns (ok: bool, length: nat, ghost read: seq<int>)
    requires Terminated(s, at)
    ensures ok ==> Encodes(read, s[at..]) && length == |read|
    ensures !ok ==> forall vs :: !Encodes(vs, s[at..])
  {
    hide EncodingOf, Encoding, Encodes, Scalar, Starts, Size;
    ok, length, read := true, 0, [];
    var pos := at;
    NothingEncoded();
    while ok && s[pos] != 0
      invariant at <= pos < s.Length && Terminated(s, pos)
      invariant ok ==> Text(read) && EncodingOf(read) == s[at..pos] && length == |read|
      invariant !ok ==> forall vs :: !Encodes(vs, s[at..])
      decreases ok, s.Length - pos
    {
      var was, value := pos, 0;
      ok, pos, value := Get(s, pos);
      length := length + 1;
      if ok {
        OneMoreRead(s, at, was, pos, read, value);
        read := read + [value];
      } else {
        assert s[at..] == s[at..was] + s[was..];
        forall vs ensures !Encodes(vs, s[at..]) {
          if Encodes(vs, s[at..]) {
            NextIsRead(vs, read, s[at..], s[was..]);
          }
        }
      }
    }
    if ok {
      AllRead(s, at, pos, read);
    }
  }

  lemma AllRead(s: array<byte>, at: nat, pos: nat, read: seq<int>)
    requires at <= pos < s.Length && s[pos] == 0 && Text(read) && EncodingOf(read) == s[at..pos]
    ensures Encodes(read, s[at..])
  {
    assert s[at..][..pos+1-at] == s[at..pos] + [0];
  }

  lemma NothingEncoded()
    ensures EncodingOf([]) == []
  {
  }

  lemma OneMoreRead(s: array<byte>, at: nat, was: nat, pos: nat, read: seq<int>, value: int)
    requires at <= was < s.Length && s[was] != 0
    requires Text(read) && EncodingOf(read) == s[at..was]
    requires Starts(value, s[was..]) && pos == was + Size(value)
    ensures value != 0 && was < pos <= s.Length
    ensures Text(read + [value]) && EncodingOf(read + [value]) == s[at..pos]
  {
    hide EncodingOf, Encoding, Collected, Announced, AllFollow;
    StartsMeans(value, s[was..]);
    assert value != 0;
    assert Text(read + [value]);
    EncodingOfMore(read, value);
    assert s[was..pos] == s[was..][..Size(value)] == Encoding(value);
    assert s[at..pos] == s[at..was] + s[was..pos];
  }

  /** If a text is encoded and its rest does not begin with the terminator, a character can be
      read. */
  lemma NextIsRead(vs: seq<int>, read: seq<int>, bytes: seq<byte>, rest: seq<byte>)
    requires Encodes(vs, bytes) && Text(read) && EncodingOf(read) + rest == bytes
    requires rest != [] && rest[0] != 0
    ensures exists v :: Starts(v, rest)
  {
    hide Encoding, EncodingOf;
    ReadSoFar(vs, read, bytes, rest);
    var more := vs[|read|..];
    if more == [] {
      NothingEncoded();
    } else {
      EncodesFirst(more, rest);
    }
  }
}
