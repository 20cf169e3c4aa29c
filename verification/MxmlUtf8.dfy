/**
  The character layer below Mini-XML's loader: code points written to a growing
  buffer as UTF-8, and read from a string. The bit fields that the C code joins with
  `|` do not overlap, so they are written as sums, and shifts and masks as quotients
  and remainders.
*/
module MxmlUtf8 {
  import opened Basics

  /** `mxml_bad_char` */
  predicate BadChar(ch: int) {
    ch < 32 && ch != 10 && ch != 13 && ch != 9
  }

  const BOM: int := 0xFEFF

  /** The characters that survive being written and read. */
  predicate Legal(ch: int) {
    1 <= ch <= 0x1F_FFFF && !BadChar(ch) && ch != BOM
  }

  // --------------------------------------------------------- writing

  /** The byte sequence of one character (section 3 of RFC 3629, with the four-byte form used up to its last bit). */
  function Encode(ch: int): (s: seq<byte>)
    requires 0 <= ch <= 0x1F_FFFF
    ensures 1 <= |s| <= 4
  {
    if ch < 0x80 then [ch]
    else if ch < 0x800 then [0xC0 + ch / 64, 0x80 + ch % 64]
    else if ch < 0x1_0000 then [0xE0 + ch / 4096, 0x80 + ch / 64 % 64, 0x80 + ch % 64]
    else [0xF0 + ch / 262144, 0x80 + ch / 4096 % 64, 0x80 + ch / 64 % 64, 0x80 + ch % 64]
  }

  /** The bytes of the table in section 3 of RFC 3629, by the length of the sequence, and the shortest form of the character. */
  lemma EncodeMeans(ch: int)
    requires 0 <= ch <= 0x1F_FFFF
    ensures var s := Encode(ch);
      && (forall i :: 0 < i < |s| ==> 0x80 <= s[i] <= 0xBF)
      && (|s| == 1 ==> s[0] <= 0x7F && ch == s[0])
      && (|s| == 2 ==> 0xC2 <= s[0] <= 0xDF && ch == (s[0] as int - 0xC0) * 64 + (s[1] as int - 0x80))
      && (|s| == 3 ==> 0xE0 <= s[0] <= 0xEF && ch == (s[0] as int - 0xE0) * 4096 + (s[1] as int - 0x80) * 64 + (s[2] as int - 0x80) && ch >= 0x800)
      && (|s| == 4 ==>
            && 0xF0 <= s[0] <= 0xF7 && ch >= 0x1_0000
            && ch == (s[0] as int - 0xF0) * 262144 + (s[1] as int - 0x80) * 4096 + (s[2] as int - 0x80) * 64 + (s[3] as int - 0x80))
  {
    Digits(ch);
  }

  /** The buffer `mxml_add_char` fills: there is always room for a terminating NUL. */
  class CharBuffer {
    var buffer: array<byte>
    var bufptr: nat

    ghost predicate Valid()
      reads this
    {
      buffer.Length >= 64 && bufptr < buffer.Length
    }

    ghost function Contents(): seq<byte>
      requires Valid()
      reads this, buffer
    {
      buffer[..bufptr]
    }

    constructor ()
      ensures Valid() && Contents() == [] && fresh(buffer)
    {
      buffer := new byte[64];
      bufptr := 0;
    }

    /** `realloc` to the size `mxml_add_char` asks for */
    method Grow()
      requires Valid()
      modifies this`buffer
      ensures Valid() && fresh(buffer) && Contents() == old(Contents())
      ensures bufptr + 4 < buffer.Length
    {
      var bufsize := if buffer.Length < 1024 then buffer.Length * 2 else buffer.Length + 1024;
      var was, n := buffer, buffer.Length;
      var more := new byte[bufsize];
      var i := 0;
      while i < n
        invariant 0 <= i <= n && forall k :: 0 <= k < i ==> more[k] == was[k]
      {
        more[i] := was[i];
        i := i + 1;
      }
      buffer := more;
      assert more[..bufptr] == was[..bufptr];
    }

    /** `*bufptr ++ = b` */
    method Put(b: byte)
      requires Valid() && bufptr + 1 < buffer.Length
      modifies this`bufptr, buffer
      ensures Valid() && bufptr == old(bufptr) + 1 && Contents() == old(Contents()) + [b]
    {
      buffer[bufptr] := b;
      bufptr := bufptr + 1;
    }

    /** `mxml_add_char`: adds the bytes of `ch`, having made room for the longest sequence and a NUL. */
    method AddChar(ch: int)
      requires Valid() && 0 <= ch <= 0x1F_FFFF
      modifies this, buffer
      ensures Valid() && (buffer == old(buffer) || fresh(buffer))
      ensures Contents() == old(Contents()) + Encode(ch)
    {
      if bufptr >= buffer.Length - 4 {
        Grow();
      }
      PutChar(ch);
    }

    /** The bytes of one character, for which there is room. */
    method PutChar(ch: int)
      requires Valid() && 0 <= ch <= 0x1F_FFFF && bufptr + 4 < buffer.Length
      modifies this`bufptr, buffer
      ensures Valid() && Contents() == old(Contents()) + Encode(ch)
    {
      hide Contents;
      if ch < 0x80 {
        Put(ch);
      } else if ch < 0x800 {
        Put(0xC0 + ch / 64);
        Put(0x80 + ch % 64);
      } else if ch < 0x1_0000 {
        Put(0xE0 + ch / 4096);
        Put(0x80 + ch / 64 % 64);
        Put(0x80 + ch % 64);
      } else {
        Put(0xF0 + ch / 262144);
        Put(0x80 + ch / 4096 % 64);
        Put(0x80 + ch / 64 % 64);
        Put(0x80 + ch % 64);
      }
    }
  }

  // --------------------------------------------------------- reading

  /** A character, or the end or an error, and the position behind; or a switch to UTF-16. */
  datatype Read = Got(ch: int, pos: nat) | Eof(pos: nat) | Utf16

  /** The byte a C string holds at `pos`: NUL at its end. */
  function ByteAt(s: seq<byte>, pos: nat): byte {
    if pos < |s| then s[pos] else 0
  }

  predicate Continues(b: byte) {
    b / 64 == 2
  }

  /** `mxml_string_getc` in its UTF-8 state */
  function GetC(s: seq<byte>, pos: nat): (r: Read)
    requires pos <= |s|
    ensures r.Got? ==> pos < r.pos <= |s| && Legal(r.ch)
    ensures r.Eof? ==> pos <= r.pos <= |s|
    decreases |s| - pos
  {
    var ch := ByteAt(s, pos);
    var b1, b2, b3 := ByteAt(s, pos + 1), ByteAt(s, pos + 2), ByteAt(s, pos + 3);
    if ch == 0 then Eof(pos)
    else if ch < 0x80 then (if BadChar(ch) then Eof(pos + 1) else Got(ch, pos + 1))
    else if ch == 0xFE then (if b1 != 0xFF then Eof(pos + 1) else Utf16)
    else if ch == 0xFF then (if b1 != 0xFE then Eof(pos + 1) else Utf16)
    else if ch / 32 == 6 then
      if !Continues(b1) then Eof(pos + 1)
      else
        var c := ch % 32 * 64 + b1 % 64;
        if c < 0x80 then Eof(pos + 2) else Got(c, pos + 2)
    else if ch / 16 == 14 then
      if !Continues(b1) || !Continues(b2) then Eof(pos + 1)
      else
        var c := (ch % 16 * 64 + b1 % 64) * 64 + b2 % 64;
        if c < 0x800 then Eof(pos + 3) else if c == BOM then GetC(s, pos + 3) else Got(c, pos + 3)
    else if ch / 8 == 30 then
      if !Continues(b1) || !Continues(b2) || !Continues(b3) then Eof(pos + 1)
      else
        var c := ((ch % 8 * 64 + b1 % 64) * 64 + b2 % 64) * 64 + b3 % 64;
        if c < 0x1_0000 then Eof(pos + 4) else Got(c, pos + 4)
    else Eof(pos + 1)
  }

  /** Digits of a number to base 64 put together again. */
  lemma Digits(ch: int)
    requires 0 <= ch <= 0x1F_FFFF
    ensures ch / 64 / 64 == ch / 4096 && ch / 4096 / 64 == ch / 262144
    ensures ch == ch / 64 * 64 + ch % 64
    ensures ch / 64 == ch / 4096 * 64 + ch / 64 % 64
    ensures ch / 4096 == ch / 262144 * 64 + ch / 4096 % 64
  {
  }

  lemma WrittenBytes(ch: int, s: seq<byte>, pos: nat)
    requires 1 <= ch <= 0x1F_FFFF && pos + |Encode(ch)| <= |s| && s[pos..pos + |Encode(ch)|] == Encode(ch)
    ensures forall k :: 0 <= k < |Encode(ch)| ==> ByteAt(s, pos + k) == Encode(ch)[k]
    ensures ByteAt(s, pos) == Encode(ch)[0]
    ensures |Encode(ch)| > 1 ==> ByteAt(s, pos + 1) == Encode(ch)[1]
    ensures |Encode(ch)| > 2 ==> ByteAt(s, pos + 2) == Encode(ch)[2]
    ensures |Encode(ch)| > 3 ==> ByteAt(s, pos + 3) == Encode(ch)[3]
  {
    hide Encode;
    var e := Encode(ch);
    var w := s[pos..pos + |e|];
    forall k | 0 <= k < |e| ensures ByteAt(s, pos + k) == e[k] {
      assert w[k] == s[pos + k];
    }
    assert ByteAt(s, pos + 0) == e[0];
  }

  // What is read, by the class of the first byte.

  lemma GetOne(s: seq<byte>, pos: nat)
    requires pos <= |s| && 0 < ByteAt(s, pos) < 0x80
    ensures GetC(s, pos) == if BadChar(ByteAt(s, pos)) then Eof(pos + 1) else Got(ByteAt(s, pos), pos + 1)
  {
  }

  function Two(b0: byte, b1: byte): int {
    b0 % 32 * 64 + b1 % 64
  }

  lemma GetTwo(s: seq<byte>, pos: nat, b0: byte, b1: byte)
    requires pos <= |s| && b0 == ByteAt(s, pos) && b1 == ByteAt(s, pos + 1) && b0 / 32 == 6 && Continues(b1)
    ensures pos + 2 <= |s| && GetC(s, pos) == if Two(b0, b1) < 0x80 then Eof(pos + 2) else Got(Two(b0, b1), pos + 2)
  {
  }

  function Three(b0: byte, b1: byte, b2: byte): int {
    (b0 as int % 16 * 64 + b1 % 64) * 64 + b2 % 64
  }

  lemma GetThree(s: seq<byte>, pos: nat, b0: byte, b1: byte, b2: byte)
    requires pos <= |s| && b0 == ByteAt(s, pos) && b1 == ByteAt(s, pos + 1) && b2 == ByteAt(s, pos + 2)
    requires b0 / 16 == 14 && Continues(b1) && Continues(b2)
    ensures pos + 3 <= |s|
    ensures var c := Three(b0, b1, b2);
      GetC(s, pos) == if c < 0x800 then Eof(pos + 3) else if c == BOM then GetC(s, pos + 3) else Got(c, pos + 3)
  {
  }

  function Four(b0: byte, b1: byte, b2: byte, b3: byte): int {
    ((b0 as int % 8 * 64 + b1 % 64) * 64 + b2 % 64) * 64 + b3 % 64
  }

  lemma GetFour(s: seq<byte>, pos: nat, b0: byte, b1: byte, b2: byte, b3: byte)
    requires pos <= |s| && b0 == ByteAt(s, pos) && b1 == ByteAt(s, pos + 1) && b2 == ByteAt(s, pos + 2) && b3 == ByteAt(s, pos + 3)
    requires b0 / 8 == 30 && Continues(b1) && Continues(b2) && Continues(b3)
    ensures pos + 4 <= |s|
    ensures var c := Four(b0, b1, b2, b3); GetC(s, pos) == if c < 0x1_0000 then Eof(pos + 4) else Got(c, pos + 4)
  {
  }

  lemma GotCases(s: seq<byte>, pos: nat)
    requires pos <= |s| && GetC(s, pos).Got?
    ensures var b0, b1, b2, b3 := ByteAt(s, pos), ByteAt(s, pos + 1), ByteAt(s, pos + 2), ByteAt(s, pos + 3);
      || 0 < b0 < 0x80
      || (b0 / 32 == 6 && Continues(b1))
      || (b0 / 16 == 14 && Continues(b1) && Continues(b2))
      || (b0 / 8 == 30 && Continues(b1) && Continues(b2) && Continues(b3))
  {
  }

  lemma TwoDigits(ch: int)
    requires 0x80 <= ch < 0x800
    ensures var e := Encode(ch); |e| == 2 && e[0] / 32 == 6 && Continues(e[1]) && Two(e[0], e[1]) == ch
  {
  }

  lemma ThreeDigits(ch: int)
    requires 0x800 <= ch < 0x1_0000
    ensures var e := Encode(ch); |e| == 3 && e[0] / 16 == 14 && Continues(e[1]) && Continues(e[2]) && Three(e[0], e[1], e[2]) == ch
  {
    Digits(ch);
  }

  lemma FourDigits(ch: int)
    requires 0x1_0000 <= ch <= 0x1F_FFFF
    ensures var e := Encode(ch);
      && |e| == 4 && e[0] / 8 == 30 && Continues(e[1]) && Continues(e[2]) && Continues(e[3])
      && Four(e[0], e[1], e[2], e[3]) == ch
  {
    Digits(ch);
  }

  /** Reading back what was written gives the character exactly if it is legal. */
  lemma WriteThenRead(ch: int, s: seq<byte>, pos: nat)
    requires 1 <= ch <= 0x1F_FFFF && pos + |Encode(ch)| <= |s| && s[pos..pos + |Encode(ch)|] == Encode(ch)
    ensures GetC(s, pos) == Got(ch, pos + |Encode(ch)|) <==> Legal(ch)
  {
    hide GetC, ByteAt, Two, Three, Four, Continues;
    var e := Encode(ch);
    WrittenBytes(ch, s, pos);
    if ch < 0x80 {
      GetOne(s, pos);
    } else if ch < 0x800 {
      TwoDigits(ch);
      GetTwo(s, pos, e[0], e[1]);
    } else if ch < 0x1_0000 {
      ThreeDigits(ch);
      GetThree(s, pos, e[0], e[1], e[2]);
    } else {
      FourDigits(ch);
      GetFour(s, pos, e[0], e[1], e[2], e[3]);
    }
  }

  lemma OneWayTwo(b0: byte, b1: byte)
    requires b0 / 32 == 6 && Continues(b1) && Two(b0, b1) >= 0x80
    ensures Encode(Two(b0, b1)) == [b0, b1]
  {
    var c := Two(b0, b1);
    assert c / 64 == b0 % 32 && c % 64 == b1 % 64;
  }

  lemma OneWayThree(b0: byte, b1: byte, b2: byte)
    requires b0 / 16 == 14 && Continues(b1) && Continues(b2) && Three(b0, b1, b2) >= 0x800
    ensures Encode(Three(b0, b1, b2)) == [b0, b1, b2]
  {
    var d: int := b0 as int % 16 * 64 + b1 % 64;
    var c := Three(b0, b1, b2);
    assert d / 64 == b0 % 16 && d % 64 == b1 % 64 && c / 64 == d && c % 64 == b2 % 64;
    Digits(c);
  }

  lemma OneWayFour(b0: byte, b1: byte, b2: byte, b3: byte)
    requires b0 / 8 == 30 && Continues(b1) && Continues(b2) && Continues(b3) && Four(b0, b1, b2, b3) >= 0x1_0000
    ensures Encode(Four(b0, b1, b2, b3)) == [b0, b1, b2, b3]
  {
    var d: int := b0 as int % 8 * 64 + b1 % 64;
    var e: int := d * 64 + b2 % 64;
    var c := Four(b0, b1, b2, b3);
    assert d / 64 == b0 % 8 && d % 64 == b1 % 64 && e / 64 == d && e % 64 == b2 % 64 && c / 64 == e && c % 64 == b3 % 64;
    Digits(c);
  }

  lemma BytesAt(s: seq<byte>, pos: nat, n: nat)
    requires n <= 4 && pos + n <= |s|
    ensures n == 1 ==> s[pos..pos + 1] == [ByteAt(s, pos)]
    ensures n == 2 ==> s[pos..pos + 2] == [ByteAt(s, pos), ByteAt(s, pos + 1)]
    ensures n == 3 ==> s[pos..pos + 3] == [ByteAt(s, pos), ByteAt(s, pos + 1), ByteAt(s, pos + 2)]
    ensures n == 4 ==> s[pos..pos + 4] == [ByteAt(s, pos), ByteAt(s, pos + 1), ByteAt(s, pos + 2), ByteAt(s, pos + 3)]
  {
  }

  /** What is read was the one way to write that character. */
  lemma {:induction false} ReadIsWritten(s: seq<byte>, pos: nat)
    requires pos <= |s| && GetC(s, pos).Got?
    ensures var r := GetC(s, pos); pos + |Encode(r.ch)| <= r.pos && s[r.pos - |Encode(r.ch)|..r.pos] == Encode(r.ch)
    decreases |s| - pos
  {
    hide Encode, GetC, ByteAt, Two, Three, Four, Continues;
    var b0, b1, b2, b3 := ByteAt(s, pos), ByteAt(s, pos + 1), ByteAt(s, pos + 2), ByteAt(s, pos + 3);
    GotCases(s, pos);
    if b0 < 0x80 {
      GetOne(s, pos);
      OneByte(b0);
      BytesAt(s, pos, 1);
    } else if b0 / 32 == 6 {
      GetTwo(s, pos, b0, b1);
      OneWayTwo(b0, b1);
      BytesAt(s, pos, 2);
    } else if b0 / 16 == 14 {
      GetThree(s, pos, b0, b1, b2);
      if Three(b0, b1, b2) == BOM {
        ReadIsWritten(s, pos + 3);
      } else {
        OneWayThree(b0, b1, b2);
        BytesAt(s, pos, 3);
      }
    } else {
      GetFour(s, pos, b0, b1, b2, b3);
      OneWayFour(b0, b1, b2, b3);
      BytesAt(s, pos, 4);
    }
  }

  lemma OneByte(b: byte)
    requires b < 0x80
    ensures Encode(b) == [b]
  {
  }

  // --------------------------------------------------------- strings

  ghost predicate AllLegal(cs: seq<int>) {
    forall i :: 0 <= i < |cs| ==> Legal(cs[i])
  }

  function EncodeAll(cs: seq<int>): seq<byte>
    requires forall i :: 0 <= i < |cs| ==> 0 <= cs[i] <= 0x1F_FFFF
  {
    if |cs| == 0 then [] else Encode(cs[0]) + EncodeAll(cs[1..])
  }

  /** All the characters of a string, up to its end or the first error. */
  function ReadAll(s: seq<byte>, pos: nat): seq<int>
    requires pos <= |s|
    decreases |s| - pos
  {
    var r := GetC(s, pos);
    if r.Got? then [r.ch] + ReadAll(s, r.pos) else []
  }

  /** Writing legal characters to a buffer and reading them back returns them. */
  lemma {:induction false} WriteThenReadAll(cs: seq<int>, before: seq<byte>)
    requires AllLegal(cs)
    ensures ReadAll(before + EncodeAll(cs), |before|) == cs
    decreases |cs|
  {
    hide GetC, Encode;
    var s := before + EncodeAll(cs);
    if |cs| == 0 {
      assert ByteAt(s, |before|) == 0;
      EndOfString(s);
    } else {
      var e := Encode(cs[0]);
      assert s == (before + e) + EncodeAll(cs[1..]);
      assert s[|before|..|before| + |e|] == e;
      WriteThenRead(cs[0], s, |before|);
      WriteThenReadAll(cs[1..], before + e);
    }
  }

  lemma EndOfString(s: seq<byte>)
    ensures GetC(s, |s|) == Eof(|s|)
  {
  }
}
