/**
 * UTF-8 as defined by section 4 of RFC 3629: the well-formedness grammar over octets, the decoder
 * that `String::from_utf8` amounts to, and the encoder it inverts.
 */
module Utf8Codec {
  import opened Wrappers

  type byte = b: int | 0 <= b < 0x100

  /** UTF8-tail = %x80-BF */
  predicate IsTail(b: byte) {
    0x80 <= b <= 0xBF
  }

  /** The six payload bits of a continuation octet. */
  function Low(b: byte): int {
    b as int - 0x80
  }

  /** A Unicode scalar value: a code point that is not a surrogate, i.e. exactly the values of `char`. */
  predicate IsScalar(cp: int) {
    0 <= cp < 0xD800 || 0xE000 <= cp < 0x11_0000
  }

  /**
   * The number of octets of the UTF8-char at the front of `s`, following the alternatives of the
   * grammar in section 4 of RFC 3629, or 0 when `s` does not start with a UTF8-char.
   */
  function CharLength(s: seq<byte>): (n: nat)
    requires |s| > 0
    ensures n <= 4 && n <= |s|
  {
    var b0 := s[0];
    if b0 <= 0x7F then 1
    else if 0xC2 <= b0 <= 0xDF then
      if |s| >= 2 && IsTail(s[1]) then 2 else 0
    else if b0 == 0xE0 then
      if |s| >= 3 && 0xA0 <= s[1] <= 0xBF && IsTail(s[2]) then 3 else 0
    else if 0xE1 <= b0 <= 0xEC || 0xEE <= b0 <= 0xEF then
      if |s| >= 3 && IsTail(s[1]) && IsTail(s[2]) then 3 else 0
    else if b0 == 0xED then
      if |s| >= 3 && 0x80 <= s[1] <= 0x9F && IsTail(s[2]) then 3 else 0
    else if b0 == 0xF0 then
      if |s| >= 4 && 0x90 <= s[1] <= 0xBF && IsTail(s[2]) && IsTail(s[3]) then 4 else 0
    else if 0xF1 <= b0 <= 0xF3 then
      if |s| >= 4 && IsTail(s[1]) && IsTail(s[2]) && IsTail(s[3]) then 4 else 0
    else if b0 == 0xF4 then
      if |s| >= 4 && 0x80 <= s[1] <= 0x8F && IsTail(s[2]) && IsTail(s[3]) then 4 else 0
    else 0
  }

  /** UTF8-octets = *( UTF8-char ) */
  predicate WellFormed(s: seq<byte>)
    decreases |s|
  {
    s == [] || (CharLength(s) > 0 && WellFormed(s[CharLength(s)..]))
  }

  /**
   * The code point of the UTF8-char at the front of `s`. The grammar admits only the shortest
   * form of each scalar value and no surrogate.
   */
  function CodePoint(s: seq<byte>): (cp: int)
    requires |s| > 0 && CharLength(s) > 0
    ensures IsScalar(cp)
    ensures CharLength(s) == 1 <==> cp < 0x80
    ensures CharLength(s) == 2 <==> 0x80 <= cp < 0x800
    ensures CharLength(s) == 3 <==> 0x800 <= cp < 0x1_0000
    ensures CharLength(s) == 4 <==> 0x1_0000 <= cp
  {
    var b0 := s[0] as int;
    match CharLength(s)
    case 1 => b0
    case 2 => (b0 - 0xC0) * 64 + Low(s[1])
    case 3 => ((b0 - 0xE0) * 64 + Low(s[1])) * 64 + Low(s[2])
    case 4 => (((b0 - 0xF0) * 64 + Low(s[1])) * 64 + Low(s[2])) * 64 + Low(s[3])
  }

  /** `String::from_utf8`: the characters `s` encodes, or None when `s` is not well-formed. */
  function Decode(s: seq<byte>): (r: Option<string>)
    ensures r.Some? <==> WellFormed(s)
    ensures r.Some? ==> |r.value| <= |s|
    decreases |s|
  {
    if s == [] then Some([])
    else if CharLength(s) == 0 then None
    else
      match Decode(s[CharLength(s)..])
      case None => None
      case Some(rest) => Some([CodePoint(s) as char] + rest)
  }

  /** The UTF-8 encoding of one character. */
  function EncodeChar(c: char): (r: seq<byte>)
    ensures 1 <= |r| <= 4
    ensures c as int < 0x80 ==> r == [c as int]
    ensures c as int >= 0x80 ==> forall k :: 0 <= k < |r| ==> r[k] >= 0x80
  {
    var cp := c as int;
    if cp < 0x80 then [cp]
    else if cp < 0x800 then [0xC0 + cp / 64, 0x80 + cp % 64]
    else if cp < 0x1_0000 then [0xE0 + cp / 4096, 0x80 + (cp / 64) % 64, 0x80 + cp % 64]
    else [0xF0 + cp / 0x4_0000, 0x80 + (cp / 4096) % 64, 0x80 + (cp / 64) % 64, 0x80 + cp % 64]
  }

  /** The UTF-8 encoding of a string, character by character. */
  function Encode(t: string): (r: seq<byte>)
    ensures |r| >= |t|
  {
    if t == [] then [] else EncodeChar(t[0]) + Encode(t[1..])
  }

  /** The encoding of one character is a UTF8-char that decodes back to that character, whatever follows it. */
  lemma EncodeCharDecodes(c: char, rest: seq<byte>)
    ensures CharLength(EncodeChar(c) + rest) == |EncodeChar(c)|
    ensures CodePoint(EncodeChar(c) + rest) == c as int
  {
    var cp := c as int;
    if cp < 0x80 {
    } else if cp < 0x800 {
      TwoOctets(cp, EncodeChar(c) + rest);
    } else if cp < 0x1_0000 {
      ThreeOctets(cp, EncodeChar(c) + rest);
    } else {
      FourOctets(cp, EncodeChar(c) + rest);
    }
  }

  lemma TwoOctets(cp: int, s: seq<byte>)
    requires 0x80 <= cp < 0x800
    requires |s| >= 2 && s[0] == 0xC0 + cp / 64 && s[1] == 0x80 + cp % 64
    ensures CharLength(s) == 2 && CodePoint(s) == cp
  {
    var q1, r1 := cp / 64, cp % 64;
    assert cp == q1 * 64 + r1;
  }

  lemma ThreeOctets(cp: int, s: seq<byte>)
    requires 0x800 <= cp < 0x1_0000 && IsScalar(cp)
    requires |s| >= 3 && s[0] == 0xE0 + cp / 4096 && s[1] == 0x80 + (cp / 64) % 64 && s[2] == 0x80 + cp % 64
    ensures CharLength(s) == 3 && CodePoint(s) == cp
  {
    var q1, r1 := cp / 64, cp % 64;
    var q2, r2 := q1 / 64, q1 % 64;
    assert cp == q1 * 64 + r1 && q1 == q2 * 64 + r2;
    assert cp / 4096 == q2 by {
      assert cp == q2 * 4096 + (r2 * 64 + r1);
    }
    assert s[0] as int == 0xE0 + q2 && Low(s[1]) == r2 && Low(s[2]) == r1;
  }

  lemma FourOctets(cp: int, s: seq<byte>)
    requires 0x1_0000 <= cp < 0x11_0000
    requires |s| >= 4 && s[0] == 0xF0 + cp / 0x4_0000 && s[1] == 0x80 + (cp / 4096) % 64
    requires s[2] == 0x80 + (cp / 64) % 64 && s[3] == 0x80 + cp % 64
    ensures CharLength(s) == 4 && CodePoint(s) == cp
  {
    var q1, r1 := cp / 64, cp % 64;
    var q2, r2 := q1 / 64, q1 % 64;
    var q3, r3 := q2 / 64, q2 % 64;
    assert cp == q1 * 64 + r1 && q1 == q2 * 64 + r2 && q2 == q3 * 64 + r3;
    assert cp / 4096 == q2 by {
      assert cp == q2 * 4096 + (r2 * 64 + r1);
    }
    assert cp / 0x4_0000 == q3 by {
      assert cp == q3 * 0x4_0000 + (r3 * 4096 + r2 * 64 + r1);
    }
    assert s[0] as int == 0xF0 + q3 && Low(s[1]) == r3 && Low(s[2]) == r2 && Low(s[3]) == r1;
  }

  /** Round trip: decoding an encoded string gives the string back, so every encoding is well-formed. */
  lemma {:induction false} DecodeEncode(t: string)
    ensures Decode(Encode(t)) == Some(t)
    ensures WellFormed(Encode(t))
  {
    if t != [] {
      var head, tail := EncodeChar(t[0]), Encode(t[1..]);
      EncodeCharDecodes(t[0], tail);
      assert Encode(t) == head + tail;
      assert (head + tail)[|head|..] == tail;
      DecodeEncode(t[1..]);
      assert CodePoint(head + tail) as char == t[0];
      assert t == [t[0]] + t[1..];
    }
  }

  /** Division by 64 is determined by a quotient and a remainder below 64. */
  lemma DivMod64(x: int, q: int, r: int)
    requires 0 <= r < 64 && x == q * 64 + r
    ensures x / 64 == q && x % 64 == r
  {
  }

  lemma EncodeTwo(c: char, b0: byte, b1: byte)
    requires 0xC2 <= b0 <= 0xDF && IsTail(b1) && c as int == (b0 - 0xC0) * 64 + Low(b1)
    ensures EncodeChar(c) == [b0, b1]
  {
    DivMod64(c as int, b0 - 0xC0, Low(b1));
  }

  lemma EncodeThree(c: char, b0: byte, b1: byte, b2: byte)
    requires 0xE0 <= b0 <= 0xEF && IsTail(b1) && IsTail(b2) && 0x800 <= c as int
    requires c as int == ((b0 - 0xE0) * 64 + Low(b1)) * 64 + Low(b2)
    ensures EncodeChar(c) == [b0, b1, b2]
  {
    var cp, q1 := c as int, (b0 - 0xE0) * 64 + Low(b1);
    DivMod64(cp, q1, Low(b2));
    DivMod64(q1, b0 - 0xE0, Low(b1));
    assert cp / 4096 == b0 - 0xE0 by {
      assert cp == (b0 - 0xE0) * 4096 + (Low(b1) * 64 + Low(b2));
    }
  }

  lemma EncodeFour(c: char, b0: byte, b1: byte, b2: byte, b3: byte)
    requires 0xF0 <= b0 <= 0xF4 && IsTail(b1) && IsTail(b2) && IsTail(b3) && 0x1_0000 <= c as int
    requires c as int == (((b0 - 0xF0) * 64 + Low(b1)) * 64 + Low(b2)) * 64 + Low(b3)
    ensures EncodeChar(c) == [b0, b1, b2, b3]
  {
    var cp, q2 := c as int, (b0 - 0xF0) * 64 + Low(b1);
    var q1 := q2 * 64 + Low(b2);
    DivMod64(cp, q1, Low(b3));
    DivMod64(q1, q2, Low(b2));
    DivMod64(q2, b0 - 0xF0, Low(b1));
    assert cp / 4096 == q2 by {
      assert cp == q2 * 4096 + (Low(b2) * 64 + Low(b3));
    }
    assert cp / 0x4_0000 == b0 - 0xF0 by {
      assert cp == (b0 - 0xF0) * 0x4_0000 + (Low(b1) * 4096 + Low(b2) * 64 + Low(b3));
    }
  }

  /** The UTF8-char at the front of `s` is the encoding of the character it decodes to. */
  lemma CharEncodes(s: seq<byte>)
    requires |s| > 0 && CharLength(s) > 0
    ensures EncodeChar(CodePoint(s) as char) == s[..CharLength(s)]
  {
    var c := CodePoint(s) as char;
    assert c as int == CodePoint(s);
    var n := CharLength(s);
    if n == 2 {
      EncodeTwo(c, s[0], s[1]);
      assert s[..2] == [s[0], s[1]];
    } else if n == 3 {
      EncodeThree(c, s[0], s[1], s[2]);
      assert s[..3] == [s[0], s[1], s[2]];
    } else if n == 4 {
      EncodeFour(c, s[0], s[1], s[2], s[3]);
      assert s[..4] == [s[0], s[1], s[2], s[3]];
    } else {
      assert s[..1] == [s[0]];
    }
  }

  lemma SplitJoin(s: seq<byte>, n: nat)
    requires n <= |s|
    ensures s[..n] + s[n..] == s
  {
  }

  lemma Associative(x: seq<byte>, y: seq<byte>, z: seq<byte>)
    ensures x + (y + z) == (x + y) + z
  {
  }

  lemma DecodeCons(s: seq<byte>, rest: string)
    requires |s| > 0 && CharLength(s) > 0 && Decode(s[CharLength(s)..]) == Some(rest)
    ensures Decode(s) == Some([CodePoint(s) as char] + rest)
  {
  }

  lemma EncodeCons(c: char, rest: string)
    ensures Encode([c] + rest) == EncodeChar(c) + Encode(rest)
  {
    assert ([c] + rest)[0] == c && ([c] + rest)[1..] == rest;
  }

  /**
   * Round trip on the octet side: the text decoded from well-formed octets encodes back to exactly
   * those octets, so a decoded field holds the bytes of the log and nothing else.
   */
  lemma {:induction false} EncodeDecode(s: seq<byte>)
    requires WellFormed(s)
    ensures Decode(s).Some? && Encode(Decode(s).value) == s
    decreases |s|
  {
    if s != [] {
      var n := CharLength(s);
      var c := CodePoint(s) as char;
      EncodeDecode(s[n..]);
      var rest := Decode(s[n..]).value;
      DecodeCons(s, rest);
      EncodeCons(c, rest);
      CharEncodes(s);
      SplitJoin(s, n);
    }
  }

  /** Encoding distributes over concatenation. */
  lemma {:induction false} EncodeAppend(a: string, b: string)
    ensures Encode(a + b) == Encode(a) + Encode(b)
  {
    if a == [] {
      assert a + b == b;
    } else {
      var c, tail := a[0], a[1..];
      assert a == [c] + tail;
      assert a + b == [c] + (tail + b);
      EncodeCons(c, tail + b);
      EncodeCons(c, tail);
      EncodeAppend(tail, b);
      Associative(EncodeChar(c), Encode(tail), Encode(b));
    }
  }

  /**
   * An ASCII octet occurs in an encoding only where the string holds that very character:
   * multi-octet sequences consist of octets at or above 0x80.
   */
  lemma {:induction false} AsciiOctetInEncoding(t: string, k: nat)
    requires k < |Encode(t)| && Encode(t)[k] < 0x80
    ensures Encode(t)[k] as char in t
  {
    var head := EncodeChar(t[0]);
    assert Encode(t) == head + Encode(t[1..]);
    if k < |head| {
      assert t[0] as int < 0x80;
      assert Encode(t)[k] as char == t[0];
    } else {
      AsciiOctetInEncoding(t[1..], k - |head|);
      assert Encode(t)[k] == Encode(t[1..])[k - |head|];
    }
  }

  /** An all-ASCII string is encoded octet for octet. */
  lemma {:induction false} AsciiEncoding(t: string)
    requires forall k :: 0 <= k < |t| ==> t[k] as int < 0x80
    ensures |Encode(t)| == |t|
    ensures forall k :: 0 <= k < |t| ==> Encode(t)[k] == t[k] as int
  {
    if t != [] {
      AsciiEncoding(t[1..]);
      assert Encode(t) == [t[0] as int] + Encode(t[1..]);
    }
  }
}
