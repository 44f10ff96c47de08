/**
 * The UTF-8 encoding of section 3 of RFC 3629, used as the charset of
 * `String.getBytes()`, together with a decoder for the part of UTF-8 that
 * covers the code points U+0000..U+00FF, so that encoding a string of such
 * characters can be shown to be reversible.
 */
module Utf8 {
  import opened Wrappers
  import opened Bytes

  /** Number of bytes of `bytes` that are 0x80 or above. */
  function HighCount(bytes: seq<byte>): nat
  {
    if bytes == [] then 0
    else (if bytes[0] >= 0x80 then 1 else 0) + HighCount(bytes[1..])
  }

  /** Widens each byte to the character with the same code point (`(char) b` in Java). */
  function Latin1(bytes: seq<byte>): (s: seq<char>)
    ensures |s| == |bytes|
    ensures forall i :: 0 <= i < |bytes| ==> s[i] as int == bytes[i] as int
  {
    if bytes == [] then [] else [(bytes[0] as int) as char] + Latin1(bytes[1..])
  }

  /** The UTF-8 sequence of one code point (section 3 of RFC 3629). */
  function EncodeChar(c: char): (r: seq<byte>)
    ensures 1 <= |r| <= 4
    ensures |r| == 1 <==> c as int < 0x80
    ensures |r| == 2 <==> 0x80 <= c as int < 0x800
  {
    var n := c as int;
    if n < 0x80 then
      [n as byte]
    else if n < 0x800 then
      [(0xC0 + n / 0x40) as byte, (0x80 + n % 0x40) as byte]
    else if n < 0x10000 then
      [(0xE0 + n / 0x1000) as byte, (0x80 + (n / 0x40) % 0x40) as byte, (0x80 + n % 0x40) as byte]
    else
      [(0xF0 + n / 0x40000) as byte, (0x80 + (n / 0x1000) % 0x40) as byte,
       (0x80 + (n / 0x40) % 0x40) as byte, (0x80 + n % 0x40) as byte]
  }

  /** The UTF-8 encoding of a string: the concatenation of its characters' sequences. */
  function Encode(s: seq<char>): seq<byte>
  {
    if s == [] then [] else EncodeChar(s[0]) + Encode(s[1..])
  }

  /**
   * Decodes UTF-8 whose code points all lie in U+0000..U+00FF back to the
   * bytes with those code points; `None` for anything else.
   */
  function DecodeLatin1(bytes: seq<byte>): Option<seq<byte>>
  {
    if bytes == [] then Some([])
    else if bytes[0] < 0x80 then
      match DecodeLatin1(bytes[1..])
      case Some(rest) => Some([bytes[0]] + rest)
      case None => None
    else if (bytes[0] == 0xC2 || bytes[0] == 0xC3) && |bytes| >= 2 && 0x80 <= bytes[1] < 0xC0 then
      match DecodeLatin1(bytes[2..])
      case Some(rest) => Some([((bytes[0] - 0xC0) * 0x40 + (bytes[1] - 0x80)) as byte] + rest)
      case None => None
    else None
  }

  /** Encoding a string is empty exactly when the string is. */
  lemma EncodeEmptyIff(s: seq<char>)
    ensures |Encode(s)| == 0 <==> |s| == 0
  {
  }

  /** A byte below 0x80 encodes as itself. */
  lemma AsciiByte(b: byte)
    requires b < 0x80
    ensures EncodeChar((b as int) as char) == [b]
  {
  }

  /**
   * A byte x at or above 0x80 becomes the two bytes 110000xx 10xxxxxx:
   * 0xC0 | (x >> 6) followed by 0x80 | (x & 0x3F).
   */
  lemma HighByte(x: bv8)
    requires x >= 0x80
    ensures EncodeChar((x as int) as char) == [(0xC0 | (x >> 6)) as byte, (0x80 | (x & 0x3F)) as byte]
  {
    HighByteArith(x as int as byte);
    LeadBits(x);
    TrailBits(x);
  }

  lemma LeadBits(x: bv8)
    ensures (0xC0 | (x >> 6)) as int == 0xC0 + x as int / 0x40
  {
    ShiftIsDiv(x);
    LeadIsSum(x >> 6);
  }

  lemma TrailBits(x: bv8)
    ensures (0x80 | (x & 0x3F)) as int == 0x80 + x as int % 0x40
  {
    MaskIsMod(x);
    TrailIsSum(x & 0x3F);
  }

  /** The same two bytes in arithmetic: 0xC0 + b / 64 and 0x80 + b % 64. */
  lemma HighByteArith(b: byte)
    requires b >= 0x80
    ensures EncodeChar((b as int) as char) == [(0xC0 + b as int / 0x40) as byte, (0x80 + b as int % 0x40) as byte]
  {
  }

  lemma ShiftIsDiv(x: bv8)
    ensures (x >> 6) as int == x as int / 0x40
  {
  }

  lemma MaskIsMod(x: bv8)
    ensures (x & 0x3F) as int == x as int % 0x40
  {
  }

  lemma LeadIsSum(x: bv8)
    requires x < 4
    ensures (0xC0 | x) as int == 0xC0 + x as int
  {
  }

  lemma TrailIsSum(x: bv8)
    requires x < 0x40
    ensures (0x80 | x) as int == 0x80 + x as int
  {
  }

  /** The widened bytes encode as the first byte's sequence followed by the rest's encoding. */
  lemma EncodeLatin1Cons(bytes: seq<byte>)
    requires bytes != []
    ensures Encode(Latin1(bytes)) == EncodeChar((bytes[0] as int) as char) + Encode(Latin1(bytes[1..]))
  {
    assert Latin1(bytes)[1..] == Latin1(bytes[1..]);
  }

  /** Encoding the widened bytes yields one extra byte per byte at or above 0x80. */
  lemma {:induction false} Latin1EncodedLength(bytes: seq<byte>)
    ensures |Encode(Latin1(bytes))| == |bytes| + HighCount(bytes)
  {
    if bytes != [] {
      EncodeLatin1Cons(bytes);
      Latin1EncodedLength(bytes[1..]);
    }
  }

  /** Bytes all below 0x80 come back from the widen-then-encode round unchanged. */
  lemma {:induction false} AsciiUnchanged(bytes: seq<byte>)
    requires forall i :: 0 <= i < |bytes| ==> bytes[i] < 0x80
    ensures Encode(Latin1(bytes)) == bytes
  {
    if bytes != [] {
      var rest := bytes[1..];
      assert forall i :: 0 <= i < |rest| ==> rest[i] == bytes[i + 1];
      AsciiUnchanged(rest);
      AsciiCons(bytes);
      assert bytes == [bytes[0]] + rest;
    }
  }

  /** A leading byte below 0x80 stays a single byte in front of the rest's encoding. */
  lemma AsciiCons(bytes: seq<byte>)
    requires bytes != [] && bytes[0] < 0x80
    ensures Encode(Latin1(bytes)) == [bytes[0]] + Encode(Latin1(bytes[1..]))
  {
    EncodeLatin1Cons(bytes);
    AsciiByte(bytes[0]);
  }

  /** One byte at or above 0x80 is enough for the round to change the bytes. */
  lemma HighByteChanges(bytes: seq<byte>, i: nat)
    requires i < |bytes| && bytes[i] >= 0x80
    ensures Encode(Latin1(bytes)) != bytes
  {
    Latin1EncodedLength(bytes);
    HighCountPositive(bytes, i);
  }

  lemma {:induction false} HighCountPositive(bytes: seq<byte>, i: nat)
    requires i < |bytes| && bytes[i] >= 0x80
    ensures HighCount(bytes) > 0
  {
    if i > 0 && bytes[0] < 0x80 {
      assert bytes[1..][i - 1] == bytes[i];
      HighCountPositive(bytes[1..], i - 1);
    }
  }

  /** Decoding sees a byte below 0x80 as itself and goes on with the rest. */
  lemma DecodeAscii(b: byte, tail: seq<byte>)
    requires b < 0x80
    ensures DecodeLatin1(EncodeChar((b as int) as char) + tail)
      == match DecodeLatin1(tail) case Some(rest) => Some([b] + rest) case None => None
  {
    AsciiByte(b);
    assert ([b] + tail)[1..] == tail;
  }

  /** Decoding turns the two-byte sequence of a byte at or above 0x80 back into that byte. */
  lemma DecodeHigh(b: byte, tail: seq<byte>)
    requires b >= 0x80
    ensures DecodeLatin1(EncodeChar((b as int) as char) + tail)
      == match DecodeLatin1(tail) case Some(rest) => Some([b] + rest) case None => None
  {
    HighByteArith(b);
    var lead, trail := (0xC0 + b as int / 0x40) as byte, (0x80 + b as int % 0x40) as byte;
    var e := [lead, trail] + tail;
    assert e[2..] == tail;
    assert lead == 0xC2 || lead == 0xC3;
    assert ((lead - 0xC0) * 0x40 + (trail - 0x80)) as int == b as int;
  }

  /** The round is reversible: decoding its output gives back the original bytes. */
  lemma {:induction false} DecodeLatin1RoundTrip(bytes: seq<byte>)
    ensures DecodeLatin1(Encode(Latin1(bytes))) == Some(bytes)
  {
    if bytes != [] {
      var b := bytes[0];
      EncodeLatin1Cons(bytes);
      DecodeLatin1RoundTrip(bytes[1..]);
      if b < 0x80 {
        DecodeAscii(b, Encode(Latin1(bytes[1..])));
      } else {
        DecodeHigh(b, Encode(Latin1(bytes[1..])));
      }
      assert [b] + bytes[1..] == bytes;
    }
  }
}
