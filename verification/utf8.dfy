/**
 * UTF-8 decoding of captured bytes, as Python's `bytes.decode('utf-8')` does it.
 *
 * Well-formed sequences follow Table 3-7 of the Unicode Standard (section 3.9):
 * no overlong forms, no surrogates, nothing above U+10FFFF.  Two decoders are
 * modelled: the strict one (`errors='strict'`, which fails on the first
 * ill-formed byte) and the lossy one (`errors='ignore'`, which drops the bytes
 * it cannot decode).  CPython drops the maximal ill-formed subpart at a time;
 * since every byte of such a subpart after its first is a continuation byte,
 * and a continuation byte cannot start a sequence, dropping one byte at a time
 * yields the same text.
 */
module Utf8 {
  import opened Collections

  newtype byte = b: int | 0 <= b < 256

  predicate IsContinuation(b: byte)
  {
    0x80 <= b <= 0xBF
  }

  /** The range the second byte must fall in, which depends on the lead byte. */
  predicate SecondByteOk(lead: byte, b: byte)
  {
    if lead == 0xE0 then 0xA0 <= b <= 0xBF
    else if lead == 0xED then 0x80 <= b <= 0x9F
    else if lead == 0xF0 then 0x90 <= b <= 0xBF
    else if lead == 0xF4 then 0x80 <= b <= 0x8F
    else IsContinuation(b)
  }

  /** Length of the well-formed sequence at the head of `bs`; 0 when the head is ill-formed. */
  function SequenceLength(bs: seq<byte>): (n: nat)
    ensures n <= |bs| && n <= 4
    ensures bs != [] && bs[0] < 0x80 ==> n == 1
    ensures n > 0 ==> bs != [] && (bs[0] < 0x80 <==> n == 1)
  {
    if bs == [] then 0
    else if bs[0] <= 0x7F then 1
    else if 0xC2 <= bs[0] <= 0xDF then
      (if |bs| >= 2 && IsContinuation(bs[1]) then 2 else 0)
    else if 0xE0 <= bs[0] <= 0xEF then
      (if |bs| >= 3 && SecondByteOk(bs[0], bs[1]) && IsContinuation(bs[2]) then 3 else 0)
    else if 0xF0 <= bs[0] <= 0xF4 then
      (if |bs| >= 4 && SecondByteOk(bs[0], bs[1]) && IsContinuation(bs[2]) && IsContinuation(bs[3]) then 4 else 0)
    else 0
  }

  predicate IsScalar(cp: int)
  {
    0 <= cp < 0xD800 || 0xE000 <= cp < 0x11_0000
  }

  /** The code point a well-formed head sequence encodes; it is always a Unicode scalar value. */
  function HeadScalar(bs: seq<byte>): (cp: int)
    requires SequenceLength(bs) > 0
    ensures IsScalar(cp)
  {
    var n := SequenceLength(bs);
    if n == 1 then bs[0] as int
    else if n == 2 then (bs[0] as int - 0xC0) * 64 + (bs[1] as int - 0x80)
    else if n == 3 then
      (bs[0] as int - 0xE0) * 4096 + (bs[1] as int - 0x80) * 64 + (bs[2] as int - 0x80)
    else
      (bs[0] as int - 0xF0) * 262144 + (bs[1] as int - 0x80) * 4096
        + (bs[2] as int - 0x80) * 64 + (bs[3] as int - 0x80)
  }

  /** `bs.decode('utf-8', errors='ignore')`. */
  function DecodeIgnore(bs: seq<byte>): (s: string)
    ensures |s| <= |bs|
    decreases |bs|
  {
    if bs == [] then []
    else
      var n := SequenceLength(bs);
      if n == 0 then DecodeIgnore(bs[1..])
      else [HeadScalar(bs) as char] + DecodeIgnore(bs[n..])
  }

  /** `bs.decode('utf-8')`: `None` stands for the `UnicodeDecodeError` it raises. */
  function DecodeStrict(bs: seq<byte>): Option<string>
    decreases |bs|
  {
    if bs == [] then Some([])
    else
      var n := SequenceLength(bs);
      if n == 0 then None
      else
        match DecodeStrict(bs[n..])
        case None => None
        case Some(s) => Some([HeadScalar(bs) as char] + s)
  }

  /** `c.encode('utf-8')` for one character. */
  function EncodeChar(c: char): (bs: seq<byte>)
    ensures 1 <= |bs| <= 4
  {
    var cp := c as int;
    if cp < 0x80 then [cp as byte]
    else if cp < 0x800 then [(0xC0 + cp / 64) as byte, (0x80 + cp % 64) as byte]
    else if cp < 0x1_0000 then
      [(0xE0 + cp / 4096) as byte, (0x80 + (cp / 64) % 64) as byte, (0x80 + cp % 64) as byte]
    else
      [(0xF0 + cp / 262144) as byte, (0x80 + (cp / 4096) % 64) as byte,
       (0x80 + (cp / 64) % 64) as byte, (0x80 + cp % 64) as byte]
  }

  /** `s.encode('utf-8')`. */
  function Encode(s: string): seq<byte>
  {
    if s == [] then [] else EncodeChar(s[0]) + Encode(s[1..])
  }

  lemma TwoBytesDecode(c: char, rest: seq<byte>)
    requires 0x80 <= c as int < 0x800
    ensures SequenceLength(EncodeChar(c) + rest) == 2
    ensures HeadScalar(EncodeChar(c) + rest) == c as int
  {
    var cp := c as int;
    var hi, lo := cp / 64, cp % 64;
    assert cp == hi * 64 + lo && 2 <= hi < 32;
    var bs := EncodeChar(c) + rest;
    assert bs[0] as int == 0xC0 + hi && bs[1] as int == 0x80 + lo;
  }

  lemma ThreeBytesDecode(c: char, rest: seq<byte>)
    requires 0x800 <= c as int < 0x1_0000
    ensures SequenceLength(EncodeChar(c) + rest) == 3
    ensures HeadScalar(EncodeChar(c) + rest) == c as int
  {
    var cp := c as int;
    var top, mid, lo := cp / 4096, (cp / 64) % 64, cp % 64;
    assert cp / 64 == top * 64 + mid;
    assert cp == top * 4096 + mid * 64 + lo;
    var bs := EncodeChar(c) + rest;
    assert bs[0] as int == 0xE0 + top && bs[1] as int == 0x80 + mid && bs[2] as int == 0x80 + lo;
    assert top == 0 ==> mid >= 0x20;
    assert top == 13 ==> mid < 0x20;
  }

  lemma FourBytesDecode(c: char, rest: seq<byte>)
    requires 0x1_0000 <= c as int
    ensures SequenceLength(EncodeChar(c) + rest) == 4
    ensures HeadScalar(EncodeChar(c) + rest) == c as int
  {
    var cp := c as int;
    var top, b1, b2, lo := cp / 262144, (cp / 4096) % 64, (cp / 64) % 64, cp % 64;
    assert cp / 4096 == top * 64 + b1;
    assert cp / 64 == (cp / 4096) * 64 + b2;
    assert cp == (cp / 64) * 64 + lo;
    assert cp == top * 262144 + b1 * 4096 + b2 * 64 + lo;
    var bs := EncodeChar(c) + rest;
    assert bs[0] as int == 0xF0 + top && bs[1] as int == 0x80 + b1;
    assert bs[2] as int == 0x80 + b2 && bs[3] as int == 0x80 + lo;
    assert top == 0 ==> b1 >= 0x10;
    assert top == 4 ==> b1 < 0x10;
  }

  /** The encoding of a character is a well-formed sequence that decodes back to it. */
  lemma EncodeCharDecodes(c: char, rest: seq<byte>)
    ensures SequenceLength(EncodeChar(c) + rest) == |EncodeChar(c)|
    ensures HeadScalar(EncodeChar(c) + rest) == c as int
  {
    var cp := c as int;
    if cp < 0x80 {
    } else if cp < 0x800 {
      TwoBytesDecode(c, rest);
    } else if cp < 0x1_0000 {
      ThreeBytesDecode(c, rest);
    } else {
      FourBytesDecode(c, rest);
    }
  }

  /** Strict decoding inverts encoding. */
  lemma {:induction false} DecodeStrictEncode(s: string)
    ensures DecodeStrict(Encode(s)) == Some(s)
  {
    if s != [] {
      var head := EncodeChar(s[0]);
      var tail := Encode(s[1..]);
      EncodeCharDecodes(s[0], tail);
      assert (head + tail)[|head|..] == tail;
      DecodeStrictEncode(s[1..]);
      assert s == [s[0]] + s[1..];
    }
  }

  /** When strict decoding succeeds, the lossy decoder drops nothing and agrees with it. */
  lemma {:induction false} DecodeStrictAgrees(bs: seq<byte>)
    requires DecodeStrict(bs).Some?
    ensures DecodeIgnore(bs) == DecodeStrict(bs).value
    decreases |bs|
  {
    if bs != [] {
      DecodeStrictAgrees(bs[SequenceLength(bs)..]);
    }
  }

  /** Lossy decoding also inverts encoding: text that went in as UTF-8 comes out unchanged. */
  lemma DecodeIgnoreEncode(s: string)
    ensures DecodeIgnore(Encode(s)) == s
  {
    DecodeStrictEncode(s);
    DecodeStrictAgrees(Encode(s));
  }

  /** An ASCII byte at the head decodes to the character with its code. */
  lemma DecodeAsciiHead(bs: seq<byte>)
    requires bs != [] && bs[0] < 0x80
    ensures DecodeIgnore(bs) == [bs[0] as int as char] + DecodeIgnore(bs[1..])
  {
  }

  /** Bytes below 0x80 decode one-for-one to the characters with those codes. */
  lemma {:induction false} DecodeAscii(bs: seq<byte>)
    requires forall i :: 0 <= i < |bs| ==> bs[i] < 0x80
    ensures |DecodeIgnore(bs)| == |bs|
    ensures forall i :: 0 <= i < |bs| ==> DecodeIgnore(bs)[i] as int == bs[i] as int
  {
    if bs != [] {
      DecodeAscii(bs[1..]);
    }
  }
}
