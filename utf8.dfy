/**
 * String.getBytes(StandardCharsets.UTF_8) on Dafny strings, whose chars are
 * Unicode scalar values, and the byte facts the wire formats rely on:
 * an ASCII char is one byte, and every byte of a longer encoding is at
 * least 0x80, so it never looks like CR, LF, '"', '&' or '='.
 */
module Utf8 {

  newtype byte = x: int | 0 <= x < 0x100

  const CR: byte := 13
  const LF: byte := 10
  const CRLF: seq<byte> := [CR, LF]

  predicate IsAscii(s: string) {
    forall i :: 0 <= i < |s| ==> s[i] as int < 0x80
  }

  /** The UTF-8 encoding of one scalar value: one to four bytes. */
  function EncodeChar(c: char): (r: seq<byte>)
    ensures 1 <= |r| <= 4
    ensures c as int < 0x80 ==> r == [c as int as byte]
    ensures c as int >= 0x80 ==> forall i :: 0 <= i < |r| ==> r[i] >= 0x80
  {
    var n := c as int;
    if n < 0x80 then [n as byte]
    else if n < 0x800 then [(0xC0 + n / 0x40) as byte, (0x80 + n % 0x40) as byte]
    else if n < 0x1_0000 then
      [(0xE0 + n / 0x1000) as byte, (0x80 + n / 0x40 % 0x40) as byte, (0x80 + n % 0x40) as byte]
    else
      [(0xF0 + n / 0x4_0000) as byte, (0x80 + n / 0x1000 % 0x40) as byte,
       (0x80 + n / 0x40 % 0x40) as byte, (0x80 + n % 0x40) as byte]
  }

  /** The bytes of a string encoded as UTF-8, char by char. */
  function Encode(s: string): (r: seq<byte>)
    ensures |r| >= |s|
  {
    if s == [] then [] else EncodeChar(s[0]) + Encode(s[1..])
  }

  lemma {:induction false} EncodeAppend(a: string, b: string)
    ensures Encode(a + b) == Encode(a) + Encode(b)
  {
    if a == [] {
      assert a + b == b;
    } else {
      assert (a + b)[0] == a[0] && (a + b)[1..] == a[1..] + b;
      EncodeAppend(a[1..], b);
      assert Encode(a + b) == EncodeChar(a[0]) + (Encode(a[1..]) + Encode(b));
    }
  }

  /** ASCII text is encoded one byte per char, each byte its char's code. */
  lemma {:induction false} EncodeAscii(s: string)
    requires IsAscii(s)
    ensures |Encode(s)| == |s|
    ensures forall i :: 0 <= i < |s| ==> Encode(s)[i] as int == s[i] as int
  {
    if s != [] {
      EncodeAscii(s[1..]);
    }
  }

  /** The bytes of an ASCII text: each char's code. */
  function AsciiBytes(s: string): (r: seq<byte>)
    requires IsAscii(s)
    ensures |r| == |s| && forall i :: 0 <= i < |s| ==> r[i] as int == s[i] as int
  {
    seq(|s|, i requires 0 <= i < |s| => s[i] as int as byte)
  }

  /** UTF-8 leaves ASCII text as its codes. */
  lemma EncodeAsciiBytes(s: string)
    requires IsAscii(s)
    ensures Encode(s) == AsciiBytes(s)
  {
    EncodeAscii(s);
  }

  /** An ASCII byte occurs in the encoding exactly where its char occurs in the text. */
  lemma {:induction false} EncodeHasAscii(s: string, c: char)
    requires c as int < 0x80
    ensures (c as int as byte in Encode(s)) <==> c in s
  {
    if s != [] {
      EncodeHasAscii(s[1..], c);
      var b := c as int as byte;
      assert Encode(s) == EncodeChar(s[0]) + Encode(s[1..]);
      assert b in EncodeChar(s[0]) <==> s[0] == c;
      assert c in s <==> s[0] == c || c in s[1..];
    }
  }
}
