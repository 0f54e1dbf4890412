/** UTF-8 encoding of text (RFC 3629, section 3), as `new TextEncoder().encode(s)`
    and `Buffer.from(s)` produce it. A Dafny `char` is a Unicode scalar
    value, so every character has an encoding. */
module Utf8 {
  import opened Common

  /** The one to four octets of one scalar value: a lead octet with the
      high bits, then six bits per continuation octet, lowest bits last. */
  function EncodeChar(c: char): (r: seq<Byte>)
    ensures 1 <= |r| <= 4
    ensures |r| == 1 <==> c as int < 0x80
    ensures |r| == 1 ==> r[0] as int == c as int
    ensures forall i :: 1 <= i < |r| ==> 0x80 <= r[i] < 0xC0
  {
    var n := c as int;
    var n1, n2 := n / 64, n / 64 / 64;
    if n < 0x80 then [n as Byte]
    else if n < 0x800 then [(0xC0 + n1) as Byte, (0x80 + n % 64) as Byte]
    else if n < 0x10000 then
      [(0xE0 + n2) as Byte, (0x80 + n1 % 64) as Byte, (0x80 + n % 64) as Byte]
    else
      [(0xF0 + n2 / 64) as Byte, (0x80 + n2 % 64) as Byte, (0x80 + n1 % 64) as Byte, (0x80 + n % 64) as Byte]
  }

  /** The six payload bits of a continuation octet. */
  function Low(b: Byte): int {
    b as int - 0x80
  }

  /** The scalar value a well-formed sequence of one to four octets stands for. */
  function DecodeChar(b: seq<Byte>): (n: int)
    requires 1 <= |b| <= 4
  {
    if |b| == 1 then b[0] as int
    else if |b| == 2 then (b[0] as int - 0xC0) * 64 + Low(b[1])
    else if |b| == 3 then ((b[0] as int - 0xE0) * 64 + Low(b[1])) * 64 + Low(b[2])
    else (((b[0] as int - 0xF0) * 64 + Low(b[1])) * 64 + Low(b[2])) * 64 + Low(b[3])
  }

  /** Each character's octets stand for exactly that character. */
  lemma EncodeCharDecodes(c: char)
    ensures DecodeChar(EncodeChar(c)) == c as int
  {
    var n := c as int;
    var n1, n2 := n / 64, n / 64 / 64;
    assert n == n1 * 64 + n % 64;
    assert n1 == n2 * 64 + n1 % 64;
    assert n2 == (n2 / 64) * 64 + n2 % 64;
  }

  /** `TextEncoder.encode`: the characters' octets, in order. */
  function Encode(s: string): (r: seq<Byte>)
    ensures |s| <= |r| <= 4 * |s|
  {
    if s == [] then [] else Encode(s[..|s| - 1]) + EncodeChar(s[|s| - 1])
  }

  predicate IsAscii(s: string) {
    forall i :: 0 <= i < |s| ==> s[i] as int < 0x80
  }

  /** Encoding distributes over concatenation. */
  lemma {:induction false} EncodeAppend(a: string, b: string)
    ensures Encode(a + b) == Encode(a) + Encode(b)
  {
    if b != [] {
      var b' := b[..|b| - 1];
      assert (a + b)[..|a + b| - 1] == a + b';
      EncodeAppend(a, b');
    } else {
      assert a + b == a;
    }
  }

  /** Text of ASCII characters only is encoded one octet per character, each
      octet being the character's code; any other text takes more octets. */
  lemma {:induction false} EncodeAsciiLength(s: string)
    ensures |Encode(s)| == |s| <==> IsAscii(s)
    ensures IsAscii(s) ==> forall i :: 0 <= i < |s| ==> Encode(s)[i] as int == s[i] as int
  {
    if s != [] {
      var s' := s[..|s| - 1];
      EncodeAsciiLength(s');
      assert IsAscii(s) ==> IsAscii(s');
      if !IsAscii(s') {
        assert |Encode(s')| > |s'|;
      }
    }
  }
}
