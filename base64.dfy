/** The base 64 encoding of section 4 of RFC 4648, with `=` padding, as
    `Buffer.prototype.toString('base64')` produces it, and its inverse. */
module Base64 {
  import opened Common

  type Sextet = x: int | 0 <= x < 64

  /** Table 1 of RFC 4648: the character for each 6-bit value. */
  function ToChar(v: Sextet): (c: char)
    ensures IsBase64Char(c)
  {
    if v < 26 then ('A' as int + v) as char
    else if v < 52 then ('a' as int + (v - 26)) as char
    else if v < 62 then ('0' as int + (v - 52)) as char
    else if v == 62 then '+'
    else '/'
  }

  predicate IsBase64Char(c: char) {
    ('A' <= c <= 'Z') || ('a' <= c <= 'z') || ('0' <= c <= '9') || c == '+' || c == '/'
  }

  /** The 6-bit value of an alphabet character. */
  function FromChar(c: char): (v: Sextet)
    requires IsBase64Char(c)
    ensures ToChar(v) == c
  {
    if 'A' <= c <= 'Z' then (c as int - 'A' as int)
    else if 'a' <= c <= 'z' then (c as int - 'a' as int) + 26
    else if '0' <= c <= '9' then (c as int - '0' as int) + 52
    else if c == '+' then 62
    else 63
  }

  lemma ToCharInjective(v: Sextet)
    ensures FromChar(ToChar(v)) == v
  {
  }

  /** Three octets become four characters: each takes six of the 24 bits. */
  function EncodeGroup(x: Byte, y: Byte, z: Byte): string {
    [ToChar(x as int / 4), ToChar((x as int % 4) * 16 + y as int / 16),
     ToChar((y as int % 16) * 4 + z as int / 64), ToChar(z as int % 64)]
  }

  /** Full groups of three, then a final group of one or two octets padded
      with `=` to four characters. */
  function Encode(b: seq<Byte>): (s: string)
  {
    if |b| == 0 then ""
    else if |b| == 1 then
      [ToChar(b[0] as int / 4), ToChar((b[0] as int % 4) * 16), '=', '=']
    else if |b| == 2 then
      [ToChar(b[0] as int / 4), ToChar((b[0] as int % 4) * 16 + b[1] as int / 16),
       ToChar((b[1] as int % 16) * 4), '=']
    else EncodeGroup(b[0], b[1], b[2]) + Encode(b[3..])
  }

  /** Every three octets, and a last group of one or two, take four
      characters. */
  lemma {:induction false} EncodeLength(b: seq<Byte>)
    ensures |Encode(b)| == 4 * ((|b| + 2) / 3)
  {
    if |b| >= 3 {
      EncodeLength(b[3..]);
      assert |Encode(b)| == 4 + |Encode(b[3..])|;
      GroupCount(|b|);
    }
  }

  lemma GroupCount(n: nat)
    requires n >= 3
    ensures 4 + 4 * ((n - 3 + 2) / 3) == 4 * ((n + 2) / 3)
  {
  }

  /** Only alphabet characters appear, except `=` at the end as padding. */
  lemma {:induction false} EncodeAlphabet(b: seq<Byte>)
    ensures forall i :: 0 <= i < |Encode(b)| ==>
      IsBase64Char(Encode(b)[i]) || (Encode(b)[i] == '=' && i >= |Encode(b)| - 2)
  {
    if |b| >= 3 {
      EncodeAlphabet(b[3..]);
      EncodeLength(b[3..]);
    }
  }

  /** Four characters back into three octets, or fewer when padded. */
  function DecodeQuad(s: string): (r: Option<seq<Byte>>)
    requires |s| == 4
  {
    if !(IsBase64Char(s[0]) && IsBase64Char(s[1])) then None
    else
      var a, b := FromChar(s[0]), FromChar(s[1]);
      var x := (a * 4 + b / 16) as Byte;
      if s[2] == '=' && s[3] == '=' then Some([x])
      else if !IsBase64Char(s[2]) then None
      else
        var c := FromChar(s[2]);
        var y := ((b % 16) * 16 + c / 4) as Byte;
        if s[3] == '=' then Some([x, y])
        else if !IsBase64Char(s[3]) then None
        else
          var d := FromChar(s[3]);
          Some([x, y, ((c % 4) * 64 + d) as Byte])
  }

  /** The inverse of `Encode`: `None` for text that no octets encode to. */
  function Decode(s: string): (r: Option<seq<Byte>>)
    decreases |s|
  {
    if s == "" then Some([])
    else if |s| < 4 then None
    else
      match DecodeQuad(s[..4])
      case None => None
      case Some(g) =>
        if |g| < 3 then (if |s| == 4 then Some(g) else None)
        else
          match Decode(s[4..])
          case None => None
          case Some(rest) => Some(g + rest)
  }

  /** Splitting a value into high and low parts and joining them again. */
  lemma Rejoin16(hi: int, lo: int)
    requires 0 <= lo < 16 && 0 <= hi
    ensures (hi * 16 + lo) / 16 == hi && (hi * 16 + lo) % 16 == lo
  {
  }

  lemma Rejoin4(hi: int, lo: int)
    requires 0 <= lo < 4 && 0 <= hi
    ensures (hi * 4 + lo) / 4 == hi && (hi * 4 + lo) % 4 == lo
  {
  }

  lemma GroupArithmetic(x: int, y: int, z: int)
    requires 0 <= x < 256 && 0 <= y < 256 && 0 <= z < 256
    ensures var a, b, c, d := x / 4, (x % 4) * 16 + y / 16, (y % 16) * 4 + z / 64, z % 64;
      && a * 4 + b / 16 == x && (b % 16) * 16 + c / 4 == y && (c % 4) * 64 + d == z
  {
    Rejoin16(x % 4, y / 16);
    Rejoin4(y % 16, z / 64);
  }

  /** The character of a sextet is in the alphabet, is not the padding
      character and stands for that sextet. */
  lemma CharOf(v: Sextet)
    ensures IsBase64Char(ToChar(v)) && ToChar(v) != '=' && FromChar(ToChar(v)) == v
  {
    ToCharInjective(v);
  }

  /** Four alphabet characters stand for the three octets their sextets
      spell. */
  lemma QuadDecodes(s: string, a: Sextet, b: Sextet, c: Sextet, d: Sextet, x: Byte, y: Byte, z: Byte)
    requires |s| == 4
    requires IsBase64Char(s[0]) && FromChar(s[0]) == a && IsBase64Char(s[1]) && FromChar(s[1]) == b
    requires IsBase64Char(s[2]) && s[2] != '=' && FromChar(s[2]) == c
    requires IsBase64Char(s[3]) && s[3] != '=' && FromChar(s[3]) == d
    requires a * 4 + b / 16 == x as int && (b % 16) * 16 + c / 4 == y as int && (c % 4) * 64 + d == z as int
    ensures DecodeQuad(s) == Some([x, y, z])
  {
  }

  /** With one padding character, three characters stand for two octets. */
  lemma PaddedQuadDecodes(s: string, a: Sextet, b: Sextet, c: Sextet, x: Byte, y: Byte)
    requires |s| == 4
    requires IsBase64Char(s[0]) && FromChar(s[0]) == a && IsBase64Char(s[1]) && FromChar(s[1]) == b
    requires IsBase64Char(s[2]) && s[2] != '=' && FromChar(s[2]) == c && s[3] == '='
    requires a * 4 + b / 16 == x as int && (b % 16) * 16 + c / 4 == y as int
    ensures DecodeQuad(s) == Some([x, y])
  {
  }

  /** With two padding characters, two characters stand for one octet. */
  lemma DoublyPaddedQuadDecodes(s: string, a: Sextet, b: Sextet, x: Byte)
    requires |s| == 4
    requires IsBase64Char(s[0]) && FromChar(s[0]) == a && IsBase64Char(s[1]) && FromChar(s[1]) == b
    requires s[2] == '=' && s[3] == '='
    requires a * 4 + b / 16 == x as int
    ensures DecodeQuad(s) == Some([x])
  {
  }

  lemma GroupDecodes(x: Byte, y: Byte, z: Byte)
    ensures DecodeQuad(EncodeGroup(x, y, z)) == Some([x, y, z])
  {
    var a, b, c, d := x as int / 4, (x as int % 4) * 16 + y as int / 16,
                      (y as int % 16) * 4 + z as int / 64, z as int % 64;
    CharOf(a);
    CharOf(b);
    CharOf(c);
    CharOf(d);
    GroupArithmetic(x as int, y as int, z as int);
    QuadDecodes(EncodeGroup(x, y, z), a, b, c, d, x, y, z);
  }

  lemma OneDecodes(x: Byte)
    ensures Decode(Encode([x])) == Some([x])
  {
    var s := Encode([x]);
    var a, b := x as int / 4, (x as int % 4) * 16;
    CharOf(a);
    CharOf(b);
    GroupArithmetic(x as int, 0, 0);
    DoublyPaddedQuadDecodes(s, a, b, x);
    assert s[..4] == s;
  }

  lemma TwoDecodes(x: Byte, y: Byte)
    ensures Decode(Encode([x, y])) == Some([x, y])
  {
    var s := Encode([x, y]);
    var a, b, c := x as int / 4, (x as int % 4) * 16 + y as int / 16, (y as int % 16) * 4;
    CharOf(a);
    CharOf(b);
    CharOf(c);
    GroupArithmetic(x as int, y as int, 0);
    PaddedQuadDecodes(s, a, b, c, x, y);
    assert s[..4] == s;
  }

  /** Decoding undoes encoding, so the base 64 text carries the octets
      losslessly. */
  lemma {:induction false} DecodeEncode(b: seq<Byte>)
    ensures Decode(Encode(b)) == Some(b)
    decreases |b|
  {
    if |b| == 1 {
      calc {
        Decode(Encode(b));
        { assert b == [b[0]]; }
        Decode(Encode([b[0]]));
        { OneDecodes(b[0]); }
        Some([b[0]]);
        { assert b == [b[0]]; }
        Some(b);
      }
    } else if |b| == 2 {
      calc {
        Decode(Encode(b));
        { assert b == [b[0], b[1]]; }
        Decode(Encode([b[0], b[1]]));
        { TwoDecodes(b[0], b[1]); }
        Some([b[0], b[1]]);
        { assert b == [b[0], b[1]]; }
        Some(b);
      }
    } else if |b| >= 3 {
      var g := EncodeGroup(b[0], b[1], b[2]);
      GroupDecodes(b[0], b[1], b[2]);
      DecodeEncode(b[3..]);
      DecodeGroupThen(g, Encode(b[3..]), [b[0], b[1], b[2]], b[3..]);
      assert Encode(b) == g + Encode(b[3..]);
      SplitThree(b);
    }
  }

  lemma SplitThree<T>(s: seq<T>)
    requires |s| >= 3
    ensures [s[0], s[1], s[2]] + s[3..] == s
  {
  }

  lemma DecodeGroupThen(q: string, rest: string, g: seq<Byte>, r: seq<Byte>)
    requires |q| == 4 && DecodeQuad(q) == Some(g) && |g| == 3
    requires Decode(rest) == Some(r)
    ensures Decode(q + rest) == Some(g + r)
  {
    assert (q + rest)[..4] == q;
    assert (q + rest)[4..] == rest;
  }

  /** The octets 0, 1, 2, 3 encode as `AAECAw==`. */
  lemma EncodeExample()
    ensures Encode([0, 1, 2, 3]) == "AAECAw=="
  {
    var b: seq<Byte> := [0, 1, 2, 3];
    assert b[3..] == [3];
    assert EncodeGroup(0, 1, 2) == [ToChar(0), ToChar(0), ToChar(4), ToChar(2)] == "AAEC";
    assert Encode([3]) == [ToChar(0), ToChar(48), '=', '='] == "Aw==";
  }
}
