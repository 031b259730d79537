/** UTF-8, the representation of a Rust `String`: the bytes `String::len()` counts,
    `as_bytes()` exposes and `fs::read_to_string` validates. */
module Utf8 {
  import opened Wrappers

  newtype byte = x: int | 0 <= x < 256

  /** Number of bytes of the encoding whose first byte is `lead`; 0 when `lead`
      cannot start a character (a continuation byte, or 0xF8 and above). */
  function SequenceLength(lead: byte): (n: nat)
    ensures n <= 4
  {
    if lead < 0x80 then 1
    else if lead < 0xC0 then 0
    else if lead < 0xE0 then 2
    else if lead < 0xF0 then 3
    else if lead < 0xF8 then 4
    else 0
  }

  predicate IsContinuation(b: byte) {
    0x80 <= b < 0xC0
  }

  /** A lead byte followed by exactly the continuation bytes it announces. */
  predicate IsGroup(b: seq<byte>) {
    1 <= |b| <= 4 && SequenceLength(b[0]) == |b|
    && forall i :: 1 <= i < |b| ==> IsContinuation(b[i])
  }

  /** The UTF-8 encoding of one Unicode scalar value. */
  function EncodeChar(c: char): (r: seq<byte>)
    ensures IsGroup(r)
    ensures |r| == 1 <==> c as int < 0x80
    ensures |r| == 1 ==> r[0] as int == c as int
  {
    var cp := c as int;
    if cp < 0x80 then
      [cp as byte]
    else if cp < 0x800 then
      [(0xC0 + cp / 64) as byte, (0x80 + cp % 64) as byte]
    else if cp < 0x1_0000 then
      [(0xE0 + cp / 4096) as byte, (0x80 + cp / 64 % 64) as byte, (0x80 + cp % 64) as byte]
    else
      [(0xF0 + cp / 262144) as byte, (0x80 + cp / 4096 % 64) as byte,
       (0x80 + cp / 64 % 64) as byte, (0x80 + cp % 64) as byte]
  }

  /** The UTF-8 encoding of a string, character by character. */
  function Encode(s: string): (r: seq<byte>)
    ensures |s| <= |r| <= 4 * |s|
  {
    if s == [] then [] else EncodeChar(s[0]) + Encode(s[1..])
  }

  /** The scalar value encoded by one complete byte sequence `b`, or None when
      `b` is an overlong form, a surrogate or beyond U+10FFFF. */
  function DecodeChar(b: seq<byte>): (r: Option<char>)
    requires IsGroup(b)
  {
    if |b| == 1 then
      Some(b[0] as int as char)
    else if |b| == 2 then
      var cp := (b[0] as int - 0xC0) * 64 + (b[1] as int - 0x80);
      if cp < 0x80 then None else Some(cp as char)
    else if |b| == 3 then
      var cp := (b[0] as int - 0xE0) * 4096 + (b[1] as int - 0x80) * 64 + (b[2] as int - 0x80);
      if cp < 0x800 || (0xD800 <= cp < 0xE000) then None else Some(cp as char)
    else
      var cp := (b[0] as int - 0xF0) * 262144 + (b[1] as int - 0x80) * 4096
                + (b[2] as int - 0x80) * 64 + (b[3] as int - 0x80);
      if cp < 0x1_0000 || cp >= 0x11_0000 then None else Some(cp as char)
  }

  /** Strict UTF-8 validation and decoding, as `String::from_utf8` does it:
      None for any byte sequence that is not well-formed UTF-8. */
  function Decode(b: seq<byte>): (r: Option<string>)
    decreases |b|
  {
    if b == [] then Some([])
    else
      var n := SequenceLength(b[0]);
      if n == 0 || n > |b| || !IsGroup(b[..n]) then None
      else
        match DecodeChar(b[..n])
        case None => None
        case Some(c) =>
          match Decode(b[n..])
          case None => None
          case Some(rest) => Some([c] + rest)
  }

  /** Decoding a character's encoding gives the character back. */
  lemma DecodeEncodeChar(c: char)
    ensures DecodeChar(EncodeChar(c)) == Some(c)
  {
    var cp, b := c as int, EncodeChar(c);
    if cp < 0x80 {
    } else if cp < 0x800 {
      var q, r := cp / 64, cp % 64;
      assert b[0] as int - 0xC0 == q && b[1] as int - 0x80 == r;
    } else if cp < 0x1_0000 {
      var q, r := cp / 64, cp % 64;
      var q2, q1 := q / 64, q % 64;
      assert cp / 4096 == q2;
      assert b[0] as int - 0xE0 == q2 && b[1] as int - 0x80 == q1 && b[2] as int - 0x80 == r;
    } else {
      var q, r := cp / 64, cp % 64;
      var p, q1 := q / 64, q % 64;
      var q3, q2 := p / 64, p % 64;
      assert cp / 4096 == p;
      assert cp / 262144 == q3;
      assert b[0] as int - 0xF0 == q3 && b[1] as int - 0x80 == q2;
      assert b[2] as int - 0x80 == q1 && b[3] as int - 0x80 == r;
    }
  }

  /** A byte sequence that decodes to `c` is exactly `c`'s encoding: the decoder
      accepts no second spelling of a character. */
  lemma EncodeDecodeChar(b: seq<byte>, c: char)
    requires IsGroup(b)
    requires DecodeChar(b) == Some(c)
    ensures EncodeChar(c) == b
  {
    var cp := c as int;
    if |b| == 2 {
      DivMod64(cp, b[0] as int - 0xC0, b[1] as int - 0x80);
    } else if |b| == 3 {
      var x0, x1, x2 := b[0] as int - 0xE0, b[1] as int - 0x80, b[2] as int - 0x80;
      DivMod64(cp, x0 * 64 + x1, x2);
      DivMod64(cp / 64, x0, x1);
      DivMod4096(cp, x0, x1 * 64 + x2);
    } else if |b| == 4 {
      var x0, x1, x2, x3 := b[0] as int - 0xF0, b[1] as int - 0x80, b[2] as int - 0x80, b[3] as int - 0x80;
      DivMod64(cp, x0 * 4096 + x1 * 64 + x2, x3);
      DivMod64(cp / 64, x0 * 64 + x1, x2);
      DivMod4096(cp, x0 * 64 + x1, x2 * 64 + x3);
      DivMod64(cp / 4096, x0, x1);
      assert cp / 262144 == x0;
    }
  }

  /** Encoding distributes over concatenation, so the bytes of a `format!` result
      are the bytes of its pieces in order. */
  lemma {:induction false} EncodeAppend(a: string, b: string)
    ensures Encode(a + b) == Encode(a) + Encode(b)
  {
    if a == [] {
      assert a + b == b;
    } else {
      assert (a + b)[0] == a[0] && (a + b)[1..] == a[1..] + b;
      EncodeAppend(a[1..], b);
    }
  }

  /** Round trip: every string's encoding is valid UTF-8 and decodes to it. */
  lemma {:induction false} DecodeEncode(s: string)
    ensures Decode(Encode(s)) == Some(s)
  {
    if s != [] {
      var head, b := EncodeChar(s[0]), Encode(s);
      var n := |head|;
      assert b == head + Encode(s[1..]);
      assert b[..n] == head && b[n..] == Encode(s[1..]);
      assert SequenceLength(b[0]) == n;
      DecodeEncodeChar(s[0]);
      DecodeEncode(s[1..]);
      assert [s[0]] + s[1..] == s;
    }
  }

  /** The decoder is exact: whatever it accepts is the encoding of what it returns. */
  lemma {:induction false} EncodeDecode(b: seq<byte>, s: string)
    requires Decode(b) == Some(s)
    ensures Encode(s) == b
    decreases |b|
  {
    if b != [] {
      var n := SequenceLength(b[0]);
      var c := DecodeChar(b[..n]).value;
      var rest := Decode(b[n..]).value;
      assert s == [c] + rest;
      EncodeDecodeChar(b[..n], c);
      EncodeDecode(b[n..], rest);
      assert s[0] == c && s[1..] == rest;
      assert b == b[..n] + b[n..];
    }
  }

  /** Every character below U+0080. */
  predicate IsAscii(s: string) {
    forall i :: 0 <= i < |s| ==> s[i] as int < 0x80
  }

  /** One byte per character: the bytes of an ASCII literal. */
  function Ascii(s: string): (r: seq<byte>)
    requires IsAscii(s)
    ensures |r| == |s|
    ensures forall i :: 0 <= i < |s| ==> r[i] as int == s[i] as int
  {
    seq(|s|, i requires 0 <= i < |s| => s[i] as int as byte)
  }

  /** An ASCII string's UTF-8 encoding is its ASCII bytes. */
  lemma {:induction false} EncodeAscii(s: string)
    requires IsAscii(s)
    ensures Encode(s) == Ascii(s)
  {
    if s != [] {
      EncodeAscii(s[1..]);
      assert Ascii(s) == [s[0] as int as byte] + Ascii(s[1..]);
    }
  }

  /** The byte length `String::len()` reports equals the character count exactly
      when the text is ASCII; every other character takes two to four bytes. */
  lemma {:induction false} ByteLengthIsCharCountIffAscii(s: string)
    ensures |Encode(s)| == |s| <==> IsAscii(s)
  {
    if s != [] {
      ByteLengthIsCharCountIffAscii(s[1..]);
      assert Encode(s) == EncodeChar(s[0]) + Encode(s[1..]);
      if IsAscii(s[1..]) && s[0] as int < 0x80 {
        forall i | 0 <= i < |s| ensures s[i] as int < 0x80 {
          if i > 0 { assert s[i] == s[1..][i - 1]; }
        }
      }
      if IsAscii(s) {
        assert forall i :: 0 <= i < |s| - 1 ==> s[1..][i] == s[i + 1];
      }
    }
  }

  lemma DivMod64(x: int, q: int, r: int)
    requires x == q * 64 + r && 0 <= r < 64
    ensures x / 64 == q && x % 64 == r
  {
  }

  lemma DivMod4096(x: int, q: int, r: int)
    requires x == q * 4096 + r && 0 <= r < 4096
    ensures x / 4096 == q && x % 4096 == r
  {
  }
}
