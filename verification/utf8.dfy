/**
 * UTF-8 as Rust's `String` uses it: `read_to_string` accepts exactly the
 * well-formed byte sequences of Table 3-7 of the Unicode Standard
 * (section 4 of RFC 3629), and `str::as_bytes` yields the UTF-8 encoding
 * of the string's characters.
 */
module Utf8 {
  import opened Bytes

  predicate IsContinuation(b: byte) {
    0x80 <= b <= 0xBF
  }

  /** Length of the well-formed sequence that starts `s`, or 0 when the head of `s` is ill-formed. */
  function HeadLength(s: bytes): (n: nat)
    ensures n <= |s| && n <= 4
    ensures n > 0 ==> |s| > 0
  {
    if |s| == 0 then 0
    else
      var b0 := s[0];
      if b0 <= 0x7F then 1
      else if 0xC2 <= b0 <= 0xDF then
        if |s| >= 2 && IsContinuation(s[1]) then 2 else 0
      else if 0xE0 <= b0 <= 0xEF then
        var lo: byte := if b0 == 0xE0 then 0xA0 else 0x80;
        var hi: byte := if b0 == 0xED then 0x9F else 0xBF;
        if |s| >= 3 && lo <= s[1] <= hi && IsContinuation(s[2]) then 3 else 0
      else if 0xF0 <= b0 <= 0xF4 then
        var lo: byte := if b0 == 0xF0 then 0x90 else 0x80;
        var hi: byte := if b0 == 0xF4 then 0x8F else 0xBF;
        if |s| >= 4 && lo <= s[1] <= hi && IsContinuation(s[2]) && IsContinuation(s[3]) then 4 else 0
      else 0
  }

  /** The byte strings `read_to_string` accepts: a sequence of well-formed code-unit sequences. */
  predicate Valid(s: bytes)
    decreases |s|
  {
    |s| == 0 || (HeadLength(s) > 0 && Valid(s[HeadLength(s)..]))
  }

  /** The UTF-8 encoding of one Unicode scalar value. */
  function EncodeChar(c: char): (r: bytes)
    ensures 1 <= |r| <= 4
    ensures HeadLength(r) == |r|
    ensures |r| == 1 <==> c as int < 0x80
    ensures |r| == 1 ==> r[0] as int == c as int
  {
    var v := c as int;
    if v < 0x80 then
      [v as byte]
    else if v < 0x800 then
      [(0xC0 + v / 0x40) as byte, (0x80 + v % 0x40) as byte]
    else if v < 0x1_0000 then
      [(0xE0 + v / 0x1000) as byte, (0x80 + (v / 0x40) % 0x40) as byte, (0x80 + v % 0x40) as byte]
    else
      [(0xF0 + v / 0x4_0000) as byte, (0x80 + (v / 0x1000) % 0x40) as byte,
       (0x80 + (v / 0x40) % 0x40) as byte, (0x80 + v % 0x40) as byte]
  }

  /** `str::as_bytes`: the encodings of the characters, in order. */
  function AsBytes(s: string): bytes
  {
    if |s| == 0 then [] else EncodeChar(s[0]) + AsBytes(s[1..])
  }

  predicate IsAscii(s: string) {
    forall i :: 0 <= i < |s| ==> s[i] as int < 0x80
  }

  lemma {:induction false} AsBytesAppend(a: string, b: string)
    ensures AsBytes(a + b) == AsBytes(a) + AsBytes(b)
    decreases |a|
  {
    if |a| > 0 {
      assert (a + b)[1..] == a[1..] + b;
      AsBytesAppend(a[1..], b);
    } else {
      assert a + b == b;
    }
  }

  /** The character codes of an ASCII string, one byte each. */
  function AsciiCodes(s: string): (r: bytes)
    requires IsAscii(s)
  {
    seq(|s|, i requires 0 <= i < |s| => s[i] as int as byte)
  }

  /** For an ASCII string, `as_bytes` is the sequence of character codes. */
  lemma AsciiBytes(s: string)
    requires IsAscii(s)
    ensures AsBytes(s) == AsciiCodes(s)
  {
    AsBytesLength(s);
  }

  /** The head sequence of `s` is found again at the head of any extension of `s`. */
  lemma HeadLengthExtends(s: bytes, t: bytes)
    requires HeadLength(s) > 0
    ensures HeadLength(s + t) == HeadLength(s)
  {
    var st := s + t;
    assert forall i :: 0 <= i < |s| ==> st[i] == s[i];
  }

  /** Every string's bytes are accepted back by `read_to_string`. */
  lemma {:induction false} AsBytesValid(s: string)
    ensures Valid(AsBytes(s))
    decreases |s|
  {
    if |s| > 0 {
      var head := EncodeChar(s[0]);
      var rest := AsBytes(s[1..]);
      HeadLengthExtends(head, rest);
      assert (head + rest)[|head|..] == rest;
      AsBytesValid(s[1..]);
    }
  }

  /** Splitting by 0x40, the six payload bits of a continuation byte. */
  lemma Split6(q: int, r: int)
    requires 0 <= q && 0 <= r < 0x40
    ensures (q * 0x40 + r) / 0x40 == q && (q * 0x40 + r) % 0x40 == r
  {
  }

  lemma Split12(q: int, r: int)
    requires 0 <= q && 0 <= r < 0x1000
    ensures (q * 0x1000 + r) / 0x1000 == q && (q * 0x1000 + r) % 0x1000 == r
  {
  }

  lemma Split18(q: int, r: int)
    requires 0 <= q && 0 <= r < 0x4_0000
    ensures (q * 0x4_0000 + r) / 0x4_0000 == q && (q * 0x4_0000 + r) % 0x4_0000 == r
  {
  }

  function DecodeTwo(b0: byte, b1: byte): (c: char)
    requires 0xC2 <= b0 <= 0xDF && IsContinuation(b1)
    ensures EncodeChar(c) == [b0, b1]
  {
    var x, y := b0 as int - 0xC0, b1 as int - 0x80;
    Split6(x, y);
    (x * 0x40 + y) as char
  }

  function DecodeThree(b0: byte, b1: byte, b2: byte): (c: char)
    requires 0xE0 <= b0 <= 0xEF && IsContinuation(b2)
    requires (if b0 == 0xE0 then 0xA0 else 0x80) <= b1 <= (if b0 == 0xED then 0x9F else 0xBF)
    ensures EncodeChar(c) == [b0, b1, b2]
  {
    var x, y, z := b0 as int - 0xE0, b1 as int - 0x80, b2 as int - 0x80;
    Split12(x, y * 0x40 + z);
    Split6(x * 0x40 + y, z);
    Split6(x, y);
    (x * 0x1000 + y * 0x40 + z) as char
  }

  function DecodeFour(b0: byte, b1: byte, b2: byte, b3: byte): (c: char)
    requires 0xF0 <= b0 <= 0xF4 && IsContinuation(b2) && IsContinuation(b3)
    requires (if b0 == 0xF0 then 0x90 else 0x80) <= b1 <= (if b0 == 0xF4 then 0x8F else 0xBF)
    ensures EncodeChar(c) == [b0, b1, b2, b3]
  {
    var w, x, y, z := b0 as int - 0xF0, b1 as int - 0x80, b2 as int - 0x80, b3 as int - 0x80;
    Split18(w, x * 0x1000 + y * 0x40 + z);
    Split12(w * 0x40 + x, y * 0x40 + z);
    Split6(w * 0x40 + x, y);
    Split6(w * 0x1000 + x * 0x40 + y, z);
    (w * 0x4_0000 + x * 0x1000 + y * 0x40 + z) as char
  }

  /** The scalar value whose encoding heads `b`: the inverse of `EncodeChar` on well-formed sequences. */
  function DecodeHead(b: bytes): (c: char)
    requires HeadLength(b) > 0
    ensures EncodeChar(c) == b[..HeadLength(b)]
  {
    var n := HeadLength(b);
    if n == 1 then
      b[0] as int as char
    else if n == 2 then
      DecodeTwo(b[0], b[1])
    else if n == 3 then
      DecodeThree(b[0], b[1], b[2])
    else
      DecodeFour(b[0], b[1], b[2], b[3])
  }

  /** The string `read_to_string` builds from bytes it accepts: its `as_bytes` are exactly those bytes. */
  function Decode(b: bytes): (s: string)
    requires Valid(b)
    ensures AsBytes(s) == b
    decreases |b|
  {
    if |b| == 0 then ""
    else
      var n := HeadLength(b);
      var c := DecodeHead(b);
      var rest := Decode(b[n..]);
      assert ([c] + rest)[1..] == rest;
      assert b[..n] + b[n..] == b;
      [c] + rest
  }

  /** `read_to_string` accepts a byte string exactly when it is the encoding of some string. */
  lemma ValidIsEncoding(b: bytes)
    ensures Valid(b) <==> exists s :: AsBytes(s) == b
  {
    if Valid(b) {
      var s := Decode(b);
      assert AsBytes(s) == b;
    }
    if exists s :: AsBytes(s) == b {
      var s :| AsBytes(s) == b;
      AsBytesValid(s);
      assert Valid(b);
    }
  }

  /**
   * Ill-formed input is refused: a lone continuation byte, an overlong two-byte
   * lead, a surrogate, a value above U+10FFFF and a truncated sequence.
   */
  lemma RejectsIllFormed()
    ensures !Valid([0x80])
    ensures !Valid([0xC0, 0x80])
    ensures !Valid([0xED, 0xA0, 0x80])
    ensures !Valid([0xF4, 0x90, 0x80, 0x80])
    ensures !Valid([0xE2, 0x82])
  {
  }

  /**
   * A string of ASCII characters has one byte per character, each equal to the
   * character's code; a string holding any other character has more bytes than characters.
   */
  lemma {:induction false} AsBytesLength(s: string)
    ensures |AsBytes(s)| >= |s|
    ensures IsAscii(s) <==> |AsBytes(s)| == |s|
    ensures IsAscii(s) ==> forall i :: 0 <= i < |s| ==> AsBytes(s)[i] as int == s[i] as int
    decreases |s|
  {
    if |s| > 0 {
      AsBytesLength(s[1..]);
      assert IsAscii(s) <==> s[0] as int < 0x80 && IsAscii(s[1..]) by {
        if IsAscii(s[1..]) && s[0] as int < 0x80 {
          forall i | 0 <= i < |s| ensures s[i] as int < 0x80 {
            if i > 0 { assert s[i] == s[1..][i - 1]; }
          }
        }
      }
      if IsAscii(s) {
        var r := AsBytes(s);
        forall i | 0 <= i < |s| ensures r[i] as int == s[i] as int {
          if i > 0 { assert r[i] == AsBytes(s[1..])[i - 1]; assert s[i] == s[1..][i - 1]; }
        }
      }
    }
  }
}
