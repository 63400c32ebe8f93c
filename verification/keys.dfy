/**
 * Key and IV material: the constants `THIS_KEY` and `THIS_IV` right-padded
 * with '0' by `format!("{:0<32}", ..)` and `format!("{:0<16}", ..)`, then
 * taken as bytes.
 */
module KeyMaterial {
  import opened Bytes
  import Utf8

  const ThisKey: string := "passwd"
  const ThisIv: string := "cnzwtzofghrjqkem"

  const KeyWidth: nat := 32
  const IvWidth: nat := 16
  const FillChar: char := '0'

  /** `n` copies of `c`. */
  function Fill(c: char, n: nat): string {
    seq(n, _ => c)
  }

  /**
   * `format!("{:f<w}", s)`: `s` left-aligned in a field of `width`
   * characters (not bytes), the rest filled with `fill`; a string already
   * `width` characters or longer comes back as it is, never truncated.
   */
  function PadRight(s: string, width: nat, fill: char): (r: string)
    ensures |r| == if |s| < width then width else |s|
    ensures r[..|s|] == s
    ensures forall i :: |s| <= i < |r| ==> r[i] == fill
    ensures width <= |s| ==> r == s
  {
    if |s| < width then s + Fill(fill, width - |s|) else s
  }

  /** Padding to a width is idempotent: a padded string is already wide enough. */
  lemma PadRightIdempotent(s: string, width: nat, fill: char)
    ensures PadRight(PadRight(s, width, fill), width, fill) == PadRight(s, width, fill)
  {
  }

  /** The three facts above pin the result down: any string with them is the padding. */
  lemma PadRightUnique(s: string, width: nat, fill: char, r: string)
    requires |r| == if |s| < width then width else |s|
    requires r[..|s|] == s
    requires forall i :: |s| <= i < |r| ==> r[i] == fill
    ensures r == PadRight(s, width, fill)
  {
  }

  /** Padding adds characters, not bytes: a non-ASCII string pads to more bytes than the width. */
  lemma PadRightCountsChars(s: string, width: nat)
    requires |s| < width
    requires !Utf8.IsAscii(s)
    ensures |PadRight(s, width, FillChar)| == width
    ensures |Utf8.AsBytes(PadRight(s, width, FillChar))| > width
  {
    var r := PadRight(s, width, FillChar);
    Utf8.AsBytesLength(r);
    var i :| 0 <= i < |s| && s[i] as int >= 0x80;
    assert r[i] == r[..|s|][i];
  }

  /** The key string: `format!("{:0<32}", THIS_KEY)`. */
  function Key(): (k: string)
    ensures |k| == KeyWidth
    ensures k[..|ThisKey|] == ThisKey
    ensures forall i :: |ThisKey| <= i < |k| ==> k[i] == FillChar
  {
    PadRight(ThisKey, KeyWidth, FillChar)
  }

  /** The IV string: `format!("{:0<16}", THIS_IV)`. */
  function Iv(): (v: string)
    ensures |v| == IvWidth
    ensures v == ThisIv
  {
    PadRight(ThisIv, IvWidth, FillChar)
  }

  lemma ConstantsAreAscii()
    ensures Utf8.IsAscii(ThisKey) && Utf8.IsAscii(ThisIv)
    ensures Utf8.IsAscii(Key()) && Utf8.IsAscii(Iv())
  {
    assert Utf8.IsAscii(ThisKey) by {
      forall i | 0 <= i < |ThisKey| ensures ThisKey[i] as int < 0x80 {
        assert ThisKey[i] in "passwd";
      }
    }
    assert Utf8.IsAscii(ThisIv) by {
      forall i | 0 <= i < |ThisIv| ensures ThisIv[i] as int < 0x80 {
        assert ThisIv[i] in "cnzwtzofghrjqkem";
      }
    }
    AsciiPadding(ThisKey, KeyWidth);
    AsciiPadding(ThisIv, IvWidth);
  }

  /** `key.as_bytes()`: the key is ASCII, so these are its character codes (`KeyBytesDerived`). */
  function KeyBytes(): (b: bytes)
    ensures |b| == KeyWidth
  {
    ConstantsAreAscii();
    Utf8.AsciiCodes(Key())
  }

  /** `iv.as_bytes()`: the IV is ASCII, so these are its character codes (`IvBytesDerived`). */
  function IvBytes(): (b: bytes)
    ensures |b| == IvWidth
  {
    ConstantsAreAscii();
    Utf8.AsciiCodes(Iv())
  }

  /** The key bytes are the UTF-8 encoding of the padded key string. */
  lemma KeyBytesDerived()
    ensures KeyBytes() == Utf8.AsBytes(Key())
  {
    ConstantsAreAscii();
    Utf8.AsciiBytes(Key());
  }

  /** The IV bytes are the UTF-8 encoding of the IV string. */
  lemma IvBytesDerived()
    ensures IvBytes() == Utf8.AsBytes(Iv())
  {
    ConstantsAreAscii();
    Utf8.AsciiBytes(Iv());
  }

  /** The bytes of a string padded with '0' are its own bytes followed by ASCII '0's (0x30). */
  lemma PaddedBytes(s: string, width: nat)
    requires |s| < width
    ensures Utf8.AsBytes(PadRight(s, width, FillChar)) == Utf8.AsBytes(s) + seq(width - |s|, _ => 0x30)
  {
    var f := Fill(FillChar, width - |s|);
    Utf8.AsBytesAppend(s, f);
    Utf8.AsBytesLength(f);
  }

  lemma AsciiPadding(s: string, width: nat)
    requires Utf8.IsAscii(s)
    ensures Utf8.IsAscii(PadRight(s, width, FillChar))
  {
    var r := PadRight(s, width, FillChar);
    forall i | 0 <= i < |r| ensures r[i] as int < 0x80 {
      if i < |s| { assert r[i] == r[..|s|][i]; }
    }
  }

  /**
   * The derived key is "passwd" followed by 26 '0's, 32 characters and 32
   * bytes; the IV constant is already 16 characters and is used unchanged.
   */
  lemma KeyAndIvConstants()
    ensures Key() == ThisKey + Fill('0', 26)
    ensures |Key()| == 32 && Key()[..6] == "passwd"
    ensures Iv() == "cnzwtzofghrjqkem"
    ensures |KeyBytes()| == 32 && |IvBytes()| == 16
    ensures Key() != ThisKey
  {
  }
}
