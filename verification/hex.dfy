/** Hexadecimal text of a byte string, and back. */
module Hex {
  import opened Common

  ghost predicate IsBytes(s: Bytes) {
    forall i :: 0 <= i < |s| ==> 0 <= s[i] < 256
  }

  /** The two hexadecimal digits of each byte, high nibble first, in upper case. */
  function Encoded(s: Bytes): (h: Bytes)
    requires IsBytes(s)
    ensures |h| == 2 * |s|
  {
    if s == [] then [] else [Digit(s[0] / 16), Digit(s[0] % 16)] + Encoded(s[1..])
  }

  function Digit(v: int): int
    requires 0 <= v < 16
  {
    if v < 10 then 48 + v else 65 + (v - 10)
  }

  lemma DigitText(v: int)
    requires 0 <= v < 16
    ensures Digit(v) == "0123456789ABCDEF"[v] as int
  {
  }

  /** Every byte becomes the two digits of its value in base 16. */
  lemma {:induction false} EncodedText(s: Bytes, i: nat)
    requires IsBytes(s) && i < |s|
    ensures Encoded(s)[2 * i] == "0123456789ABCDEF"[s[i] / 16] as int
    ensures Encoded(s)[2 * i + 1] == "0123456789ABCDEF"[s[i] % 16] as int
  {
    hide Digit;
    DigitText(s[0] / 16);
    DigitText(s[0] % 16);
    if i > 0 {
      EncodedText(s[1..], i - 1);
    }
  }

  /** The value of a digit of either case; anything else counts as zero. */
  function Cipher(c: int): (v: int)
    ensures 0 <= v < 16
  {
    if 48 <= c <= 57 then c - 48
    else if 65 <= c <= 70 then c - 65 + 10
    else if 97 <= c <= 102 then c - 97 + 10
    else 0
  }

  /** Pairs of digits, an odd last one ignored. */
  function Decoded(h: Bytes): (s: Bytes)
    ensures IsBytes(s) && |s| == |h| / 2
  {
    if |h| < 2 then [] else [16 * Cipher(h[0]) + Cipher(h[1])] + Decoded(h[2..])
  }

  predicate IsHexDigit(c: int) {
    48 <= c <= 57 || 65 <= c <= 70 || 97 <= c <= 102
  }

  function Upper(h: Bytes): Bytes {
    seq(|h|, i requires 0 <= i < |h| => if 97 <= h[i] <= 122 then h[i] - 32 else h[i])
  }

  /** Decoding the encoding gives back every byte string. */
  lemma {:induction false} DecodeEncode(s: Bytes)
    requires IsBytes(s)
    ensures Decoded(Encoded(s)) == s
  {
    if s != [] {
      DecodeEncode(s[1..]);
      var h := Encoded(s);
      DigitRoundTrip(s[0]);
      assert h[2..] == Encoded(s[1..]);
    }
  }

  lemma DigitRoundTrip(b: int)
    requires 0 <= b < 256
    ensures 16 * Cipher(Digit(b / 16)) + Cipher(Digit(b % 16)) == b
  {
  }

  lemma CipherRoundTrip(high: int, low: int)
    requires IsHexDigit(high) && IsHexDigit(low)
    ensures var b := 16 * Cipher(high) + Cipher(low); [Digit(b / 16), Digit(b % 16)] == Upper([high, low])
  {
    var b := 16 * Cipher(high) + Cipher(low);
    assert b / 16 == Cipher(high) && b % 16 == Cipher(low);
  }

  /** Encoding the decoding of a well-formed text gives its upper-case form. */
  lemma {:induction false} EncodeDecode(h: Bytes)
    requires |h| % 2 == 0 && forall i :: 0 <= i < |h| ==> IsHexDigit(h[i])
    ensures Encoded(Decoded(h)) == Upper(h)
  {
    if h != [] {
      hide Cipher, Digit;
      EncodeDecode(h[2..]);
      CipherRoundTrip(h[0], h[1]);
      var d := Decoded(h);
      assert d[0] == 16 * Cipher(h[0]) + Cipher(h[1]) && d[1..] == Decoded(h[2..]);
      assert Upper(h) == Upper([h[0], h[1]]) + Upper(h[2..]);
    }
  }

  /** A char read as a signed number and kept in 16 bits. */
  function SignExtended(b: int): (u: int)
    requires 0 <= b < 256
    ensures 0 <= u < 65536
  {
    if b < 128 then b else b - 256 + 65536
  }

  /** The sign bits never reach the two nibbles that are printed. */
  lemma NibblesSurvive(b: int)
    requires 0 <= b < 256
    ensures SignExtended(b) % 16 == b % 16 && SignExtended(b) / 16 % 16 == b / 16
  {
    if b >= 128 {
      assert SignExtended(b) == b + 16 * 4080;
      assert SignExtended(b) / 16 == b / 16 + 4080;
      assert b / 16 + 4080 == b / 16 + 16 * 255;
    }
  }

  /** The digit that both branches of the loops print. */
  method PutDigit(out: array<int>, at: nat, cipher: int)
    requires at < out.Length && 0 <= cipher < 16
    modifies out
    ensures out[..] == old(out[..])[at := Digit(cipher)]
  {
    if cipher < 10 {
      out[at] := 48 + cipher;
    } else {
      out[at] := 65 + (cipher - 10);
    }
  }

  /** SR_STRTOHEX. */
  method StrToHex(s: Bytes) returns (out: array<int>)
    requires IsBytes(s)
    ensures out.Length == 2 * |s| + 1 && out[..2 * |s|] == Encoded(s) && out[2 * |s|] == 0
  {
    hide Digit;
    out := new int[2 * |s| + 1];
    for i := 0 to |s|
      invariant IsBytes(s[i..]) && out[..2 * i] + Encoded(s[i..]) == Encoded(s)
    {
      ghost var before := out[..2 * i];
      var num := SignExtended(s[i]);
      NibblesSurvive(s[i]);
      PutDigit(out, 2 * i + 1, num % 16);
      num := num / 16;
      PutDigit(out, 2 * i, num % 16);
      assert s[i..][0] == s[i] && s[i..][1..] == s[i + 1..];
      Grown(before, [out[2 * i], out[2 * i + 1]], Encoded(s[i + 1..]), out[..2 * (i + 1)]);
    }
    out[2 * |s|] := 0;
  }

  lemma Grown(before: Bytes, piece: Bytes, rest: Bytes, now: Bytes)
    requires now == before + piece
    ensures before + (piece + rest) == now + rest
  {
  }

  /** sr_Hex2Str. */
  method Hex2Str(h: Bytes) returns (out: array<int>, size: nat)
    ensures size == |h| / 2 && out.Length == size + 1 && out[..size] == Decoded(h) && out[size] == 0
  {
    hide Cipher;
    size := |h| / 2;
    out := new int[size + 1];
    var p := 0;
    for i := 0 to size
      invariant p == 2 * i && out[..i] + Decoded(h[p..]) == Decoded(h)
    {
      ghost var before, text := out[..i], h[p..];
      var num := Cipher(h[p]);
      p := p + 1;
      num := num * 16 + Cipher(h[p]);
      p := p + 1;
      out[i] := num;
      assert text[0] == h[2 * i] && text[1] == h[2 * i + 1] && text[2..] == h[p..];
      Grown(before, [num], Decoded(h[p..]), out[..i + 1]);
    }
    assert Decoded(h[p..]) == [];
    out[size] := 0;
  }
}
