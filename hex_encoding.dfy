/**
  `CoreUtils.toHex`: lowercase hexadecimal encoding of a Java `byte[]`,
  two characters per byte, high nibble first.

  `Hex` is the specification of the encoding, `ToHex` the loop of the
  source proved against it, and `Unhex` an independent decoder used to
  show that the encoding loses nothing.
 */
module HexEncoding {
  import opened JavaLang

  // ---------------------------------------------------------------------
  // Java's bit operators on an int, written out.
  // ---------------------------------------------------------------------

  /** Java `x >> 4`: arithmetic shift, i.e. floor division by 16 (Dafny's `/` floors for a positive divisor). */
  function ShiftRight4(x: int): int {
    x / 16
  }

  /** Java `x & 0xf` on a two's-complement int: the residue of `x` modulo 16, never negative. */
  function Mask0xf(x: int): (r: int)
    ensures 0 <= r < 16
  {
    x % 16
  }

  /** The nibble `toHex` writes first for byte `b`: `(b >> 4) & 0xf`, with `b` sign-extended. */
  function HighNibble(b: Byte): int {
    Mask0xf(ShiftRight4(b))
  }

  /** The nibble `toHex` writes second for byte `b`: `b & 0xf`. */
  function LowNibble(b: Byte): int {
    Mask0xf(b)
  }

  /** The byte the cast `(byte) (16 * hi + lo)` yields: the two's-complement reading of 8 bits. */
  function FromNibbles(hi: int, lo: int): Byte
    requires 0 <= hi < 16 && 0 <= lo < 16
  {
    var u := 16 * hi + lo;
    if u < 128 then u else u - 256
  }

  /** Character for a nibble: `c + '0'` when `c <= 9`, else `(c - 10) + 'a'`. */
  function NibbleChar(c: int): char
    requires 0 <= c < 16
  {
    if c > 9 then ((c - 10) + 'a' as int) as char else (c + '0' as int) as char
  }

  predicate IsLowerHexDigit(ch: char) {
    '0' <= ch <= '9' || 'a' <= ch <= 'f'
  }

  /** Value of a lowercase hexadecimal digit; anything else (an upper-case digit included) has none. */
  function DigitValue(ch: char): Option<int> {
    if '0' <= ch <= '9' then Some(ch as int - '0' as int)
    else if 'a' <= ch <= 'f' then Some(ch as int - 'a' as int + 10)
    else None
  }

  /** The two characters `toHex` appends for one byte. */
  function ByteHex(b: Byte): string {
    [NibbleChar(HighNibble(b)), NibbleChar(LowNibble(b))]
  }

  /** Specification of `toHex`: the bytes' pairs of characters, in input order. */
  function Hex(bytes: seq<Byte>): string {
    if |bytes| == 0 then "" else Hex(bytes[..|bytes| - 1]) + ByteHex(bytes[|bytes| - 1])
  }

  /** Decoder: reads pairs of lowercase digits back into bytes; odd length or any other character fails. */
  function Unhex(s: string): Option<seq<Byte>>
    decreases |s|
  {
    if |s| == 0 then Some([])
    else if |s| == 1 then None
    else
      match (Unhex(s[..|s| - 2]), DigitValue(s[|s| - 2]), DigitValue(s[|s| - 1]))
      case (Some(init), Some(hi), Some(lo)) =>
        if 0 <= hi < 16 && 0 <= lo < 16 then Some(init + [FromNibbles(hi, lo)]) else None
      case _ => None
  }

  // ---------------------------------------------------------------------
  // The loop of the source.
  // ---------------------------------------------------------------------

  /** `toHex`: walks the array once and appends the high- then the low-nibble character of each byte. */
  method ToHex(bytes: array<Byte>) returns (hex: string)
    ensures hex == Hex(bytes[..])
  {
    var sb: string := "";
    var i := 0;
    while i < bytes.Length
      invariant 0 <= i <= bytes.Length
      invariant sb == Hex(bytes[..i])
    {
      var b := bytes[i];
      // top 4 bits
      var c: char := Mask0xf(ShiftRight4(b)) as char;
      if c as int > 9 { c := ((c as int - 10) + 'a' as int) as char; } else { c := (c as int + '0' as int) as char; }
      sb := sb + [c];
      // bottom 4 bits
      c := Mask0xf(b) as char;
      if c as int > 9 { c := ((c as int - 10) + 'a' as int) as char; } else { c := (c as int + '0' as int) as char; }
      sb := sb + [c];
      assert bytes[..i + 1][..i] == bytes[..i];
      i := i + 1;
    }
    assert bytes[..i] == bytes[..];
    hex := sb;
  }

  // ---------------------------------------------------------------------
  // Properties of the encoding.
  // ---------------------------------------------------------------------

  /** Each output character is a lowercase hexadecimal digit, and nibble values map to distinct characters. */
  lemma NibbleCharDigit(c: int)
    requires 0 <= c < 16
    ensures IsLowerHexDigit(NibbleChar(c))
    ensures DigitValue(NibbleChar(c)) == Some(c)
  {
  }

  /** Reading a lowercase digit's value and writing it back gives the same digit. */
  lemma DigitValueChar(ch: char)
    requires IsLowerHexDigit(ch)
    ensures DigitValue(ch).Some? && 0 <= DigitValue(ch).value < 16
    ensures NibbleChar(DigitValue(ch).value) == ch
  {
  }

  /** A character has a digit value exactly when it is a lowercase hexadecimal digit. */
  lemma DigitValueDefined(ch: char)
    ensures DigitValue(ch).Some? <==> IsLowerHexDigit(ch)
  {
  }

  /**
    The two nibbles of a signed byte are the two hexadecimal digits of its
    unsigned value `b & 0xff`, so even a negative byte is written as two
    digits in 0..f, and the nibbles determine the byte.
   */
  lemma NibblesOfByte(b: Byte)
    ensures 16 * HighNibble(b) + LowNibble(b) == (if b < 0 then b + 256 else b)
    ensures FromNibbles(HighNibble(b), LowNibble(b)) == b
  {
    var u := if b < 0 then b + 256 else b;
    var q, r := u / 16, u % 16;
    assert 0 <= q < 16;
    if b < 0 {
      assert b == 16 * (q - 16) + r;
      DivMod16(q - 16, r);
      DivMod16(-1, q);
    } else {
      assert b == 16 * q + r;
      DivMod16(q, r);
      DivMod16(0, q);
    }
    assert HighNibble(b) == q && LowNibble(b) == r;
  }

  /** Division and remainder by 16 invert `16 * q + r` for a digit `r`. */
  lemma DivMod16(q: int, r: int)
    requires 0 <= r < 16
    ensures (16 * q + r) / 16 == q && (16 * q + r) % 16 == r
  {
  }

  /** Conversely, the byte built from two nibbles has exactly those nibbles. */
  lemma FromNibblesNibbles(hi: int, lo: int)
    requires 0 <= hi < 16 && 0 <= lo < 16
    ensures HighNibble(FromNibbles(hi, lo)) == hi && LowNibble(FromNibbles(hi, lo)) == lo
  {
    var b := FromNibbles(hi, lo);
    if 16 * hi + lo < 128 {
      DivMod16(hi, lo);
    } else {
      DivMod16(hi - 16, lo);
      assert b == 16 * (hi - 16) + lo;
      DivMod16(b / 16, hi);
      assert ShiftRight4(b) == hi - 16;
      assert (hi - 16) % 16 == hi by { DivMod16(-1, hi); }
    }
  }

  /** The output has exactly two characters per input byte. */
  lemma {:induction false} HexLength(bytes: seq<Byte>)
    ensures |Hex(bytes)| == 2 * |bytes|
  {
    if |bytes| > 0 {
      HexLength(bytes[..|bytes| - 1]);
    }
  }

  /** Characters `2i` and `2i+1` encode the high and the low nibble of byte `i`. */
  lemma {:induction false} HexAt(bytes: seq<Byte>, i: int)
    requires 0 <= i < |bytes|
    ensures |Hex(bytes)| == 2 * |bytes|
    ensures Hex(bytes)[2 * i] == NibbleChar(HighNibble(bytes[i]))
    ensures Hex(bytes)[2 * i + 1] == NibbleChar(LowNibble(bytes[i]))
  {
    HexLength(bytes);
    var init := bytes[..|bytes| - 1];
    HexLength(init);
    if i < |bytes| - 1 {
      HexAt(init, i);
    }
  }

  /** Every character of the output is in '0'..'9' or 'a'..'f' (lowercase only). */
  lemma HexAlphabet(bytes: seq<Byte>)
    ensures forall k :: 0 <= k < |Hex(bytes)| ==> IsLowerHexDigit(Hex(bytes)[k])
  {
    HexLength(bytes);
    forall k | 0 <= k < |Hex(bytes)|
      ensures IsLowerHexDigit(Hex(bytes)[k])
    {
      HexAt(bytes, k / 2);
      NibbleCharDigit(HighNibble(bytes[k / 2]));
      NibbleCharDigit(LowNibble(bytes[k / 2]));
    }
  }

  /** Bytes are encoded in input order: encoding a concatenation concatenates the encodings. */
  lemma {:induction false} HexConcat(a: seq<Byte>, b: seq<Byte>)
    ensures Hex(a + b) == Hex(a) + Hex(b)
  {
    if |b| == 0 {
      assert a + b == a;
    } else {
      var b' := b[..|b| - 1];
      assert (a + b)[..|a + b| - 1] == a + b';
      HexConcat(a, b');
    }
  }

  /** Decoding the output of the encoder gives back the bytes. */
  lemma {:induction false} UnhexHex(bytes: seq<Byte>)
    ensures Unhex(Hex(bytes)) == Some(bytes)
  {
    if |bytes| > 0 {
      var init, b := bytes[..|bytes| - 1], bytes[|bytes| - 1];
      var s := Hex(bytes);
      HexLength(init);
      assert s[..|s| - 2] == Hex(init);
      UnhexHex(init);
      NibbleCharDigit(HighNibble(b));
      NibbleCharDigit(LowNibble(b));
      NibblesOfByte(b);
      assert init + [b] == bytes;
    }
  }

  /** Whatever the decoder accepts is exactly the encoding of what it returns. */
  lemma {:induction false} HexUnhex(s: string)
    requires Unhex(s).Some?
    ensures Hex(Unhex(s).value) == s
  {
    if |s| > 0 {
      var front, c1, c2 := UnhexStep(s);
      var b := FromNibbles(DigitValue(c1).value, DigitValue(c2).value);
      HexUnhex(front);
      ByteHexOfDigits(c1, c2);
      HexSnoc(Unhex(front).value, b);
    }
  }

  /** One step of the decoder on a non-empty text: the text before the last two digits decodes, and the last two give one byte. */
  lemma UnhexStep(s: string) returns (front: string, c1: char, c2: char)
    requires |s| > 0 && Unhex(s).Some?
    ensures s == front + [c1, c2]
    ensures DigitValue(c1).Some? && DigitValue(c2).Some?
    ensures 0 <= DigitValue(c1).value < 16 && 0 <= DigitValue(c2).value < 16
    ensures Unhex(front).Some?
    ensures Unhex(s).value == Unhex(front).value + [FromNibbles(DigitValue(c1).value, DigitValue(c2).value)]
  {
    front, c1, c2 := s[..|s| - 2], s[|s| - 2], s[|s| - 1];
    assert s == front + [c1, c2];
  }

  /** One more byte appends its two characters. */
  lemma HexSnoc(bytes: seq<Byte>, b: Byte)
    ensures Hex(bytes + [b]) == Hex(bytes) + ByteHex(b)
  {
    assert (bytes + [b])[..|bytes|] == bytes;
  }

  /** Two lowercase digits are the two characters written for the byte they denote. */
  lemma ByteHexOfDigits(c1: char, c2: char)
    requires DigitValue(c1).Some? && DigitValue(c2).Some?
    ensures 0 <= DigitValue(c1).value < 16 && 0 <= DigitValue(c2).value < 16
    ensures ByteHex(FromNibbles(DigitValue(c1).value, DigitValue(c2).value)) == [c1, c2]
  {
    DigitValueDefined(c1);
    DigitValueDefined(c2);
    DigitValueChar(c1);
    DigitValueChar(c2);
    FromNibblesNibbles(DigitValue(c1).value, DigitValue(c2).value);
  }

  /** The encoding is injective: different byte arrays never give the same text. */
  lemma HexInjective(a: seq<Byte>, b: seq<Byte>)
    requires Hex(a) == Hex(b)
    ensures a == b
  {
    UnhexHex(a);
    UnhexHex(b);
  }

  /** The texts the encoder can produce are exactly the even-length strings of lowercase hexadecimal digits. */
  lemma {:induction false} UnhexDefined(s: string)
    ensures Unhex(s).Some? <==> |s| % 2 == 0 && forall k :: 0 <= k < |s| ==> IsLowerHexDigit(s[k])
  {
    if |s| >= 2 {
      var front := s[..|s| - 2];
      UnhexDefined(front);
      DigitValueDefined(s[|s| - 2]);
      DigitValueDefined(s[|s| - 1]);
      if Unhex(s).Some? {
        DigitValueChar(s[|s| - 2]);
        DigitValueChar(s[|s| - 1]);
        forall k | 0 <= k < |s| ensures IsLowerHexDigit(s[k]) {
          if k < |s| - 2 { assert s[k] == front[k]; }
        }
      }
    } else if |s| == 1 {
      assert Unhex(s).None?;
    }
  }
}
