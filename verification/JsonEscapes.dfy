/** What the escapes of section 7 of RFC 8259 stand for: every spelling of a code point decodes to its UTF-8 bytes. */
module JsonEscapes {
  import opened Bytes
  import opened Utf8
  import opened Json
  import opened JsonString

  /** The digit with this value, in either letter case. */
  predicate DigitOf(c: byte, value: nat)
    requires value < 16
  {
    c == Ascii("0123456789abcdef")[value] || c == Ascii("0123456789ABCDEF")[value]
  }

  lemma DigitReads(c: byte, value: nat)
    requires value < 16
    ensures DigitOf(c, value) <==> IsHex(c) && HexDigit(c) == value
  {
    var lower, upper := "0123456789abcdef", "0123456789ABCDEF";
    if value < 10 {
      assert lower[value] as int == 0x30 + value && upper[value] as int == 0x30 + value;
    } else {
      assert lower[value] as int == 0x61 + value - 10 && upper[value] as int == 0x41 + value - 10;
    }
  }

  /** Four digits that spell a number below 65536, the first one worth the most. */
  predicate Spells(h: seq<byte>, v: nat)
  {
    && |h| == 4 && v < 0x1_0000
    && DigitOf(h[0], v / 0x1000) && DigitOf(h[1], v / 0x100 % 16) && DigitOf(h[2], v / 16 % 16) && DigitOf(h[3], v % 16)
  }

  /** The four digits are read as the number they spell. */
  lemma QuadReads(h: seq<byte>, v: nat)
    requires Spells(h, v)
    ensures Scannable(Hex(h)) && Quad(h, 0) == v
  {
    hide DigitOf;
    DigitReads(h[0], v / 0x1000);
    DigitReads(h[1], v / 0x100 % 16);
    DigitReads(h[2], v / 16 % 16);
    DigitReads(h[3], v % 16);
    hide HexDigit, IsHex;
    Digits(v);
  }

  lemma Digits(v: nat)
    requires v < 0x1_0000
    ensures ((v / 0x1000 * 16 + v / 0x100 % 16) * 16 + v / 16 % 16) * 16 + v % 16 == v
  {
    var a := v / 16;
    var b := a / 16;
    assert b == v / 0x100 && b / 16 == v / 0x1000 && a % 16 == v / 16 % 16;
    assert v == 16 * a + v % 16 && a == 16 * b + a % 16 && b == 16 * (b / 16) + b % 16;
  }

  /** The two halves of a code point beyond the first plane, as UTF-16 writes it. */
  function High(c: CodePoint): nat
    requires c >= 0x1_0000
  {
    0xD800 + (c - 0x1_0000) / 0x400
  }

  function Low(c: CodePoint): nat
    requires c >= 0x1_0000
  {
    0xDC00 + (c - 0x1_0000) % 0x400
  }

  lemma HalvesCombine(c: CodePoint)
    requires c >= 0x1_0000
    ensures IsHigh(High(c)) && IsLow(Low(c)) && Combine(High(c), Low(c)) == c
  {
  }

  /** The units begin with a spelling of the code point: one escape in the first plane, two beyond it. */
  predicate Writes(us: seq<Unit>, c: CodePoint)
  {
    if c < 0x1_0000 then |us| >= 1 && us[0].Hex? && Spells(us[0].h, c)
    else |us| >= 2 && us[0].Hex? && us[1].Hex? && Spells(us[0].h, High(c)) && Spells(us[1].h, Low(c))
  }

  function Length(c: CodePoint): nat { if c < 0x1_0000 then 1 else 2 }

  /** Every escaped code point that is not a surrogate means its UTF-8 bytes, whatever follows. */
  lemma EscapeMeans(us: seq<Unit>, c: CodePoint)
    requires AllScannable(us) && Esc(0) !in us && Writes(us, c) && !IsSurrogate(c)
    ensures Meaning(us) == Encode(c) + Meaning(us[Length(c)..])
  {
    hide Spells, Quad, Combine, Encode, Scannable;
    if c < 0x1_0000 {
      QuadReads(us[0].h, c);
    } else {
      QuadReads(us[0].h, High(c));
      QuadReads(us[1].h, Low(c));
      HalvesCombine(c);
      assert us[1..][1..] == us[2..];
    }
  }

  /** A half that is not part of a pair means the replacement character. */
  lemma HalfMeans(us: seq<Unit>, half: nat)
    requires AllScannable(us) && Esc(0) !in us && us != [] && us[0].Hex? && Spells(us[0].h, half)
    requires 0xD800 <= half <= 0xDFFF
    requires half <= 0xDBFF && |us| > 1 && us[1].Hex? ==> !IsLow(Quad(us[1].h, 0))
    ensures Meaning(us) == [0xEF, 0xBF, 0xBD] + Meaning(us[1..])
  {
    hide Spells, Combine, Scannable;
    QuadReads(us[0].h, half);
    hide Quad;
    assert Encode(0xFFFD) == [0xEF, 0xBF, 0xBD];
  }

  /** The eight letters behind a backslash and what they stand for. */
  lemma LetterMeans(c: byte, k: nat)
    requires k < 8
    ensures IsEscape(c) && c != 0 <==> c in Ascii("\"\\/bfnrt")
    ensures c == Ascii("\"\\/bfnrt")[k] ==>
              IsEscape(c) && c != 0 && EscapeByte(c) == [0x22, 0x5C, 0x2F, 0x08, 0x0C, 0x0A, 0x0D, 0x09][k]
  {
    var letters := "\"\\/bfnrt";
    assert letters[0] as int == 0x22 && letters[1] as int == 0x5C && letters[2] as int == 0x2F;
    assert letters[3] as int == 0x62 && letters[4] as int == 0x66 && letters[5] as int == 0x6E;
    assert letters[6] as int == 0x72 && letters[7] as int == 0x74;
    var b := Ascii(letters);
    assert b == [0x22, 0x5C, 0x2F, 0x62, 0x66, 0x6E, 0x72, 0x74];
  }

  /** In a text: a literal that consists of one escaped code point is decoded to its UTF-8 bytes. */
  lemma EscapeDecodes(s: seq<byte>, i: nat, end: nat, us: seq<Unit>, c: CodePoint)
    requires i <= end <= |s| && At(s, i, UnitsText(us)) && end == i + |UnitsText(us)|
    requires Writes(us, c) && |us| == Length(c) && !IsSurrogate(c)
    ensures DecodeFrom(s, i, end) == Some(Encode(c))
  {
    hide DecodeFrom, Encode, UnitsText, At, Spells, Scannable;
    if c < 0x1_0000 {
      QuadReads(us[0].h, c);
    } else {
      QuadReads(us[0].h, High(c));
      QuadReads(us[1].h, Low(c));
    }
    DecodeMeaning(s, i, end, us);
    EscapeMeans(us, c);
    assert us[Length(c)..] == [];
    assert Encode(c) + [] == Encode(c);
  }
}
