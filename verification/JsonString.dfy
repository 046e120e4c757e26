/** String literals: the units they are written in, the scanner that delimits them and the decoder. */
module JsonString {
  import opened Bytes
  import opened Utf8
  import opened Json

  /** One unit of a string literal: a plain byte, a one-letter escape, or a \u escape with its four hex digits. */
  datatype Unit = Raw(b: byte) | Esc(b: byte) | Hex(h: seq<byte>)

  /** The units the scanner lets through. RFC 8259 section 7 allows the same except the escape of a NUL byte. */
  predicate Scannable(u: Unit)
  {
    match u
    case Raw(b) => b >= 0x20 && b != QUOTE && b != BACKSLASH
    case Esc(b) => IsEscape(b)
    case Hex(h) => |h| == 4 && HexQuad(h, 0)
  }

  predicate AllScannable(us: seq<Unit>)
  {
    forall k | 0 <= k < |us| :: Scannable(us[k])
  }

  function UnitText(u: Unit): (t: seq<byte>)
    ensures |t| > 0
  {
    match u
    case Raw(b) => [b]
    case Esc(b) => [BACKSLASH, b]
    case Hex(h) => [BACKSLASH, LETTER_U] + h
  }

  function UnitsText(us: seq<Unit>): seq<byte>
  {
    if us == [] then [] else UnitText(us[0]) + UnitsText(us[1..])
  }

  /** The value of four hex digits. */
  function HexDigit(c: byte): (v: int)
    requires IsHex(c)
    ensures 0 <= v < 16
  {
    if c <= 0x39 then c - 0x30 else if c <= 0x46 then c - 0x41 + 10 else c - 0x61 + 10
  }

  function Quad(s: seq<byte>, i: nat): (v: CodePoint)
    requires i + 4 <= |s| && HexQuad(s, i)
    ensures v <= 0xFFFF
  {
    ((HexDigit(s[i]) * 16 + HexDigit(s[i + 1])) * 16 + HexDigit(s[i + 2])) * 16 + HexDigit(s[i + 3])
  }

  /** The hex digits of a \u unit, where they stand. */
  lemma HexHere(s: seq<byte>, i: nat, h: seq<byte>)
    requires |h| == 4 && HexQuad(h, 0) && At(s, i, [BACKSLASH, LETTER_U] + h)
    ensures s[i] == BACKSLASH && s[i + 1] == LETTER_U && HexQuad(s, i + 2) && Quad(s, i + 2) == Quad(h, 0)
  {
    var t := s[i..i + 6];
    assert t == [BACKSLASH, LETTER_U] + h;
    assert t[0] == s[i] && t[1] == s[i + 1];
    assert t[2] == s[i + 2] && t[3] == s[i + 3] && t[4] == s[i + 4] && t[5] == s[i + 5];
    assert t[2] == h[0] && t[3] == h[1] && t[4] == h[2] && t[5] == h[3];
  }

  lemma UnitHere(s: seq<byte>, i: nat, us: seq<Unit>)
    requires us != [] && AllScannable(us) && At(s, i, UnitsText(us))
    ensures var t := UnitText(us[0]); At(s, i, t) && At(s, i + |t|, UnitsText(us[1..]))
    ensures us[0].Raw? ==> s[i] == us[0].b != BACKSLASH
    ensures us[0].Esc? ==> s[i] == BACKSLASH && s[i + 1] == us[0].b != LETTER_U
    ensures us[0].Hex? ==>
              s[i] == BACKSLASH && s[i + 1] == LETTER_U && HexQuad(s, i + 2) && Quad(s, i + 2) == Quad(us[0].h, 0)
  {
    var t := UnitText(us[0]);
    AtAppend(s, i, t, UnitsText(us[1..]));
    if us[0].Hex? {
      HexHere(s, i, us[0].h);
    } else {
      assert s[i] == s[i..i + |t|][0];
      if us[0].Esc? {
        assert s[i + 1] == s[i..i + |t|][1];
      }
    }
  }

  /** A literal written in scannable units is scanned to its closing quote. */
  lemma {:induction false} ScanComplete(s: seq<byte>, i: nat, end: nat, us: seq<Unit>)
    requires i <= end <= |s| && AllScannable(us)
    requires At(s, i, UnitsText(us)) && i + |UnitsText(us)| < end && s[i + |UnitsText(us)|] == QUOTE
    ensures ScanString(s, i, end) == Some(i + |UnitsText(us)| + 1)
    decreases |us|
  {
    hide *;
    if us == [] {
      ScanQuote(s, i, end);
    } else {
      PassUnit(s, i, end, us);
      ScanComplete(s, i + |UnitText(us[0])|, end, us[1..]);
    }
  }

  lemma ScanQuote(s: seq<byte>, i: nat, end: nat)
    requires i < end <= |s|
    ensures UnitsText([]) == [] && (s[i] == QUOTE ==> ScanString(s, i, end) == Some(i + 1))
  {
  }

  /** The scanner passes one unit. */
  lemma PassUnit(s: seq<byte>, i: nat, end: nat, us: seq<Unit>)
    requires i <= end <= |s| && AllScannable(us) && us != []
    requires At(s, i, UnitsText(us)) && i + |UnitsText(us)| < end
    ensures var t := UnitText(us[0]);
            && AllScannable(us[1..]) && UnitsText(us) == t + UnitsText(us[1..])
            && At(s, i + |t|, UnitsText(us[1..])) && ScanString(s, i, end) == ScanString(s, i + |t|, end)
  {
    UnitHere(s, i, us);
    hide At, Quad, HexDigit;
  }

  lemma UnitsCons(u: Unit, rest: seq<Unit>)
    ensures UnitsText([u] + rest) == UnitText(u) + UnitsText(rest)
  {
    assert ([u] + rest)[1..] == rest;
  }

  /** The unit that the scanner steps over at `i`. */
  lemma ScanStep(s: seq<byte>, i: nat, end: nat) returns (u: Unit, n: nat)
    requires i < end <= |s| && ScanString(s, i, end).Some? && s[i] != QUOTE
    ensures Scannable(u) && 0 < n && i + n <= end && UnitText(u) == s[i..i + n]
    ensures ScanString(s, i + n, end) == ScanString(s, i, end)
  {
    if s[i] != BACKSLASH {
      u, n := Raw(s[i]), 1;
    } else if IsEscape(s[i + 1]) {
      u, n := Esc(s[i + 1]), 2;
    } else {
      u, n := Hex(s[i + 2..i + 6]), 6;
      assert s[i..i + 6] == [s[i], s[i + 1]] + s[i + 2..i + 6];
    }
  }

  lemma ScanStop()
    ensures AllScannable([]) && UnitsText([]) == []
  {
  }

  lemma ScanJoin(s: seq<byte>, i: nat, n: nat, close: nat, u: Unit, rest: seq<Unit>)
    requires i + n <= close <= |s| && Scannable(u) && AllScannable(rest)
    requires UnitText(u) == s[i..i + n] && UnitsText(rest) == s[i + n..close]
    ensures AllScannable([u] + rest) && UnitsText([u] + rest) == s[i..close]
  {
    hide Scannable, UnitText, UnitsText;
    UnitsCons(u, rest);
    assert s[i..close] == s[i..i + n] + s[i + n..close];
  }

  lemma ScanStops(s: seq<byte>, i: nat, end: nat)
    requires i <= end <= |s| && ScanString(s, i, end).Some?
    ensures i < end && i < ScanString(s, i, end).value <= end
    ensures s[i] == QUOTE ==> ScanString(s, i, end) == Some(i + 1)
  {
  }

  /** What the scanner accepts is written in scannable units. */
  lemma {:induction false} ScanSound(s: seq<byte>, i: nat, end: nat, after: nat) returns (us: seq<Unit>)
    requires i <= end <= |s| && ScanString(s, i, end) == Some(after)
    ensures AllScannable(us) && UnitsText(us) == s[i..after - 1]
    decreases end - i
  {
    hide ScanString, AllScannable, UnitsText, Scannable, UnitText;
    ScanStops(s, i, end);
    if s[i] == QUOTE {
      us := [];
      ScanStop();
    } else {
      var u, n := ScanStep(s, i, end);
      var rest := ScanSound(s, i + n, end, after);
      us := [u] + rest;
      ScanJoin(s, i, n, after - 1, u, rest);
    }
  }

  predicate IsHigh(c: CodePoint) { 0xD800 <= c <= 0xDBFF }
  predicate IsLow(c: CodePoint) { 0xDC00 <= c <= 0xDFFF }

  /** The supplementary code point of a surrogate pair. */
  function Combine(high: CodePoint, low: CodePoint): (c: CodePoint)
    requires IsHigh(high) && IsLow(low)
    ensures !IsSurrogate(c) && c >= 0x1_0000
  {
    0x1_0000 + (high - 0xD800) * 0x400 + (low - 0xDC00)
  }

  const REPLACEMENT: CodePoint := 0xFFFD

  function Lone(c: CodePoint): (d: CodePoint)
    ensures !IsSurrogate(d)
    ensures c <= 0xFFFF ==> d <= 0xFFFF
  {
    if IsSurrogate(c) then REPLACEMENT else c
  }

  /** The byte a one-letter escape stands for; a NUL byte is none of the letters. */
  function EscapeByte(c: byte): byte
    requires IsEscape(c) && c != 0
  {
    if c == 0x62 then 0x08 else if c == 0x66 then 0x0C else if c == 0x6E then 0x0A
    else if c == 0x72 then 0x0D else if c == 0x74 then 0x09 else c
  }

  function Prepend(head: seq<byte>, tail: Option<seq<byte>>): Option<seq<byte>>
  {
    if tail.None? then None else Some(head + tail.value)
  }

  /** A high surrogate followed by an escaped low surrogate. */
  predicate PairAt(s: seq<byte>, i: nat, end: nat)
    requires i + 6 <= end <= |s| && HexQuad(s, i + 2)
  {
    && IsHigh(Quad(s, i + 2))
    && end - (i + 6) >= 6 && s[i + 6] == BACKSLASH && s[i + 7] == LETTER_U
    && HexQuad(s, i + 8) && IsLow(Quad(s, i + 8))
  }

  /** The decoding loop of duplicate_retro_vault_json_string between two positions. */
  function DecodeFrom(s: seq<byte>, i: nat, end: nat): (r: Option<seq<byte>>)
    requires i <= end <= |s|
    ensures r.Some? ==> |r.value| <= end - i
    decreases end - i
  {
    if i >= end then Some([])
    else if s[i] != BACKSLASH then Prepend([s[i]], DecodeFrom(s, i + 1, end))
    else if i + 1 >= end then None
    else if IsEscape(s[i + 1]) && s[i + 1] != 0 then Prepend([EscapeByte(s[i + 1])], DecodeFrom(s, i + 2, end))
    else if s[i + 1] != LETTER_U || end - (i + 2) < 4 || !HexQuad(s, i + 2) then None
    else if PairAt(s, i, end) then
      Prepend(Encode(Combine(Quad(s, i + 2), Quad(s, i + 8))), DecodeFrom(s, i + 12, end))
    else Prepend(Encode(Lone(Quad(s, i + 2))), DecodeFrom(s, i + 6, end))
  }

  /** What a literal means, unit by unit: section 7 of RFC 8259 with U+FFFD for every lone surrogate. */
  function Meaning(us: seq<Unit>): (m: seq<byte>)
    requires AllScannable(us) && Esc(0) !in us
    decreases |us|
  {
    if us == [] then []
    else
      match us[0]
      case Raw(b) => [b] + Meaning(us[1..])
      case Esc(b) => [EscapeByte(b)] + Meaning(us[1..])
      case Hex(h) =>
        if IsHigh(Quad(h, 0)) && |us| > 1 && us[1].Hex? && IsLow(Quad(us[1].h, 0))
        then Encode(Combine(Quad(h, 0), Quad(us[1].h, 0))) + Meaning(us[1..][1..])
        else Encode(Lone(Quad(h, 0))) + Meaning(us[1..])
  }

  predicate IsPair(us: seq<Unit>)
    requires AllScannable(us)
  {
    |us| > 1 && us[0].Hex? && us[1].Hex? && IsHigh(Quad(us[0].h, 0)) && IsLow(Quad(us[1].h, 0))
  }

  /** How the sizes of the first unit and the rest add up. */
  lemma UnitSize(us: seq<Unit>)
    requires us != [] && AllScannable(us)
    ensures AllScannable(us[1..]) && |UnitsText(us)| == |UnitText(us[0])| + |UnitsText(us[1..])|
    ensures us[0].Hex? ==> |UnitText(us[0])| == 6
    ensures us[0].Esc? ==> IsEscape(us[0].b)
  {
  }

  lemma DecodePlain(s: seq<byte>, i: nat, end: nat)
    requires i < end <= |s|
    ensures s[i] != BACKSLASH ==> DecodeFrom(s, i, end) == Prepend([s[i]], DecodeFrom(s, i + 1, end))
    ensures s[i] == BACKSLASH && i + 1 < end && IsEscape(s[i + 1]) ==>
              DecodeFrom(s, i, end)
              == if s[i + 1] == 0 then None else Prepend([EscapeByte(s[i + 1])], DecodeFrom(s, i + 2, end))
  {
    hide EscapeByte, Prepend, Encode, HexQuad;
  }

  lemma DecodeHex(s: seq<byte>, i: nat, end: nat)
    requires i + 6 <= end <= |s| && s[i] == BACKSLASH && s[i + 1] == LETTER_U && HexQuad(s, i + 2)
    ensures DecodeFrom(s, i, end)
            == if PairAt(s, i, end) then
                 Prepend(Encode(Combine(Quad(s, i + 2), Quad(s, i + 8))), DecodeFrom(s, i + 12, end))
               else Prepend(Encode(Lone(Quad(s, i + 2))), DecodeFrom(s, i + 6, end))
  {
    hide EscapeByte, Prepend, Encode, HexQuad, Combine, Lone, Quad, PairAt;
  }

  /** The decoder sees a surrogate pair exactly where one is written. */
  lemma PairHere(s: seq<byte>, i: nat, end: nat, us: seq<Unit>)
    requires AllScannable(us) && us != [] && us[0].Hex? && At(s, i, UnitsText(us)) && end == i + |UnitsText(us)|
    ensures i + 6 <= end <= |s| && HexQuad(s, i + 2) && (PairAt(s, i, end) <==> IsPair(us))
    ensures IsPair(us) ==>
              && i + 12 <= end && At(s, i + 12, UnitsText(us[1..][1..])) && HexQuad(s, i + 8)
              && Quad(s, i + 8) == Quad(us[1].h, 0)
  {
    AtFits(s, i, UnitsText(us));
    hide At, HexQuad, Quad, Scannable, UnitsText, IsHigh, IsLow;
    UnitHere(s, i, us);
    UnitSize(us);
    if |us| > 1 {
      UnitHere(s, i + 6, us[1..]);
      UnitSize(us[1..]);
    } else {
      NoUnits(us[1..]);
    }
  }

  lemma AtFits(s: seq<byte>, i: nat, t: seq<byte>)
    requires At(s, i, t)
    ensures i + |t| <= |s|
  {
  }

  lemma NoUnits(us: seq<Unit>)
    requires us == []
    ensures UnitsText(us) == []
  {
  }

  /** How the decoder steps over the first unit, or the first two when they are a surrogate pair. */
  lemma DecodeStep(s: seq<byte>, i: nat, end: nat, us: seq<Unit>)
    requires i <= end <= |s| && AllScannable(us) && us != []
    requires At(s, i, UnitsText(us)) && end == i + |UnitsText(us)|
    ensures i + |UnitText(us[0])| <= end && At(s, i + |UnitText(us[0])|, UnitsText(us[1..]))
    ensures var n := i + |UnitText(us[0])|;
            match us[0]
            case Raw(b) => DecodeFrom(s, i, end) == Prepend([b], DecodeFrom(s, n, end))
            case Esc(b) =>
              DecodeFrom(s, i, end) == if b == 0 then None else Prepend([EscapeByte(b)], DecodeFrom(s, n, end))
            case Hex(h) =>
              if IsPair(us) then
                && n + 6 <= end && At(s, n + 6, UnitsText(us[1..][1..]))
                && DecodeFrom(s, i, end)
                   == Prepend(Encode(Combine(Quad(h, 0), Quad(us[1].h, 0))), DecodeFrom(s, n + 6, end))
              else DecodeFrom(s, i, end) == Prepend(Encode(Lone(Quad(h, 0))), DecodeFrom(s, n, end))
  {
    hide At, HexQuad, Encode, Combine, Lone, EscapeByte, Quad, Scannable, UnitsText, IsEscape, DecodeFrom, PairAt,
         IsPair;
    UnitHere(s, i, us);
    UnitSize(us);
    if us[0].Hex? {
      PairHere(s, i, end, us);
      DecodeHex(s, i, end);
    } else {
      DecodePlain(s, i, end);
    }
  }

  /** Decoding fails exactly on a backslash followed by a NUL byte; otherwise it gives the literal's meaning. */
  lemma {:induction false} DecodeMeaning(s: seq<byte>, i: nat, end: nat, us: seq<Unit>)
    requires i <= end <= |s| && AllScannable(us) && At(s, i, UnitsText(us)) && end == i + |UnitsText(us)|
    ensures DecodeFrom(s, i, end) == if Esc(0) in us then None else Some(Meaning(us))
    decreases |us|
  {
    if us != [] {
      DecodeStep(s, i, end, us);
      NulStep(us);
      var rest := us[1..];
      if IsPair(us) {
        NulStep(rest);
        PairSize(us);
        hide DecodeFrom, At, Quad, Encode, Combine, Lone, AllScannable, UnitText;
        DecodeMeaning(s, i + 12, end, rest[1..]);
      } else {
        hide DecodeFrom, At, Quad, Encode, Combine, Lone, AllScannable, UnitText;
        DecodeMeaning(s, i + |UnitText(us[0])|, end, rest);
      }
    }
  }

  lemma NulStep(us: seq<Unit>)
    requires us != [] && AllScannable(us)
    ensures AllScannable(us[1..]) && UnitsText(us) == UnitText(us[0]) + UnitsText(us[1..])
    ensures Esc(0) in us <==> us[0] == Esc(0) || Esc(0) in us[1..]
  {
    assert us == [us[0]] + us[1..];
  }

  lemma PairSize(us: seq<Unit>)
    requires AllScannable(us) && us != [] && IsPair(us)
    ensures |us| > 1 && us[1].Hex? && |UnitText(us[0])| == 6 && |UnitText(us[1])| == 6
  {
  }

  /** A run of bytes outside ASCII is copied as it stands. */
  lemma {:induction false} RawRun(us: seq<Unit>, n: nat)
    requires AllScannable(us) && Esc(0) !in us && n <= |UnitsText(us)|
    requires forall k | 0 <= k < n :: UnitsText(us)[k] >= 0x80
    ensures n <= |us| && UnitsText(us)[n..] == UnitsText(us[n..])
    ensures AllScannable(us[n..]) && Esc(0) !in us[n..] && Meaning(us) == UnitsText(us)[..n] + Meaning(us[n..])
    decreases n
  {
    hide UnitsText, Meaning, Scannable;
    if n == 0 {
      assert us[0..] == us;
    } else {
      var t := UnitsText(us);
      assert t[0] >= 0x80;
      RawStep(us);
      var rest := us[1..];
      var u := UnitsText(rest);
      assert forall k | 0 <= k < n - 1 :: u[k] == t[k + 1];
      RawRun(rest, n - 1);
      assert rest[n - 1..] == us[n..];
      Shift(us[0].b, u, n - 1, Meaning(us[n..]));
    }
  }

  lemma Shift(b: byte, u: seq<byte>, n: nat, tail: seq<byte>)
    requires n <= |u|
    ensures ([b] + u)[n + 1..] == u[n..]
    ensures [b] + (u[..n] + tail) == ([b] + u)[..n + 1] + tail
  {
  }

  lemma RawStep(us: seq<Unit>)
    requires AllScannable(us) && Esc(0) !in us && UnitsText(us) != [] && UnitsText(us)[0] >= 0x80
    ensures us != [] && us[0].Raw? && UnitsText(us) == [us[0].b] + UnitsText(us[1..])
    ensures Meaning(us) == [us[0].b] + Meaning(us[1..])
  {
    assert UnitsText(us)[0] == UnitText(us[0])[0];
  }

  /** Text written in ASCII is valid UTF-8 and can be taken off the front. */
  lemma {:induction false} AsciiPrefix(t: seq<byte>, n: nat)
    requires n <= |t| && Utf8.Valid(t) && forall k | 0 <= k < n :: t[k] < 0x80
    ensures Utf8.Valid(t[n..])
    decreases n
  {
    if n == 0 {
      assert t[0..] == t;
    } else {
      AsciiPrefix(t[1..], n - 1);
      assert t[1..][n - 1..] == t[n..];
    }
  }

  lemma HexAscii(u: Unit)
    requires Scannable(u) && !u.Raw?
    ensures forall k | 0 <= k < |UnitText(u)| :: UnitText(u)[k] < 0x80
  {
  }

  /** If the bytes of the literal are valid UTF-8, then so is the decoded text. */
  lemma {:induction false} MeaningIsUtf8(us: seq<Unit>)
    requires AllScannable(us) && Esc(0) !in us && Utf8.Valid(UnitsText(us))
    ensures Utf8.Valid(Meaning(us))
    decreases |us|
  {
    if us == [] {
    } else if us[0].Raw? {
      var t := UnitsText(us);
      var n := Lead(t);
      if us[0].b < 0x80 {
        assert t[1..] == UnitsText(us[1..]);
        MeaningIsUtf8(us[1..]);
        assert Meaning(us)[1..] == Meaning(us[1..]);
      } else {
        RawRun(us, n);
        LeadSlice(t);
        assert t[n..] == UnitsText(us[n..]);
        MeaningIsUtf8(us[n..]);
        ValidAppend(t[..n], Meaning(us[n..]));
      }
    } else {
      EscapedIsUtf8(us);
    }
  }

  lemma {:induction false} EscapedIsUtf8(us: seq<Unit>)
    requires AllScannable(us) && Esc(0) !in us && us != [] && !us[0].Raw? && Utf8.Valid(UnitsText(us))
    ensures Utf8.Valid(Meaning(us))
    decreases |us|, 0
  {
    var rest := us[1..];
    EscapeDropped(us);
    MeaningIsUtf8(rest);
    hide UnitsText, UnitText, Utf8.Lead, Utf8.Encode, Quad, Scannable, EscapeByte;
    if us[0].Esc? {
      assert Meaning(us) == [EscapeByte(us[0].b)] + Meaning(rest);
      ByteThenUtf8(us[0].b, Meaning(rest));
    } else if IsPair(us) {
      EscapeDropped(rest);
      MeaningIsUtf8(rest[1..]);
      var c := Combine(Quad(us[0].h, 0), Quad(us[1].h, 0));
      EncodeValid(c);
      ValidAppend(Encode(c), Meaning(rest[1..]));
    } else {
      var c := Lone(Quad(us[0].h, 0));
      EncodeValid(c);
      ValidAppend(Encode(c), Meaning(rest));
    }
  }

  lemma EscapeDropped(us: seq<Unit>)
    requires AllScannable(us) && us != [] && !us[0].Raw? && Utf8.Valid(UnitsText(us))
    ensures Utf8.Valid(UnitsText(us[1..]))
  {
    HexAscii(us[0]);
    var n := |UnitText(us[0])|;
    AsciiPrefix(UnitsText(us), n);
    assert UnitsText(us)[n..] == UnitsText(us[1..]);
  }

  lemma ByteThenUtf8(c: byte, rest: seq<byte>)
    requires IsEscape(c) && c != 0 && Utf8.Valid(rest)
    ensures Utf8.Valid([EscapeByte(c)] + rest)
  {
    assert ([EscapeByte(c)] + rest)[1..] == rest;
  }
}
