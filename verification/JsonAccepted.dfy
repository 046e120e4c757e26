/** The converse of JsonGrammar's completeness: every accepted text is a text of the grammar. With it, the reader's
    language is exactly known, and RFC 8259 texts are inside it. */
module JsonAccepted {
  import opened Bytes
  import Utf8
  import opened Json
  import opened JsonReparse
  import opened JsonString
  import opened JsonGrammar

  lemma {:induction false} SkipIsBlank(s: seq<byte>, i: nat, end: nat)
    requires i <= end <= |s|
    ensures AllSpace(s[i..SkipSpace(s, i, end)])
    decreases end - i
  {
    if i < end && IsSpace(s[i]) {
      SkipIsBlank(s, i + 1, end);
      assert s[i..SkipSpace(s, i, end)] == [s[i]] + s[i + 1..SkipSpace(s, i, end)];
    }
  }

  lemma {:induction false} NumberIsLoose(s: seq<byte>, i: nat, end: nat)
    requires i <= end <= |s|
    ensures forall k | i <= k < ScanNumber(s, i, end) :: IsNumeric(s[k])
    decreases end - i
  {
    if i < end && IsNumeric(s[i]) {
      NumberIsLoose(s, i + 1, end);
    }
  }

  /** A string literal, from quote to quote. */
  lemma StringSound(s: seq<byte>, i: nat, end: nat, after: nat) returns (us: seq<Unit>)
    requires i <= end <= |s| && ParseString(s, i, end) == Some(after)
    ensures AllScannable(us) && Quoted(us) == s[i..after]
  {
    us := ScanSound(s, i + 1, end, after);
    hide ScanString, AllScannable, UnitsText;
    CutEnds(s, i, after);
  }

  /** For every literal the scanner accepts, the decoder gives its meaning, unless a backslash is followed by a NUL
      byte, which it refuses; and it keeps UTF-8 valid. */
  lemma LiteralDecodes(s: seq<byte>, i: nat, end: nat, after: nat) returns (us: seq<Unit>)
    requires i <= end <= |s| && ParseString(s, i, end) == Some(after)
    ensures AllScannable(us) && Quoted(us) == s[i..after]
    ensures DecodeFrom(s, i + 1, after - 1) == if Esc(0) in us then None else Some(Meaning(us))
    ensures Esc(0) !in us && Utf8.Valid(s[i + 1..after - 1]) ==> Utf8.Valid(Meaning(us))
  {
    hide DecodeFrom, Meaning, AllScannable, Utf8.Valid, UnitsText, ScanString;
    us := ScanSound(s, i + 1, end, after);
    CutEnds(s, i, after);
    DecodeMeaning(s, i + 1, after - 1, us);
    if Esc(0) !in us && Utf8.Valid(s[i + 1..after - 1]) {
      MeaningIsUtf8(us);
    }
  }

  lemma AtomSound(s: seq<byte>, i: nat, end: nat, n: Node) returns (t: Tree)
    requires i < end <= |s| && ParseAtom(s, i, end) == Some(n)
    ensures Loose(t) && Depth(t) == 0 && Text(t) == s[i..n.extent.end] && Shape(t, i) == n
  {
    var x := s[i..n.extent.end];
    if IsTrue(s, i, end) {
      t := True;
      assert x == [s[i], s[i + 1], s[i + 2], s[i + 3]];
    } else if IsFalse(s, i, end) {
      t := False;
      assert x == [s[i], s[i + 1], s[i + 2], s[i + 3], s[i + 4]];
    } else if IsNull(s, i, end) {
      t := Tree.Nothing;
      assert x == [s[i], s[i + 1], s[i + 2], s[i + 3]];
    } else {
      t := Num(x);
      NumberIsLoose(s, i + 1, end);
    }
  }

  lemma {:induction false} ValueSound(s: seq<byte>, i: nat, end: nat, depth: nat, n: Node) returns (t: Tree)
    requires i <= end <= |s| && ParseValue(s, i, end, depth) == Some(n)
    ensures Loose(t) && depth + Depth(t) <= MAX_DEPTH
    ensures Text(t) == s[n.extent.start..n.extent.end] && Shape(t, n.extent.start) == n
    decreases end - i, 0
  {
    hide SkipSpace, ParseAtom, ParseString, Loose, Text, Shape, ParseParts;
    var start := SkipSpace(s, i, end);
    if s[start] == QUOTE {
      t := StrSound(s, start, end, n.extent.end);
    } else if s[start] == OPEN_BRACE || s[start] == OPEN_BRACKET {
      var braces := s[start] == OPEN_BRACE;
      var first := SkipSpace(s, start + 1, end);
      if first < end && s[first] == Closing(braces) {
        t := EmptySound(s, start, end, braces);
      } else {
        PartsFromBlank(s, start + 1, end, depth, braces);
        var parts := ParseParts(s, start + 1, end, depth, braces).value;
        var c := PartsSound(s, start + 1, end, depth, braces, parts);
        t := FilledSound(s, start, braces, c, parts);
      }
    } else {
      t := AtomSound(s, start, end, n);
    }
  }

  lemma StrSound(s: seq<byte>, i: nat, end: nat, after: nat) returns (t: Tree)
    requires i <= end <= |s| && ParseString(s, i, end) == Some(after)
    ensures Loose(t) && Depth(t) == 0 && Text(t) == s[i..after]
    ensures Shape(t, i) == Node(Value(i, after, String), [], [])
  {
    var us := StringSound(s, i, end, after);
    t := Str(us);
  }

  lemma EmptySound(s: seq<byte>, i: nat, end: nat, braces: bool) returns (t: Tree)
    requires i < end <= |s| && s[i] == Opening(braces)
    requires var first := SkipSpace(s, i + 1, end); first < end && s[first] == Closing(braces)
    ensures Loose(t) && Depth(t) == 0
    ensures var after := SkipSpace(s, i + 1, end) + 1;
            && Text(t) == s[i..after]
            && Shape(t, i) == Node(Value(i, after, if braces then Object else Array), [], [])
  {
    var first := SkipSpace(s, i + 1, end);
    SkipIsBlank(s, i + 1, end);
    t := Empty(braces, s[i + 1..first]);
    assert s[i..first + 1] == [s[i]] + (s[i + 1..first] + [s[first]]);
  }

  lemma FilledSound(s: seq<byte>, i: nat, braces: bool, c: Chain, parts: Parts) returns (t: Tree)
    requires i + 1 < parts.after <= |s| && s[i] == Opening(braces)
    requires LooseChain(c, braces) && ChainText(c, braces) == s[i + 1..parts.after]
    requires ChainShape(c, braces, i + 1) == parts
    ensures Loose(t) && Depth(t) == 1 + ChainDepth(c) && Text(t) == s[i..parts.after]
    ensures Shape(t, i) == Node(Value(i, parts.after, if braces then Object else Array), parts.keys, parts.items)
  {
    t := Filled(braces, c);
    assert s[i..parts.after] == [s[i]] + s[i + 1..parts.after];
  }

  lemma {:induction false} PartsSound(s: seq<byte>, i: nat, end: nat, depth: nat, braces: bool, parts: Parts)
    returns (c: Chain)
    requires i <= end <= |s| && ParseParts(s, i, end, depth, braces) == Some(parts)
    ensures LooseChain(c, braces) && depth + 1 + ChainDepth(c) <= MAX_DEPTH
    ensures i < parts.after <= end && ChainText(c, braces) == s[i..parts.after] && ChainShape(c, braces, i) == parts
    decreases end - i, 2
  {
    hide ParseParts, ParsePart, SlotText, SlotShape, LooseSlot, Depth;
    var part := PartsUnfold(s, i, end, depth, braces, parts);
    var slot := PartSound(s, i, end, depth, braces, part);
    if s[part.next] == COMMA {
      var rest := ParseParts(s, part.next + 1, end, depth, braces).value;
      var more := PartsSound(s, part.next + 1, end, depth, braces, rest);
      c := More(slot, more);
      assert s[i..parts.after] == s[i..part.next] + ([s[part.next]] + s[part.next + 1..parts.after]);
    } else {
      c := Last(slot);
      assert s[i..parts.after] == s[i..part.next] + [s[part.next]];
    }
  }

  lemma {:induction false} PartSound(s: seq<byte>, i: nat, end: nat, depth: nat, braces: bool, part: Part)
    returns (x: Slot)
    requires i <= end <= |s| && ParsePart(s, i, end, depth, braces) == Some(part)
    ensures LooseSlot(x, braces) && depth + 1 + Depth(x.value) <= MAX_DEPTH
    ensures i <= part.next <= end && SlotText(x, braces) == s[i..part.next] && SlotShape(x, braces, i) == part
    decreases end - i, 1
  {
    hide SkipSpace, ParseKey, ParseValue, SlotText, KeyText, SlotShape, LooseSlot, Loose, Text, Shape, Depth;
    var at := i;
    var key := Slot([], [], [], [], True, []);
    if braces {
      key := KeySound(s, i, end);
      at := ParseKey(s, i, end).value.1;
    } else {
      KeyLess(key);
    }
    var n := ParseValue(s, at, end, depth + 1).value;
    var t := ValueSound(s, at, end, depth + 1, n);
    x := SlotSound(s, i, end, at, braces, key, t, n, part);
  }

  /** The key literal, its blanks and its colon, as a slot without a value. */
  lemma KeySound(s: seq<byte>, i: nat, end: nat) returns (x: Slot)
    requires i <= end <= |s| && ParseKey(s, i, end).Some?
    ensures AllSpace(x.lead) && AllScannable(x.key) && AllSpace(x.gap)
    ensures i <= ParseKey(s, i, end).value.1 && KeyText(x, true) == s[i..ParseKey(s, i, end).value.1]
    ensures KeySpan(x, i) == ParseKey(s, i, end).value.0
  {
    hide SkipSpace, ParseString, Quoted, AllSpace, AllScannable;
    var start := SkipSpace(s, i, end);
    var after := ParseString(s, start, end).value;
    var colon := SkipSpace(s, after, end);
    SkipIsBlank(s, i, end);
    SkipIsBlank(s, after, end);
    var us := StringSound(s, start, end, after);
    x := Slot(s[i..start], us, s[after..colon], [], True, []);
    assert s[i..colon + 1] == s[i..start] + (s[start..after] + (s[after..colon] + [s[colon]]));
  }

  lemma SameKey(x: Slot, y: Slot, braces: bool, i: nat)
    requires x.lead == y.lead && x.key == y.key && x.gap == y.gap
    ensures KeyText(x, braces) == KeyText(y, braces) && KeySpan(x, i) == KeySpan(y, i)
  {
  }

  lemma SlotSound(
      s: seq<byte>, i: nat, end: nat, at: nat, braces: bool, key: Slot, t: Tree, n: Node, part: Part) returns (x: Slot)
    requires i <= at <= n.extent.start <= n.extent.end <= part.next <= end <= |s|
    requires AllSpace(key.lead) && AllScannable(key.key) && AllSpace(key.gap)
    requires KeyText(key, braces) == s[i..at] && Loose(t)
    requires n.extent.start == SkipSpace(s, at, end) && part.next == SkipSpace(s, n.extent.end, end)
    requires Text(t) == s[n.extent.start..n.extent.end] && Shape(t, n.extent.start) == n
    requires part.item == n.extent && part.keys == if braces then [KeySpan(key, i)] else []
    ensures LooseSlot(x, braces) && x.value == t
    ensures SlotText(x, braces) == s[i..part.next] && SlotShape(x, braces, i) == part
  {
    hide SkipSpace, KeyText, KeySpan, AllSpace, AllScannable, Loose, Text, Shape;
    x := Slot(key.lead, key.key, key.gap, s[at..n.extent.start], t, s[n.extent.end..part.next]);
    SameKey(x, key, braces, i);
    SkipIsBlank(s, at, end);
    SkipIsBlank(s, n.extent.end, end);
    Cut(s, i, at, part.next);
    Cut(s, at, n.extent.start, part.next);
    Cut(s, n.extent.start, n.extent.end, part.next);
    SlotShapeItem(x, n.extent.start);
  }

  /** The text is written as blank, tree, blank. */
  ghost predicate Writes(s: seq<byte>, pre: Blank, t: Tree, post: Blank)
  {
    AllSpace(pre) && Loose(t) && AllSpace(post) && Depth(t) <= 32 && s == pre + (Text(t) + post)
  }

  lemma TextSound(s: seq<byte>) returns (pre: Blank, t: Tree, post: Blank)
    requires ParseText(s).Some?
    ensures Writes(s, pre, t, post) && ParseText(s) == Some(Shape(t, |pre|))
  {
    hide ParseValue, SkipSpace, Text, Loose, Shape, Depth, AllSpace;
    var n := ParseValue(s, 0, |s|, 0).value;
    t := ValueSound(s, 0, |s|, 0, n);
    var i, j := n.extent.start, n.extent.end;
    pre, post := s[0..i], s[j..|s|];
    SkipIsBlank(s, 0, |s|);
    SkipIsBlank(s, j, |s|);
    Cut(s, 0, i, |s|);
    Cut(s, i, j, |s|);
    assert s[0..|s|] == s;
  }

  /** The reader accepts a text exactly when it is a text of the grammar nested to depth at most 32. */
  lemma AcceptsExactly(s: seq<byte>)
    ensures ParseText(s).Some? <==> exists pre, t, post :: Writes(s, pre, t, post)
  {
    if ParseText(s).Some? {
      var pre, t, post := TextSound(s);
    }
    if pre, t, post :| Writes(s, pre, t, post) {
      TextComplete(pre, t, post);
    }
  }

  /** The bytes of a number behind its first one: digits, point, exponent letters and signs, and the NUL byte that
      strchr also finds. */
  lemma NumberBytes(c: byte)
    ensures IsNumeric(c) <==> c == 0 || c in Ascii("0123456789.eE+-")
  {
    var letters := "0123456789.eE+-";
    assert Ascii(letters)
           == [0x30, 0x31, 0x32, 0x33, 0x34, 0x35, 0x36, 0x37, 0x38, 0x39, 0x2E, 0x65, 0x45, 0x2B, 0x2D];
  }

  // ----- RFC 8259 ------------------------------------------------------------------------------------------------

  /** Section 2: the four blanks. */
  predicate RfcBlank(b: Blank)
  {
    forall k | 0 <= k < |b| :: b[k] == 0x20 || b[k] == 0x09 || b[k] == 0x0A || b[k] == 0x0D
  }

  predicate Digits(d: seq<byte>) { forall k | 0 <= k < |d| :: IsDigit(d[k]) }

  /** Section 6: number = [ minus ] int [ frac ] [ exp ]. */
  datatype Numeral = Numeral(minus: bool, whole: seq<byte>, fraction: seq<byte>, exponent: Exponent)
  datatype Exponent = NoExponent | Exponent(letter: byte, sign: seq<byte>, digits: seq<byte>)

  predicate RfcNumeral(n: Numeral)
  {
    && n.whole != [] && Digits(n.whole) && (|n.whole| > 1 ==> n.whole[0] != 0x30) && Digits(n.fraction)
    && (n.exponent.Exponent? ==>
          && (n.exponent.letter == 0x65 || n.exponent.letter == 0x45)
          && (n.exponent.sign == [] || n.exponent.sign == [MINUS] || n.exponent.sign == [0x2B])
          && n.exponent.digits != [] && Digits(n.exponent.digits))
  }

  function NumeralText(n: Numeral): seq<byte>
  {
    (if n.minus then [MINUS] else []) + n.whole
    + (if n.fraction == [] then [] else [0x2E] + n.fraction)
    + (if n.exponent.NoExponent? then [] else [n.exponent.letter] + n.exponent.sign + n.exponent.digits)
  }

  /** Section 7: the units of a string. */
  predicate RfcUnits(us: seq<Unit>) { AllScannable(us) && Esc(0) !in us }

  /** Sections 2 to 7: the texts of the standard. */
  ghost predicate Rfc(t: Tree)
    decreases t, 0
  {
    match t
    case Str(us) => RfcUnits(us)
    case Num(text) => exists n :: RfcNumeral(n) && text == NumeralText(n)
    case Empty(_, inside) => RfcBlank(inside)
    case Filled(braces, chain) => RfcChain(chain, braces)
    case _ => true
  }

  ghost predicate RfcChain(c: Chain, braces: bool)
    decreases c, 1
  {
    match c
    case Last(slot) => RfcSlot(slot, braces)
    case More(slot, rest) => RfcSlot(slot, braces) && RfcChain(rest, braces)
  }

  ghost predicate RfcSlot(x: Slot, braces: bool)
    decreases x, 0
  {
    && (braces ==> RfcBlank(x.lead) && RfcUnits(x.key) && RfcBlank(x.gap))
    && RfcBlank(x.before) && Rfc(x.value) && RfcBlank(x.after)
  }

  lemma NumeralIsLoose(n: Numeral)
    requires RfcNumeral(n)
    ensures LooseNumber(NumeralText(n))
  {
  }

  lemma {:induction false} RfcIsLoose(t: Tree)
    requires Rfc(t)
    ensures Loose(t)
    decreases t, 0
  {
    match t
    case Num(text) =>
      var n :| RfcNumeral(n) && text == NumeralText(n);
      NumeralIsLoose(n);
    case Filled(braces, chain) => RfcChainIsLoose(chain, braces);
    case _ =>
  }

  lemma {:induction false} RfcChainIsLoose(c: Chain, braces: bool)
    requires RfcChain(c, braces)
    ensures LooseChain(c, braces)
    decreases c, 1
  {
    RfcIsLoose(c.slot.value);
    if c.More? {
      RfcChainIsLoose(c.rest, braces);
    }
  }

  /** Every text of RFC 8259 whose values nest to depth at most 32 is accepted, with its type, extent and parts. */
  lemma RfcAccepted(pre: Blank, t: Tree, post: Blank)
    requires RfcBlank(pre) && Rfc(t) && RfcBlank(post) && Depth(t) <= MAX_DEPTH
    ensures ParseText(pre + (Text(t) + post)) == Some(Shape(t, |pre|))
  {
    RfcIsLoose(t);
    TextComplete(pre, t, post);
  }
}
