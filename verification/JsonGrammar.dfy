/** The grammar of JSON texts as concrete syntax trees, independent of the reader, and the proof that the reader
    accepts exactly the texts of those trees and delimits exactly their parts. */
module JsonGrammar {
  import opened Bytes
  import opened Json
  import opened JsonReparse
  import opened JsonString

  type Blank = seq<byte>

  /** `Empty` and `Filled` are an object or an array, by `braces`. */
  datatype Tree =
    | Str(units: seq<Unit>)
    | Num(text: seq<byte>)
    | True | False | Nothing
    | Empty(braces: bool, inside: Blank)
    | Filled(braces: bool, chain: Chain)

  datatype Chain = Last(slot: Slot) | More(slot: Slot, rest: Chain)

  /** An element between blanks, or a member: in an array only `before`, `value` and `after` are written. */
  datatype Slot = Slot(lead: Blank, key: seq<Unit>, gap: Blank, before: Blank, value: Tree, after: Blank)

  function Quoted(us: seq<Unit>): seq<byte> { [QUOTE] + (UnitsText(us) + [QUOTE]) }

  function Opening(braces: bool): byte { if braces then OPEN_BRACE else OPEN_BRACKET }

  function Text(t: Tree): (r: seq<byte>)
    decreases t, 0
  {
    match t
    case Str(us) => Quoted(us)
    case Num(text) => text
    case True => [0x74, 0x72, 0x75, 0x65]
    case False => [0x66, 0x61, 0x6C, 0x73, 0x65]
    case Nothing => [0x6E, 0x75, 0x6C, 0x6C]
    case Empty(braces, inside) => [Opening(braces)] + (inside + [Closing(braces)])
    case Filled(braces, chain) => [Opening(braces)] + ChainText(chain, braces)
  }

  function ChainText(c: Chain, braces: bool): seq<byte>
    decreases c, 1
  {
    match c
    case Last(slot) => SlotText(slot, braces) + [Closing(braces)]
    case More(slot, rest) => SlotText(slot, braces) + ([COMMA] + ChainText(rest, braces))
  }

  function SlotText(x: Slot, braces: bool): seq<byte>
    decreases x, 0
  {
    KeyText(x, braces) + (x.before + (Text(x.value) + x.after))
  }

  function KeyText(x: Slot, braces: bool): seq<byte>
  {
    if braces then x.lead + (Quoted(x.key) + (x.gap + [COLON])) else []
  }

  function Max(a: nat, b: nat): nat { if a <= b then b else a }

  /** How deep values nest below this one. */
  function Depth(t: Tree): nat
    decreases t, 0
  {
    if t.Filled? then 1 + ChainDepth(t.chain) else 0
  }

  function ChainDepth(c: Chain): nat
    decreases c, 1
  {
    match c
    case Last(slot) => Depth(slot.value)
    case More(slot, rest) => Max(Depth(slot.value), ChainDepth(rest))
  }

  predicate AllSpace(b: Blank) { forall k | 0 <= k < |b| :: IsSpace(b[k]) }

  /** The numbers the reader takes: a minus or digit, then any run of number letters. */
  predicate LooseNumber(text: seq<byte>)
  {
    && text != [] && (text[0] == MINUS || IsDigit(text[0]))
    && forall k | 1 <= k < |text| :: IsNumeric(text[k])
  }

  /** The trees of the language that the reader takes. */
  predicate Loose(t: Tree)
    decreases t, 0
  {
    match t
    case Str(us) => AllScannable(us)
    case Num(text) => LooseNumber(text)
    case Empty(_, inside) => AllSpace(inside)
    case Filled(braces, chain) => LooseChain(chain, braces)
    case _ => true
  }

  predicate LooseChain(c: Chain, braces: bool)
    decreases c, 1
  {
    match c
    case Last(slot) => LooseSlot(slot, braces)
    case More(slot, rest) => LooseSlot(slot, braces) && LooseChain(rest, braces)
  }

  predicate LooseSlot(x: Slot, braces: bool)
    decreases x, 0
  {
    && (braces ==> AllSpace(x.lead) && AllScannable(x.key) && AllSpace(x.gap))
    && AllSpace(x.before) && Loose(x.value) && AllSpace(x.after)
  }

  function KindOf(t: Tree): Kind
  {
    match t
    case Str(_) => String
    case Num(_) => Number
    case True => Boolean
    case False => Boolean
    case Nothing => Null
    case Empty(braces, _) => if braces then Object else Array
    case Filled(braces, _) => if braces then Object else Array
  }

  /** The extent of a tree's text when it starts at `at`. */
  function Extent(t: Tree, at: nat): Value { Value(at, at + |Text(t)|, KindOf(t)) }

  function Shape(t: Tree, at: nat): Node
  {
    if t.Filled? then
      var parts := ChainShape(t.chain, t.braces, at + 1);
      Node(Extent(t, at), parts.keys, parts.items)
    else Node(Extent(t, at), [], [])
  }

  function KeySpan(x: Slot, at: nat): Span
  {
    Span(at + |x.lead|, at + |x.lead| + |Quoted(x.key)|)
  }

  function SlotShape(x: Slot, braces: bool, at: nat): Part
  {
    Part(
      if braces then [KeySpan(x, at)] else [],
      Extent(x.value, at + |KeyText(x, braces)| + |x.before|),
      at + |SlotText(x, braces)|)
  }

  function ChainShape(c: Chain, braces: bool, at: nat): Parts
  {
    var part := SlotShape(c.slot, braces, at);
    if c.Last? then Parts(part.keys, [part.item], part.next + 1)
    else
      var rest := ChainShape(c.rest, braces, part.next + 1);
      Parts(part.keys + rest.keys, [part.item] + rest.items, rest.after)
  }

  // ----- the reader accepts every tree ---------------------------------------------------------------------------

  lemma {:induction false} SkipBlank(s: seq<byte>, i: nat, end: nat, b: Blank)
    requires i <= end <= |s| && At(s, i, b) && AllSpace(b) && i + |b| <= end
    requires i + |b| < end ==> !IsSpace(s[i + |b|])
    ensures SkipSpace(s, i, end) == i + |b|
    decreases |b|
  {
    if b != [] {
      assert b == [b[0]] + b[1..];
      AtAppend(s, i, [b[0]], b[1..]);
      assert s[i] == s[i..i + 1][0];
      SkipBlank(s, i + 1, end, b[1..]);
    }
  }

  lemma {:induction false} ScanDigits(s: seq<byte>, i: nat, end: nat, t: seq<byte>)
    requires i <= end <= |s| && At(s, i, t) && i + |t| <= end && forall k | 0 <= k < |t| :: IsNumeric(t[k])
    requires i + |t| < end ==> !IsNumeric(s[i + |t|])
    ensures ScanNumber(s, i, end) == i + |t|
    decreases |t|
  {
    if t != [] {
      assert t == [t[0]] + t[1..];
      AtAppend(s, i, [t[0]], t[1..]);
      assert s[i] == s[i..i + 1][0];
      ScanDigits(s, i + 1, end, t[1..]);
    }
  }

  /** A value's text starts with a byte that is neither blank nor structural. */
  lemma TextHead(t: Tree)
    requires Loose(t)
    ensures Text(t) != []
    ensures var c := Text(t)[0]; !IsSpace(c) && c != CLOSE_BRACKET && c != CLOSE_BRACE && c != COMMA && c != COLON
  {
  }

  lemma HeadAt(s: seq<byte>, i: nat, t: seq<byte>)
    requires At(s, i, t) && t != []
    ensures i < |s| && s[i] == t[0]
  {
    assert s[i..i + |t|][0] == s[i];
  }

  /** A number would swallow a number letter that follows it; every other value ends where its text ends. */
  predicate Delimited(s: seq<byte>, j: nat, end: nat, t: Tree)
    requires end <= |s|
  {
    t.Num? && j < end ==> !IsNumeric(s[j])
  }

  lemma AtomComplete(s: seq<byte>, i: nat, end: nat, t: Tree)
    requires i < end <= |s| && Loose(t) && At(s, i, Text(t)) && i + |Text(t)| <= end
    requires Delimited(s, i + |Text(t)|, end, t) && (t.Num? || t.True? || t.False? || t.Nothing?)
    ensures ParseAtom(s, i, end) == Some(Shape(t, i))
    ensures s[i] != QUOTE && s[i] != OPEN_BRACE && s[i] != OPEN_BRACKET
  {
    var x := Text(t);
    HeadAt(s, i, x);
    if t.Num? {
      NumberHere(s, i, end, x);
    } else {
      hide At;
      WordAt(s, i, x);
    }
  }

  lemma NumberHere(s: seq<byte>, i: nat, end: nat, x: seq<byte>)
    requires i < end <= |s| && LooseNumber(x) && At(s, i, x) && i + |x| <= end
    requires i + |x| < end ==> !IsNumeric(s[i + |x|])
    ensures ScanNumber(s, i + 1, end) == i + |x|
  {
    assert x == [x[0]] + x[1..];
    AtAppend(s, i, [x[0]], x[1..]);
    ScanDigits(s, i + 1, end, x[1..]);
  }

  /** The letters of a short word. */
  lemma WordAt(s: seq<byte>, i: nat, x: seq<byte>)
    requires At(s, i, x) && 4 <= |x| <= 5
    ensures s[i] == x[0] && s[i + 1] == x[1] && s[i + 2] == x[2] && s[i + 3] == x[3] && (|x| == 5 ==> s[i + 4] == x[4])
  {
    var y := s[i..i + |x|];
    assert s[i] == y[0] && s[i + 1] == y[1] && s[i + 2] == y[2] && s[i + 3] == y[3] && (|x| == 5 ==> s[i + 4] == y[4]);
  }

  lemma StringComplete(s: seq<byte>, i: nat, end: nat, us: seq<Unit>)
    requires i <= end <= |s| && AllScannable(us) && At(s, i, Quoted(us)) && i + |Quoted(us)| <= end
    ensures i < end && s[i] == QUOTE && ParseString(s, i, end) == Some(i + |Quoted(us)|)
  {
    hide At, ScanString, UnitsText;
    var x := UnitsText(us);
    AtAppend(s, i, [QUOTE], x + [QUOTE]);
    AtAppend(s, i + 1, x, [QUOTE]);
    HeadAt(s, i, [QUOTE]);
    HeadAt(s, i + 1 + |x|, [QUOTE]);
    ScanComplete(s, i + 1, end, us);
  }

  /** Parsing parts from a blank or from the first byte after it is the same. */
  lemma PartsFromBlank(s: seq<byte>, i: nat, end: nat, depth: nat, braces: bool)
    requires i <= end <= |s|
    ensures ParseParts(s, i, end, depth, braces) == ParseParts(s, SkipSpace(s, i, end), end, depth, braces)
  {
    hide ParseValue, ParseKey, ParsePart, SkipSpace;
    PartFromBlank(s, i, end, depth, braces);
  }

  lemma PartFromBlank(s: seq<byte>, i: nat, end: nat, depth: nat, braces: bool)
    requires i <= end <= |s|
    ensures ParsePart(s, i, end, depth, braces) == ParsePart(s, SkipSpace(s, i, end), end, depth, braces)
  {
    hide ParseValue, ParseString;
    SkipIdempotent(s, i, end);
    ParseFromBlank(s, i, end, depth + 1);
  }

  lemma {:induction false} ValueComplete(s: seq<byte>, i: nat, end: nat, depth: nat, b: Blank, t: Tree)
    requires i <= end <= |s| && AllSpace(b) && Loose(t) && depth + Depth(t) <= MAX_DEPTH
    requires At(s, i, b) && At(s, i + |b|, Text(t)) && i + |b| + |Text(t)| <= end
    requires Delimited(s, i + |b| + |Text(t)|, end, t)
    ensures ParseValue(s, i, end, depth) == Some(Shape(t, i + |b|))
    decreases t, 0
  {
    hide At, SkipSpace, ParseParts, ParseAtom, ParseString, ChainText, AllSpace, AllScannable, LooseNumber;
    var start := i + |b|;
    TextHead(t);
    HeadAt(s, start, Text(t));
    SkipBlank(s, i, end, b);
    match t
    case Str(us) => StringComplete(s, start, end, us);
    case Empty(braces, inside) => EmptyComplete(s, i, end, depth, start, t);
    case Filled(braces, chain) =>
      AtAppend(s, start, [Opening(braces)], ChainText(chain, braces));
      HeadAt(s, start, [Opening(braces)]);
      ChainComplete(s, start + 1, end, depth, braces, chain);
      FilledComplete(s, i, end, depth, start, t);
    case _ => AtomComplete(s, start, end, t);
  }

  lemma ParseEmpty(s: seq<byte>, i: nat, end: nat, depth: nat, braces: bool)
    requires i <= end <= |s| && depth <= MAX_DEPTH
    requires var start := SkipSpace(s, i, end);
             && start < end && s[start] == Opening(braces)
             && SkipSpace(s, start + 1, end) < end && s[SkipSpace(s, start + 1, end)] == Closing(braces)
    ensures var start := SkipSpace(s, i, end);
            ParseValue(s, i, end, depth)
            == Some(Node(Value(start, SkipSpace(s, start + 1, end) + 1, if braces then Object else Array), [], []))
  {
    hide SkipSpace, ParseParts;
  }

  lemma EmptyComplete(s: seq<byte>, i: nat, end: nat, depth: nat, start: nat, t: Tree)
    requires i <= start < end <= |s| && SkipSpace(s, i, end) == start && depth <= MAX_DEPTH
    requires t.Empty? && Loose(t) && At(s, start, Text(t)) && start + |Text(t)| <= end
    ensures ParseValue(s, i, end, depth) == Some(Shape(t, start))
  {
    hide At, SkipSpace, ParseValue, AllSpace;
    AtAppend(s, start, [Opening(t.braces)], t.inside + [Closing(t.braces)]);
    AtAppend(s, start + 1, t.inside, [Closing(t.braces)]);
    HeadAt(s, start, [Opening(t.braces)]);
    HeadAt(s, start + 1 + |t.inside|, [Closing(t.braces)]);
    SkipBlank(s, start + 1, end, t.inside);
    ParseEmpty(s, i, end, depth, t.braces);
  }

  lemma FilledComplete(s: seq<byte>, i: nat, end: nat, depth: nat, start: nat, t: Tree)
    requires i <= start < end <= |s| && SkipSpace(s, i, end) == start && depth <= MAX_DEPTH
    requires t.Filled? && Loose(t) && At(s, start, Text(t)) && start + |Text(t)| <= end && s[start] == Opening(t.braces)
    requires ParseParts(s, start + 1, end, depth, t.braces) == Some(ChainShape(t.chain, t.braces, start + 1))
    ensures ParseValue(s, i, end, depth) == Some(Shape(t, start))
  {
    hide ParseParts, At, SkipSpace, ChainText, ParseAtom, ChainShape, LooseChain;
    PartsFromBlank(s, start + 1, end, depth, t.braces);
    ChainShapeEnd(t.chain, t.braces, start + 1);
    NotClosing(s, start + 1, end, depth, t.braces);
  }

  lemma {:induction false} ChainShapeEnd(c: Chain, braces: bool, at: nat)
    ensures ChainShape(c, braces, at).after == at + |ChainText(c, braces)|
  {
    hide SlotText;
    if c.More? {
      ChainShapeEnd(c.rest, braces, at + |SlotText(c.slot, braces)| + 1);
    }
  }

  /** Where parts parse, the first byte that is not blank does not close the container. */
  lemma NotClosing(s: seq<byte>, i: nat, end: nat, depth: nat, braces: bool)
    requires i <= end <= |s| && ParseParts(s, i, end, depth, braces).Some?
    ensures var first := SkipSpace(s, i, end); first < end ==> s[first] != Closing(braces)
  {
    PartFromBlank(s, i, end, depth, braces);
    var first := SkipSpace(s, i, end);
    SkipIdempotent(s, i, end);
  }

  lemma KeyPlaces(s: seq<byte>, i: nat, x: Slot)
    requires At(s, i, KeyText(x, true))
    ensures var q := |Quoted(x.key)|;
            && At(s, i, x.lead) && At(s, i + |x.lead|, Quoted(x.key)) && At(s, i + |x.lead| + q, x.gap)
            && |KeyText(x, true)| == |x.lead| + q + |x.gap| + 1
            && i + |KeyText(x, true)| <= |s| && s[i + |x.lead| + q + |x.gap|] == COLON
  {
    hide At, Quoted;
    var q := Quoted(x.key);
    AtAppend(s, i, x.lead, q + (x.gap + [COLON]));
    AtAppend(s, i + |x.lead|, q, x.gap + [COLON]);
    AtAppend(s, i + |x.lead| + |q|, x.gap, [COLON]);
    HeadAt(s, i + |x.lead| + |q| + |x.gap|, [COLON]);
  }

  lemma KeyComplete(s: seq<byte>, i: nat, end: nat, x: Slot)
    requires i <= end <= |s| && AllSpace(x.lead) && AllScannable(x.key) && AllSpace(x.gap)
    requires At(s, i, KeyText(x, true)) && i + |KeyText(x, true)| <= end
    ensures ParseKey(s, i, end) == Some((KeySpan(x, i), i + |KeyText(x, true)|))
  {
    hide At, Quoted, AllSpace, AllScannable, SkipSpace, KeyText, ParseString;
    KeyPlaces(s, i, x);
    StringComplete(s, i + |x.lead|, end, x.key);
    SkipBlank(s, i, end, x.lead);
    SkipBlank(s, i + |x.lead| + |Quoted(x.key)|, end, x.gap);
  }

  lemma SlotPlaces(s: seq<byte>, i: nat, braces: bool, x: Slot)
    requires At(s, i, SlotText(x, braces)) && Loose(x.value) && AllSpace(x.after)
    ensures var k, v := |KeyText(x, braces)|, |Text(x.value)|;
            && At(s, i, KeyText(x, braces)) && At(s, i + k, x.before) && At(s, i + k + |x.before|, Text(x.value))
            && At(s, i + k + |x.before| + v, x.after)
            && |SlotText(x, braces)| == k + |x.before| + v + |x.after|
            && (x.after != [] ==> i + k + |x.before| + v < |s| && IsSpace(s[i + k + |x.before| + v]))
  {
    hide At, Text, KeyText, Loose;
    var k, v := KeyText(x, braces), Text(x.value);
    AtAppend(s, i, k, x.before + (v + x.after));
    AtAppend(s, i + |k|, x.before, v + x.after);
    AtAppend(s, i + |k| + |x.before|, v, x.after);
    if x.after != [] {
      HeadAt(s, i + |k| + |x.before| + |v|, x.after);
    }
  }

  /** After the slot stands its separator or closing bracket. */
  lemma {:induction false} SlotComplete(s: seq<byte>, i: nat, end: nat, depth: nat, braces: bool, x: Slot)
    requires i <= end <= |s| && LooseSlot(x, braces) && depth + 1 + Depth(x.value) <= MAX_DEPTH
    requires At(s, i, SlotText(x, braces)) && i + |SlotText(x, braces)| < end
    requires s[i + |SlotText(x, braces)|] == COMMA || s[i + |SlotText(x, braces)|] == Closing(braces)
    ensures ParsePart(s, i, end, depth, braces) == Some(SlotShape(x, braces, i))
    decreases x, 0
  {
    hide At, Text, SlotText, KeyText, SkipSpace, ParseValue, ParseKey, ParsePart, AllSpace, AllScannable, Loose, Depth,
         Shape, KeySpan, KindOf;
    SlotPlaces(s, i, braces, x);
    var k := |KeyText(x, braces)|;
    ValueComplete(s, i + k, end, depth + 1, x.before, x.value);
    SkipBlank(s, i + k + |x.before| + |Text(x.value)|, end, x.after);
    if braces {
      KeyComplete(s, i, end, x);
    } else {
      KeyLess(x);
    }
    SlotShapeItem(x, i + k + |x.before|);
    PartFrom(s, i, end, depth, braces, KeySpan(x, i), i + k, Shape(x.value, i + k + |x.before|));
  }

  lemma PartFrom(s: seq<byte>, i: nat, end: nat, depth: nat, braces: bool, key: Span, at: nat, n: Node)
    requires i <= at <= end <= |s| && (if braces then ParseKey(s, i, end) == Some((key, at)) else at == i)
    requires ParseValue(s, at, end, depth + 1) == Some(n)
    ensures n.extent.end <= end
    ensures ParsePart(s, i, end, depth, braces)
            == Some(Part(if braces then [key] else [], n.extent, SkipSpace(s, n.extent.end, end)))
  {
    hide ParseKey, ParseValue, SkipSpace;
  }

  lemma KeyLess(x: Slot)
    ensures KeyText(x, false) == []
  {
  }

  lemma ShapeExtent(t: Tree, at: nat)
    ensures Shape(t, at).extent.start == at && Shape(t, at).extent.end == at + |Text(t)|
  {
  }

  lemma SlotShapeItem(x: Slot, at: nat)
    ensures Shape(x.value, at).extent == Extent(x.value, at)
  {
  }

  lemma ChainPlaces(s: seq<byte>, i: nat, braces: bool, c: Chain)
    requires At(s, i, ChainText(c, braces))
    ensures var x := |SlotText(c.slot, braces)|;
            && At(s, i, SlotText(c.slot, braces)) && i + x < |s|
            && |ChainText(c, braces)| == x + 1 + (if c.More? then |ChainText(c.rest, braces)| else 0)
            && s[i + x] == (if c.More? then COMMA else Closing(braces))
            && (c.More? ==> At(s, i + x + 1, ChainText(c.rest, braces)))
  {
    hide At, SlotText;
    var x := SlotText(c.slot, braces);
    if c.Last? {
      AtAppend(s, i, x, [Closing(braces)]);
      HeadAt(s, i + |x|, [Closing(braces)]);
    } else {
      var rest := ChainText(c.rest, braces);
      AtAppend(s, i, x, [COMMA] + rest);
      AtAppend(s, i + |x|, [COMMA], rest);
      HeadAt(s, i + |x|, [COMMA]);
    }
  }

  lemma {:induction false} ChainComplete(s: seq<byte>, i: nat, end: nat, depth: nat, braces: bool, c: Chain)
    requires i <= end <= |s| && LooseChain(c, braces) && depth + 1 + ChainDepth(c) <= MAX_DEPTH
    requires At(s, i, ChainText(c, braces)) && i + |ChainText(c, braces)| <= end
    ensures ParseParts(s, i, end, depth, braces) == Some(ChainShape(c, braces, i))
    decreases c, 1
  {
    hide At, ChainText, SlotText, ParsePart, ParseValue, LooseSlot, Depth, Extent, KeyText, KeySpan;
    ChainPlaces(s, i, braces, c);
    if c.More? {
      ChainComplete(s, i + |SlotText(c.slot, braces)| + 1, end, depth, braces, c.rest);
    }
    SlotComplete(s, i, end, depth, braces, c.slot);
  }

  /** The reader accepts every text of the grammar nested to depth at most 32 and returns its type, extent and parts. */
  lemma TextComplete(pre: Blank, t: Tree, post: Blank)
    requires AllSpace(pre) && Loose(t) && AllSpace(post) && Depth(t) <= MAX_DEPTH
    ensures ParseText(pre + (Text(t) + post)) == Some(Shape(t, |pre|))
  {
    hide Text, Loose, Shape, Depth, ParseValue, SkipSpace;
    var s := pre + (Text(t) + post);
    assert At(s, 0, pre + (Text(t) + post));
    hide At;
    AtAppend(s, 0, pre, Text(t) + post);
    AtAppend(s, |pre|, Text(t), post);
    var j := |pre| + |Text(t)|;
    if post != [] {
      HeadAt(s, j, post);
    }
    ValueComplete(s, 0, |s|, 0, pre, t);
    ShapeExtent(t, |pre|);
    SkipBlank(s, j, |s|, post);
  }
}
