/** The recursive-descent JSON reader, as functions from positions to positions. Beside the value the reader returns,
    a node keeps the values of its parts, which the reader delimits and forgets. */
module Json {
  import opened Bytes

  const QUOTE: byte := 0x22
  const BACKSLASH: byte := 0x5C
  const SLASH: byte := 0x2F
  const COLON: byte := 0x3A
  const COMMA: byte := 0x2C
  const OPEN_BRACE: byte := 0x7B
  const CLOSE_BRACE: byte := 0x7D
  const OPEN_BRACKET: byte := 0x5B
  const CLOSE_BRACKET: byte := 0x5D
  const MINUS: byte := 0x2D
  const LETTER_U: byte := 0x75

  const MAX_DEPTH: nat := 32

  predicate IsDigit(c: byte) { 0x30 <= c <= 0x39 }

  predicate IsHex(c: byte) { IsDigit(c) || 0x41 <= c <= 0x46 || 0x61 <= c <= 0x66 }

  /** The bytes strchr finds in the escape letters: one of the eight, or the terminator itself. */
  predicate IsEscape(c: byte)
  {
    || c == QUOTE || c == BACKSLASH || c == SLASH
    || c == 0x62 || c == 0x66 || c == 0x6E || c == 0x72 || c == 0x74 || c == 0
  }

  /** The bytes strchr finds in the number letters: digits, point, e, E, plus, minus, or the terminator itself. */
  predicate IsNumeric(c: byte)
  {
    IsDigit(c) || c == 0x2E || c == 0x65 || c == 0x45 || c == 0x2B || c == MINUS || c == 0
  }

  datatype Kind = Object | Array | String | Number | Boolean | Null

  datatype Span = Span(start: nat, end: nat)

  /** What the reader hands out: the extent of a value and its type. */
  datatype Value = Value(start: nat, end: nat, kind: Kind)

  /** `keys` are the key literals of an object's members, `items` their values or the elements of an array. */
  datatype Node = Node(extent: Value, keys: seq<Span>, items: seq<Value>)

  /** One member (with its key) or element, and where the separator after it stands. */
  datatype Part = Part(keys: seq<Span>, item: Value, next: nat)

  /** The parts of a container and the position after its closing bracket. */
  datatype Parts = Parts(keys: seq<Span>, items: seq<Value>, after: nat)

  function SkipSpace(s: seq<byte>, i: nat, end: nat): (r: nat)
    requires i <= end <= |s|
    ensures i <= r <= end
    ensures r < end ==> !IsSpace(s[r])
    decreases end - i
  {
    if i < end && IsSpace(s[i]) then SkipSpace(s, i + 1, end) else i
  }

  /** From inside a string literal to the position after its closing quote. */
  function ScanString(s: seq<byte>, i: nat, end: nat): (r: Option<nat>)
    requires i <= end <= |s|
    ensures r.Some? ==> i < r.value <= end && s[r.value - 1] == QUOTE
    decreases end - i
  {
    if i >= end then None
    else if s[i] == QUOTE then Some(i + 1)
    else if s[i] < 0x20 then None
    else if s[i] != BACKSLASH then ScanString(s, i + 1, end)
    else if i + 1 >= end then None
    else if IsEscape(s[i + 1]) then ScanString(s, i + 2, end)
    else if s[i + 1] == LETTER_U && i + 6 <= end && HexQuad(s, i + 2) then ScanString(s, i + 6, end)
    else None
  }

  predicate HexQuad(s: seq<byte>, i: nat)
    requires i + 4 <= |s|
  {
    IsHex(s[i]) && IsHex(s[i + 1]) && IsHex(s[i + 2]) && IsHex(s[i + 3])
  }

  function ParseString(s: seq<byte>, i: nat, end: nat): (r: Option<nat>)
    requires i <= end <= |s|
    ensures r.Some? ==> i + 1 < r.value <= end && s[i] == QUOTE && s[r.value - 1] == QUOTE
  {
    if i >= end || s[i] != QUOTE then None else ScanString(s, i + 1, end)
  }

  function ScanNumber(s: seq<byte>, i: nat, end: nat): (r: nat)
    requires i <= end <= |s|
    ensures i <= r <= end
    ensures r < end ==> !IsNumeric(s[r])
    decreases end - i
  {
    if i < end && IsNumeric(s[i]) then ScanNumber(s, i + 1, end) else i
  }

  predicate IsTrue(s: seq<byte>, i: nat, end: nat)
    requires i <= end <= |s|
  {
    end - i >= 4 && s[i] == 0x74 && s[i + 1] == 0x72 && s[i + 2] == 0x75 && s[i + 3] == 0x65
  }

  predicate IsFalse(s: seq<byte>, i: nat, end: nat)
    requires i <= end <= |s|
  {
    end - i >= 5 && s[i] == 0x66 && s[i + 1] == 0x61 && s[i + 2] == 0x6C && s[i + 3] == 0x73 && s[i + 4] == 0x65
  }

  predicate IsNull(s: seq<byte>, i: nat, end: nat)
    requires i <= end <= |s|
  {
    end - i >= 4 && s[i] == 0x6E && s[i + 1] == 0x75 && s[i + 2] == 0x6C && s[i + 3] == 0x6C
  }

  /** A value that is neither string nor container. */
  function ParseAtom(s: seq<byte>, i: nat, end: nat): (r: Option<Node>)
    requires i < end <= |s|
    ensures r.Some? ==> r.value.extent.start == i < r.value.extent.end <= end
  {
    if IsTrue(s, i, end) then Some(Node(Value(i, i + 4, Boolean), [], []))
    else if IsFalse(s, i, end) then Some(Node(Value(i, i + 5, Boolean), [], []))
    else if IsNull(s, i, end) then Some(Node(Value(i, i + 4, Null), [], []))
    else if s[i] == MINUS || IsDigit(s[i]) then Some(Node(Value(i, ScanNumber(s, i + 1, end), Number), [], []))
    else None
  }

  function ParseValue(s: seq<byte>, i: nat, end: nat, depth: nat): (r: Option<Node>)
    requires i <= end <= |s|
    ensures r.Some? ==> i <= r.value.extent.start < r.value.extent.end <= end
    ensures r.Some? ==> r.value.extent.start == SkipSpace(s, i, end)
    decreases end - i, 0
  {
    var start := SkipSpace(s, i, end);
    if start >= end || depth > MAX_DEPTH then None
    else if s[start] == QUOTE then
      var after := ParseString(s, start, end);
      if after.None? then None else Some(Node(Value(start, after.value, String), [], []))
    else if s[start] == OPEN_BRACE || s[start] == OPEN_BRACKET then
      var braces := s[start] == OPEN_BRACE;
      var first := SkipSpace(s, start + 1, end);
      var kind := if braces then Object else Array;
      if first < end && s[first] == Closing(braces) then Some(Node(Value(start, first + 1, kind), [], []))
      else
        var parts := ParseParts(s, first, end, depth, braces);
        if parts.None? then None
        else Some(Node(Value(start, parts.value.after, kind), parts.value.keys, parts.value.items))
    else ParseAtom(s, start, end)
  }

  function Closing(braces: bool): byte { if braces then CLOSE_BRACE else CLOSE_BRACKET }

  /** A member key and its colon: the key literal and the position after the colon. */
  function ParseKey(s: seq<byte>, i: nat, end: nat): (r: Option<(Span, nat)>)
    requires i <= end <= |s|
    ensures r.Some? ==> i <= r.value.0.start < r.value.0.end < r.value.1 <= end
  {
    var start := SkipSpace(s, i, end);
    var after := ParseString(s, start, end);
    if after.None? then None
    else
      var colon := SkipSpace(s, after.value, end);
      if colon >= end || s[colon] != COLON then None else Some((Span(start, after.value), colon + 1))
  }

  /** One member or element, and the position of the first byte after it that is not blank. */
  function ParsePart(s: seq<byte>, i: nat, end: nat, depth: nat, braces: bool): (r: Option<Part>)
    requires i <= end <= |s|
    ensures r.Some? ==> i <= r.value.item.start < r.value.item.end <= r.value.next <= end
    ensures r.Some? ==> |r.value.keys| == if braces then 1 else 0
    decreases end - i, 1
  {
    var key := if braces then ParseKey(s, i, end) else Some((Span(i, i), i));
    if key.None? then None
    else
      var value := ParseValue(s, key.value.1, end, depth + 1);
      if value.None? then None
      else
        Some(Part(if braces then [key.value.0] else [], value.value.extent, SkipSpace(s, value.value.extent.end, end)))
  }

  /** The members of an object or the elements of an array, through the closing bracket. */
  function ParseParts(s: seq<byte>, i: nat, end: nat, depth: nat, braces: bool): (r: Option<Parts>)
    requires i <= end <= |s|
    ensures r.Some? ==> i < r.value.after <= end
    decreases end - i, 2
  {
    var part := ParsePart(s, i, end, depth, braces);
    if part.None? || part.value.next >= end then None
    else if s[part.value.next] == COMMA then
      var rest := ParseParts(s, part.value.next + 1, end, depth, braces);
      if rest.None? then None
      else Some(Parts(part.value.keys + rest.value.keys, [part.value.item] + rest.value.items, rest.value.after))
    else if s[part.value.next] == Closing(braces) then
      Some(Parts(part.value.keys, [part.value.item], part.value.next + 1))
    else None
  }

  /** parse_retro_vault_json: the whole text is one value between blanks. */
  function ParseText(s: seq<byte>): (r: Option<Node>)
  {
    var value := ParseValue(s, 0, |s|, 0);
    if value.Some? && SkipSpace(s, value.value.extent.end, |s|) == |s| then value else None
  }
}
